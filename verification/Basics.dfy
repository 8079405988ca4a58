/** Bytes, sequences, finite sets and quotients: what several modules need. */
module Basics {

  type byte = b: int | 0 <= b < 256
  type Bytes = seq<byte>

  // -------- sequences

  lemma Assoc<T>(a: seq<T>, b: seq<T>, c: seq<T>)
    ensures (a + b) + c == a + (b + c)
  {}

  lemma Rejoin<T>(s: seq<T>, n: nat)
    requires n <= |s|
    ensures s == s[..n] + s[n..]
  {}

  lemma Cut<T>(a: seq<T>, b: seq<T>)
    ensures (a + b)[..|a|] == a && (a + b)[|a|..] == b
  {}

  ghost predicate NoRepeats<T>(s: seq<T>) {
    forall i, j :: 0 <= i < j < |s| ==> s[i] != s[j]
  }

  /** The keys of m, each once, in some order. */
  ghost predicate Enumerates<K, V>(keys: seq<K>, m: map<K, V>) {
    NoRepeats(keys) && (forall k :: k in keys ==> k in m) && forall k :: k in m ==> k in keys
  }

  // -------- sets and quotients

  lemma SubsetSize<T>(a: set<T>, b: set<T>)
    requires a <= b
    ensures |a| <= |b|
  {
    assert b == a + (b - a);
  }

  function Product(n: int, d: int): int {
    n * d
  }

  function Quotient(t: nat, d: nat): nat
    requires d > 0
  {
    t / d
  }

  lemma QuotientBound(n: nat, d: nat, t: nat)
    requires d > 0 && Product(n, d) <= t
    ensures n <= Quotient(t, d)
  {
    var q := t / d;
    assert (q + 1) * d > t;
    assert n > q ==> n * d >= (q + 1) * d;
  }
}
