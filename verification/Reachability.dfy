/** Bounded reachability: the reference meaning of every breadth-first walk in
    this project. `step` maps a node to its successors; the graph may be infinite
    as long as each node has finitely many successors. */
module Reachability {

  /** The nodes at most k steps away from the start set. */
  ghost function Within<N>(step: N -> set<N>, start: set<N>, k: nat): set<N> {
    if k == 0 then start
    else
      var prev := Within(step, start, k - 1);
      prev + (set n, m | n in prev && m in step(n) :: m)
  }

  /** A walk lists its nodes; its length is the number of edges, |p| - 1. */
  ghost predicate IsWalk<N>(step: N -> set<N>, p: seq<N>) {
    |p| > 0 && forall i :: 0 <= i < |p| - 1 ==> p[i + 1] in step(p[i])
  }

  ghost predicate WalkTo<N>(step: N -> set<N>, start: set<N>, p: seq<N>, n: N) {
    IsWalk(step, p) && p[0] in start && p[|p| - 1] == n
  }

  /** d is the length of a shortest walk from the start set to n. */
  ghost predicate AtDistance<N>(step: N -> set<N>, start: set<N>, n: N, d: nat) {
    n in Within(step, start, d) && (d > 0 ==> n !in Within(step, start, d - 1))
  }

  lemma {:induction false} WithinGrows<N>(step: N -> set<N>, start: set<N>, j: nat, k: nat)
    requires j <= k
    ensures Within(step, start, j) <= Within(step, start, k)
    decreases k
  {
    if j < k {
      WithinGrows(step, start, j, k - 1);
    }
  }

  lemma {:induction false} WithinHasWalk<N>(step: N -> set<N>, start: set<N>, k: nat, n: N) returns (p: seq<N>)
    requires n in Within(step, start, k)
    ensures WalkTo(step, start, p, n) && |p| - 1 <= k
  {
    if k == 0 {
      p := [n];
    } else if n in Within(step, start, k - 1) {
      p := WithinHasWalk(step, start, k - 1, n);
    } else {
      var m :| m in Within(step, start, k - 1) && n in step(m);
      var q := WithinHasWalk(step, start, k - 1, m);
      p := q + [n];
    }
  }

  lemma {:induction false} WalkIsWithin<N>(step: N -> set<N>, start: set<N>, p: seq<N>, n: N)
    requires WalkTo(step, start, p, n)
    ensures n in Within(step, start, |p| - 1)
    decreases |p|
  {
    if |p| > 1 {
      var q := p[..|p| - 1];
      assert forall i :: 0 <= i < |q| ==> q[i] == p[i];
      WalkIsWithin(step, start, q, q[|q| - 1]);
      assert p[|p| - 2 + 1] in step(p[|p| - 2]);
    }
  }

  /** Within(k) is exactly what walks of at most k edges can reach. */
  lemma WithinIffWalk<N>(step: N -> set<N>, start: set<N>, k: nat, n: N)
    ensures n in Within(step, start, k) <==> exists p :: WalkTo(step, start, p, n) && |p| - 1 <= k
  {
    if n in Within(step, start, k) {
      var p := WithinHasWalk(step, start, k, n);
    }
    forall p | WalkTo(step, start, p, n) && |p| - 1 <= k
      ensures n in Within(step, start, k)
    {
      WalkIsWithin(step, start, p, n);
      WithinGrows(step, start, |p| - 1, k);
    }
  }

  /** A node at distance d is reached by no walk with fewer than d edges. */
  lemma NoShorterWalk<N>(step: N -> set<N>, start: set<N>, n: N, d: nat, p: seq<N>)
    requires AtDistance(step, start, n, d) && WalkTo(step, start, p, n)
    ensures d <= |p| - 1
  {
    if |p| - 1 < d {
      WalkIsWithin(step, start, p, n);
      WithinGrows(step, start, |p| - 1, d - 1);
    }
  }

  // -------- what a breadth-first walk keeps about its distance labels

  ghost predicate Exact<N>(step: N -> set<N>, start: set<N>, dist: map<N, nat>) {
    && (forall n {:trigger AtDistance(step, start, n, dist[n])} :: n in dist ==> AtDistance(step, start, n, dist[n]))
    && (forall n :: n in start ==> n in dist)
  }

  ghost predicate Expanded<N>(step: N -> set<N>, dist: map<N, nat>, n: N)
    requires n in dist
  {
    forall m :: m in step(n) ==> m in dist
  }

  /** If every labelled node nearer than k has been expanded, the labels cover Within(k). */
  lemma {:induction false} LayersComplete<N>(step: N -> set<N>, start: set<N>, dist: map<N, nat>, k: nat)
    requires Exact(step, start, dist)
    requires forall n :: n in dist && dist[n] < k ==> Expanded(step, dist, n)
    ensures Within(step, start, k) <= dist.Keys
  {
    if k > 0 {
      LayersComplete(step, start, dist, k - 1);
      forall m | m in Within(step, start, k)
        ensures m in dist
      {
        if m !in Within(step, start, k - 1) {
          var n :| n in Within(step, start, k - 1) && m in step(n);
          DistanceAtMost(step, start, n, dist[n], k - 1);
          assert Expanded(step, dist, n);
        }
      }
    }
  }

  lemma DistanceAtMost<N>(step: N -> set<N>, start: set<N>, n: N, d: nat, k: nat)
    requires AtDistance(step, start, n, d) && n in Within(step, start, k)
    ensures d <= k
  {
    if k < d {
      WithinGrows(step, start, k, d - 1);
    }
  }

  lemma ExactPush<N>(step: N -> set<N>, start: set<N>, dist: map<N, nat>, n: N, m: N)
    requires Exact(step, start, dist) && n in dist && m in step(n) && m !in dist
    requires Within(step, start, dist[n]) <= dist.Keys
    ensures Exact(step, start, dist[m := dist[n] + 1])
  {
    var dist' := dist[m := dist[n] + 1];
    assert AtDistance(step, start, n, dist[n]);
    NextLayer(step, start, n, dist[n], m);
    forall x | x in dist'
      ensures AtDistance(step, start, x, dist'[x])
    {
      assert x != m ==> AtDistance(step, start, x, dist[x]);
    }
  }

  /** One step from a node at distance d to a node outside Within(d) is distance d + 1. */
  lemma NextLayer<N>(step: N -> set<N>, start: set<N>, n: N, d: nat, m: N)
    requires AtDistance(step, start, n, d) && m in step(n) && m !in Within(step, start, d)
    ensures AtDistance(step, start, m, d + 1)
  {
    assert m in Within(step, start, d + 1);
  }
}
