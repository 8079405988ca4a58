/** Graded retrieval metrics (internal/eval/metrics.go), over the reals. The logarithm
    is a parameter: any positive, strictly increasing log2 will do. */
module Metrics {
  import opened Basics

  type Name = string

  /** log2(i) is positive and strictly increasing from 2 on. */
  ghost predicate Increasing(log2: nat -> real) {
    && (forall i: nat :: 2 <= i ==> log2(i) > 0.0)
    && (forall i: nat, j: nat :: 2 <= i < j ==> log2(i) < log2(j))
  }

  function Pow2(n: nat): (r: real)
    ensures r >= 1.0 && (n > 0 ==> r >= 2.0)
  {
    if n == 0 then 1.0 else 2.0 * Pow2(n - 1)
  }

  /** 2^grade - 1, also below zero. */
  function Gain(grade: int): real {
    if grade >= 0 then Pow2(grade) - 1.0 else 1.0 / Pow2(-grade) - 1.0
  }

  /** Nothing at grade 0, and one more than double with each grade: at every grade, 2^grade - 1. */
  lemma GainDoubles(grade: int)
    ensures Gain(0) == 0.0 && Gain(grade + 1) == 2.0 * Gain(grade) + 1.0
  {
    if grade < 0 {
      var p := Pow2(-(grade + 1));
      assert Pow2(-grade) == 2.0 * p;
      HalfOf(p);
    }
  }

  lemma HalfOf(p: real)
    requires p >= 1.0
    ensures 1.0 / p == 2.0 * (1.0 / (2.0 * p))
  {
    var h := 1.0 / (2.0 * p);
    assert h * (2.0 * p) == 1.0;
    assert (2.0 * h) * p == 1.0;
  }

  /** 2^n, by doubling. */
  function TwoTo(n: nat): nat {
    if n == 0 then 1 else TwoTo(n - 1) + TwoTo(n - 1)
  }

  lemma {:induction false} GainIsTwoTo(n: nat)
    ensures Gain(n) == TwoTo(n) as real - 1.0
  {
    if n > 0 {
      GainIsTwoTo(n - 1);
      GainDoubles(n - 1);
    }
  }

  lemma {:induction false} GainGrows(a: nat, b: nat)
    requires a < b
    ensures Gain(a) < Gain(b)
    decreases b
  {
    if a < b - 1 {
      GainGrows(a, b - 1);
    }
  }

  lemma GainOrder(a: nat, b: nat)
    ensures a <= b <==> Gain(a) <= Gain(b)
    ensures a == b <==> Gain(a) == Gain(b)
    ensures Gain(a) >= 0.0 && (Gain(a) == 0.0 <==> a == 0)
  {
    if a < b { GainGrows(a, b); }
    if b < a { GainGrows(b, a); }
    if a > 0 { GainGrows(0, a); }
  }

  // -------- specification: a discounted sum of a grade per rank

  /** Sum over i of gain(g[i]) / log2(from + i + 2). */
  ghost function Dcg(g: seq<int>, from: nat, log2: nat -> real): real
    requires Increasing(log2)
  {
    if g == [] then 0.0 else Gain(g[0]) / log2(from + 2) + Dcg(g[1..], from + 1, log2)
  }

  /** What rank i earns: the grade of a file the first time it is judged positive, else 0. */
  ghost function Earned(ranked: seq<Name>, grades: map<Name, int>, i: nat): int
    requires i < |ranked|
  {
    var f := ranked[i];
    if f in grades && grades[f] > 0 && f !in ranked[..i] then grades[f] else 0
  }

  ghost function EarnedGrades(ranked: seq<Name>, grades: map<Name, int>, k: nat): (g: seq<int>)
    requires k <= |ranked|
    ensures |g| == k && forall i :: 0 <= i < k ==> g[i] == Earned(ranked, grades, i)
  {
    seq(k, i requires 0 <= i < k => Earned(ranked, grades, i))
  }

  ghost predicate Descending(s: seq<int>) {
    forall i, j :: 0 <= i < j < |s| ==> s[i] >= s[j]
  }

  ghost function GradesOf(order: seq<Name>, grades: map<Name, int>): (g: seq<int>)
    requires forall f :: f in order ==> f in grades
    ensures |g| == |order| && forall i :: 0 <= i < |g| ==> g[i] == grades[order[i]]
  {
    seq(|order|, i requires 0 <= i < |order| => grades[order[i]])
  }

  /** The ideal ranking's grades: every judged file, best first. */
  ghost predicate IsIdeal(ideal: seq<int>, grades: map<Name, int>) {
    Descending(ideal) && exists order :: Enumerates(order, grades) && multiset(ideal) == multiset(GradesOf(order, grades))
  }

  function Min(a: int, b: int): int {
    if a < b then a else b
  }

  // -------- the ideal list is determined by the grades

  lemma HeadAndTail(a: seq<int>)
    requires a != [] && Descending(a)
    ensures Descending(a[1..]) && a[0] in multiset(a)
    ensures multiset(a[1..]) == multiset(a) - multiset{a[0]}
    ensures forall x :: x in multiset(a) ==> x <= a[0]
  {
    assert a == [a[0]] + a[1..];
    forall x | x in multiset(a)
      ensures x <= a[0]
    {
      assert x in a;
    }
  }

  lemma HeadsAgree(a: seq<int>, b: seq<int>)
    requires a != [] && b != [] && Descending(a) && Descending(b) && multiset(a) == multiset(b)
    ensures a[0] == b[0] && multiset(a[1..]) == multiset(b[1..])
    ensures Descending(a[1..]) && Descending(b[1..])
  {
    HeadAndTail(a);
    HeadAndTail(b);
    hide Descending;
    assert a[0] <= b[0] <= a[0];
  }

  lemma SameHeadAndTail(a: seq<int>, b: seq<int>)
    requires a != [] && b != [] && a[0] == b[0] && a[1..] == b[1..]
    ensures a == b
  {
    assert a == [a[0]] + a[1..] && b == [b[0]] + b[1..];
  }

  lemma {:induction false} DescendingUnique(a: seq<int>, b: seq<int>)
    requires Descending(a) && Descending(b) && multiset(a) == multiset(b)
    ensures a == b
    decreases |a|
  {
    hide Descending;
    assert |a| == |multiset(a)| == |b|;
    if a != [] {
      HeadsAgree(a, b);
      DescendingUnique(a[1..], b[1..]);
      SameHeadAndTail(a, b);
    }
  }

  /** Removing one element from a sequence. */
  ghost function Without<T>(s: seq<T>, i: nat): (r: seq<T>)
    requires i < |s|
    ensures |r| == |s| - 1
    ensures multiset(r) == multiset(s) - multiset{s[i]}
  {
    assert s == s[..i] + [s[i]] + s[i + 1..];
    s[..i] + s[i + 1..]
  }

  lemma WithoutKeeps<T>(s: seq<T>, i: nat)
    requires i < |s|
    ensures forall x :: x in s && x != s[i] ==> x in Without(s, i)
    ensures forall x :: x in Without(s, i) ==> x in s
  {
    forall x | x in s && x != s[i]
      ensures x in Without(s, i)
    {
      assert x in multiset(s);
      assert x in multiset(Without(s, i));
    }
    forall x | x in Without(s, i)
      ensures x in s
    {
      assert x in multiset(Without(s, i));
      assert x in multiset(s);
    }
  }

  /** The grades of distinct judged files are among the grades of any enumeration. */
  lemma {:induction false} SubImage(files: seq<Name>, order: seq<Name>, grades: map<Name, int>)
    requires forall f :: f in order ==> f in grades
    requires forall f :: f in files ==> f in order
    requires forall i, j :: 0 <= i < j < |files| ==> files[i] != files[j]
    ensures multiset(GradesOf(files, grades)) <= multiset(GradesOf(order, grades))
    decreases |files|
  {
    if files != [] {
      hide Without, GradesOf;
      assert files[0] in files;
      var p :| 0 <= p < |order| && order[p] == files[0];
      var rest := Without(order, p);
      WithoutKeeps(order, p);
      assert forall f :: f in files[1..] ==> f in files && f != files[0];
      GradesWithout(order, p, grades);
      GradesFirst(files, grades);
      SubImage(files[1..], rest, grades);
      OneMore(grades[files[0]], GradesOf(files[1..], grades), GradesOf(order, grades), p);
    }
  }

  lemma GradesWithout(order: seq<Name>, p: nat, grades: map<Name, int>)
    requires p < |order| && forall f :: f in order ==> f in grades
    ensures (forall f :: f in Without(order, p) ==> f in grades)
    ensures GradesOf(Without(order, p), grades) == Without(GradesOf(order, grades), p)
  {
    WithoutKeeps(order, p);
  }

  lemma GradesFirst(files: seq<Name>, grades: map<Name, int>)
    requires files != [] && forall f :: f in files ==> f in grades
    ensures forall f :: f in files[1..] ==> f in grades
    ensures GradesOf(files, grades) == [grades[files[0]]] + GradesOf(files[1..], grades)
  {}

  lemma OneMore(x: int, a: seq<int>, b: seq<int>, p: nat)
    requires p < |b| && b[p] == x && multiset(a) <= multiset(Without(b, p))
    ensures multiset([x] + a) <= multiset(b)
  {
    hide Without;
  }

  lemma EnumerationsAgree(a: seq<Name>, b: seq<Name>, grades: map<Name, int>)
    requires Enumerates(a, grades) && Enumerates(b, grades)
    ensures multiset(GradesOf(a, grades)) == multiset(GradesOf(b, grades))
  {
    SubImage(a, b, grades);
    SubImage(b, a, grades);
  }

  lemma IdealUnique(a: seq<int>, b: seq<int>, grades: map<Name, int>)
    requires IsIdeal(a, grades) && IsIdeal(b, grades)
    ensures a == b
  {
    var oa :| Enumerates(oa, grades) && multiset(a) == multiset(GradesOf(oa, grades));
    var ob :| Enumerates(ob, grades) && multiset(b) == multiset(GradesOf(ob, grades));
    EnumerationsAgree(oa, ob, grades);
    DescendingUnique(a, b);
  }

  // -------- no selection of files out-gains the top of the ideal list

  ghost function SumGain(g: seq<int>): real {
    if g == [] then 0.0 else Gain(g[0]) + SumGain(g[1..])
  }

  ghost predicate NonNegative(g: seq<int>) {
    forall i :: 0 <= i < |g| ==> g[i] >= 0
  }

  lemma {:induction false} SumWithout(g: seq<int>, i: nat)
    requires i < |g|
    ensures SumGain(g) == Gain(g[i]) + SumGain(Without(g, i))
    decreases i
  {
    hide Gain;
    if i == 0 {
      assert Without(g, 0) == g[1..];
    } else {
      WithoutTail(g, i);
      hide Without;
      SumWithout(g[1..], i - 1);
    }
  }

  lemma WithoutTail(g: seq<int>, i: nat)
    requires 0 < i < |g|
    ensures Without(g, i) != [] && Without(g, i)[0] == g[0] && Without(g, i)[1..] == Without(g[1..], i - 1)
  {
    assert g[..i][1..] == g[1..][..i - 1] && g[1..][i..] == g[i + 1..];
    var a, b := g[..i], g[i + 1..];
    assert (a + b)[1..] == a[1..] + b;
  }

  /** Where to take one element off `a` so that the rest fits under the tail of `s`. */
  lemma PickTop(a: seq<int>, s: seq<int>) returns (p: nat)
    requires a != [] && s != [] && Descending(s) && multiset(a) <= multiset(s)
    ensures p < |a| && a[p] in multiset(s) && a[p] <= s[0]
    ensures multiset(Without(a, p)) <= multiset(s[1..])
  {
    HeadAndTail(s);
    hide Descending;
    p := 0;
    if s[0] in a {
      p :| 0 <= p < |a| && a[p] == s[0];
    }
    assert a[p] in multiset(a);
  }

  lemma {:induction false} TopSum(a: seq<int>, s: seq<int>)
    requires Descending(s) && NonNegative(s) && multiset(a) <= multiset(s)
    ensures |a| <= |s| && SumGain(a) <= SumGain(s[..|a|])
    decreases |s|
  {
    SizeAtMost(a, s);
    assert a == [] ==> SumGain(a) <= SumGain(s[..|a|]);
    if a != [] {
      assert NonNegative(s[1..]);
      hide Descending, Gain, Without, SumGain;
      var p := PickTop(a, s);
      var rest := Without(a, p);
      assert a[p] in s;
      GainOrder(a[p], s[0]);
      HeadAndTail(s);
      TopSum(rest, s[1..]);
      SumWithout(a, p);
      SumOfPrefix(s, |a|);
    }
  }

  lemma SumOfPrefix(s: seq<int>, n: nat)
    requires 0 < n <= |s|
    ensures SumGain(s[..n]) == Gain(s[0]) + SumGain(s[1..][..n - 1])
  {
    hide Gain;
    assert s[..n][1..] == s[1..][..n - 1];
  }

  lemma SizeAtMost(a: seq<int>, s: seq<int>)
    requires multiset(a) <= multiset(s)
    ensures |a| <= |s|
  {
    assert multiset(s) == multiset(a) + (multiset(s) - multiset(a));
    assert |multiset(s)| == |multiset(a)| + |multiset(s) - multiset(a)|;
  }

  // -------- the method

  ghost predicate TopFirst(s: seq<int>, i: nat)
    requires i <= |s|
  {
    forall p, q :: 0 <= p < i && p < q < |s| ==> s[p] >= s[q]
  }

  /** The inner loop of the sort: afterwards rank i holds the best of the rest. */
  method BringBest(a: array<int>, i: nat)
    requires i < a.Length && TopFirst(a[..], i)
    modifies a
    ensures TopFirst(a[..], i + 1) && multiset(a[..]) == multiset(old(a[..]))
  {
    hide TopFirst;
    for j := i + 1 to a.Length
      invariant TopFirst(a[..], i) && BestUpTo(a[..], i, j)
      invariant multiset(a[..]) == multiset(old(a[..]))
    {
      if a[j] > a[i] {
        ghost var s := a[..];
        a[i], a[j] := a[j], a[i];
        assert a[..] == s[i := s[j]][j := s[i]];
        SwapKeepsTop(s, i, j);
      }
    }
    TopGrows(a[..], i);
  }

  ghost predicate BestUpTo(s: seq<int>, i: nat, j: nat)
    requires i < j <= |s|
  {
    forall q :: i < q < j ==> s[i] >= s[q]
  }

  lemma TopGrows(s: seq<int>, i: nat)
    requires i < |s| && TopFirst(s, i) && BestUpTo(s, i, |s|)
    ensures TopFirst(s, i + 1)
  {}

  lemma SwapKeepsTop(s: seq<int>, i: nat, j: nat)
    requires i < j < |s| && TopFirst(s, i) && BestUpTo(s, i, j) && s[j] > s[i]
    ensures BestUpTo(s[i := s[j]][j := s[i]], i, j + 1)
    ensures TopFirst(s[i := s[j]][j := s[i]], i) && multiset(s[i := s[j]][j := s[i]]) == multiset(s)
  {}

  method SortDescending(a: array<int>)
    modifies a
    ensures Descending(a[..]) && multiset(a[..]) == multiset(old(a[..]))
  {
    for i := 0 to a.Length
      invariant TopFirst(a[..], i) && multiset(a[..]) == multiset(old(a[..]))
    {
      BringBest(a, i);
    }
  }

  // -------- discounting: prefix sums decide (summation by parts)

  lemma DivideOrder(c: real, a: real, b: real)
    requires c >= 0.0 && 0.0 < a < b
    ensures c / a >= c / b && (c > 0.0 ==> c / a > c / b) && c / b >= 0.0
  {
    var x, y := c / a, c / b;
    assert x * a == c && y * b == c;
    assert y >= 0.0 && (c > 0.0 ==> y > 0.0);
    assert (x - y) * a == y * (b - a);
    assert y * (b - a) >= 0.0 && (y > 0.0 ==> y * (b - a) > 0.0);
  }

  lemma DivideSum(x: real, y: real, w: real)
    requires w > 0.0
    ensures (x + y) / w == x / w + y / w && (x - y) / w == x / w - y / w
  {}

  /** How far t's prefix gain is ahead of g's, starting c ahead. */
  ghost function Lead(c: real, g: seq<int>, t: seq<int>, m: nat): real
    requires m <= |g| && m <= |t|
  {
    c + SumGain(t[..m]) - SumGain(g[..m])
  }

  lemma {:induction false} Abel(g: seq<int>, t: seq<int>, from: nat, c: real, log2: nat -> real)
    requires Increasing(log2) && |g| == |t|
    requires forall m: nat :: m <= |g| ==> Lead(c, g, t, m) >= 0.0
    ensures c / log2(from + 2) + Dcg(t, from, log2) - Dcg(g, from, log2) >= 0.0
    ensures c / log2(from + 2) + Dcg(t, from, log2) - Dcg(g, from, log2) == 0.0 ==>
      forall m: nat :: 1 <= m <= |g| ==> Lead(c, g, t, m) == 0.0
    decreases |g|
  {
    hide Gain, Increasing;
    assert log2(from + 2) > 0.0 && log2(from + 2) < log2(from + 3) by { LogFacts(from, log2); }
    var w0, w1 := log2(from + 2), log2(from + 3);
    assert t[..0] == g[..0] == [];
    assert Lead(c, g, t, 0) == c >= 0.0;
    DivideOrder(c, w0, w1);
    if g != [] {
      var c1 := c + Gain(t[0]) - Gain(g[0]);
      forall m: nat | m <= |g| - 1
        ensures Lead(c1, g[1..], t[1..], m) == Lead(c, g, t, m + 1)
      {
        assert t[..m + 1][1..] == t[1..][..m] && g[..m + 1][1..] == g[1..][..m];
      }
      Abel(g[1..], t[1..], from + 1, c1, log2);
      assert t[1..][..0] == g[1..][..0] == [];
      assert Lead(c1, g[1..], t[1..], 0) == c1 >= 0.0;
      DivideOrder(c1, w0, w1);
      DivideSum(c, Gain(t[0]), w0);
      DivideSum(c + Gain(t[0]), Gain(g[0]), w0);
      if c / w0 + Dcg(t, from, log2) - Dcg(g, from, log2) == 0.0 {
        forall m: nat | 1 <= m <= |g|
          ensures Lead(c, g, t, m) == 0.0
        {
          assert Lead(c1, g[1..], t[1..], m - 1) == Lead(c, g, t, m - 1 + 1);
          assert m == 1 ==> c1 == 0.0;
        }
      }
    }
  }

  lemma LogFacts(from: nat, log2: nat -> real)
    requires Increasing(log2)
    ensures 0.0 < log2(from + 2) < log2(from + 3)
  {}

  // -------- the bound: DCG never exceeds IDCG

  /** The ideal grades of the first k ranks, zero where no judged file is left. */
  ghost function TopK(ideal: seq<int>, k: nat): (t: seq<int>)
    ensures |t| == k && forall i :: 0 <= i < k ==> t[i] == if i < |ideal| then ideal[i] else 0
  {
    seq(k, i requires 0 <= i < k => if i < |ideal| then ideal[i] else 0)
  }

  lemma {:induction false} PaddingIsFree(ideal: seq<int>, k: nat, from: nat, log2: nat -> real)
    requires Increasing(log2)
    ensures Dcg(TopK(ideal, k), from, log2) == Dcg(ideal[..Min(k, |ideal|)], from, log2)
    ensures SumGain(TopK(ideal, k)) == SumGain(ideal[..Min(k, |ideal|)])
    decreases k
  {
    if k > 0 {
      var rest := if ideal == [] then [] else ideal[1..];
      assert TopK(ideal, k)[1..] == TopK(rest, k - 1);
      PaddingIsFree(rest, k - 1, from + 1, log2);
      LogFacts(from, log2);
      if ideal != [] {
        assert ideal[..Min(k, |ideal|)][1..] == rest[..Min(k - 1, |rest|)];
      } else {
        assert ideal[..0] == rest[..0];
        assert Gain(0) / log2(from + 2) == 0.0;
      }
    }
  }

  lemma {:induction false} SumSnoc(g: seq<int>, x: int)
    ensures SumGain(g + [x]) == SumGain(g) + Gain(x)
    decreases |g|
  {
    hide Gain;
    if g == [] {
      assert g + [x] == [x];
    } else {
      SumSnoc(g[1..], x);
      assert (g + [x])[1..] == g[1..] + [x];
    }
  }

  lemma {:induction false} SumGrows(s: seq<int>, i: nat, j: nat)
    requires i <= j <= |s| && NonNegative(s)
    ensures SumGain(s[..i]) <= SumGain(s[..j])
    decreases j
  {
    if i < j {
      SumGrows(s, i, j - 1);
      SumSnoc(s[..j - 1], s[j - 1]);
      assert s[..j] == s[..j - 1] + [s[j - 1]];
      GainOrder(0, s[j - 1]);
    }
  }

  /** The judged files credited in the first m ranks, each once. */
  ghost function Hits(ranked: seq<Name>, grades: map<Name, int>, m: nat): (h: seq<Name>)
    requires m <= |ranked|
    ensures |h| <= m && forall f :: f in h ==> f in grades && f in ranked[..m]
    ensures forall i, j :: 0 <= i < j < |h| ==> h[i] != h[j]
  {
    if m == 0 then []
    else
      assert ranked[..m] == ranked[..m - 1] + [ranked[m - 1]];
      Hits(ranked, grades, m - 1) + if Earned(ranked, grades, m - 1) > 0 then [ranked[m - 1]] else []
  }

  lemma GradesLast(files: seq<Name>, f: Name, grades: map<Name, int>)
    requires f in grades && forall g :: g in files ==> g in grades
    ensures forall g :: g in files + [f] ==> g in grades
    ensures GradesOf(files + [f], grades) == GradesOf(files, grades) + [grades[f]]
  {}

  /** One rank further: an unjudged or repeated file earns nothing, any other one its grade. */
  lemma HitsStep(ranked: seq<Name>, grades: map<Name, int>, m: nat)
    requires 0 < m <= |ranked|
    ensures
      var x, h := Earned(ranked, grades, m - 1), Hits(ranked, grades, m - 1);
      && x >= 0 && (x > 0 ==> ranked[m - 1] in grades && x == grades[ranked[m - 1]])
      && Hits(ranked, grades, m) == if x > 0 then h + [ranked[m - 1]] else h
  {}

  lemma EarnedSnoc(ranked: seq<Name>, grades: map<Name, int>, m: nat)
    requires 0 < m <= |ranked|
    ensures EarnedGrades(ranked, grades, m) == EarnedGrades(ranked, grades, m - 1) + [Earned(ranked, grades, m - 1)]
  {
    hide Earned;
  }

  lemma HitGrades(ranked: seq<Name>, grades: map<Name, int>, m: nat)
    requires 0 < m <= |ranked|
    ensures
      var x, g := Earned(ranked, grades, m - 1), GradesOf(Hits(ranked, grades, m - 1), grades);
      x >= 0 && GradesOf(Hits(ranked, grades, m), grades) == if x > 0 then g + [x] else g
  {
    hide Hits, Earned, GradesOf;
    HitsStep(ranked, grades, m);
    if Earned(ranked, grades, m - 1) > 0 {
      GradesLast(Hits(ranked, grades, m - 1), ranked[m - 1], grades);
    }
  }

  lemma SameSums(e: seq<int>, g: seq<int>, x: int)
    requires SumGain(e) == SumGain(g) && x >= 0
    ensures SumGain(e + [x]) == SumGain(if x > 0 then g + [x] else g)
  {
    assert Gain(0) == 0.0;
    hide Gain, SumGain;
    SumSnoc(e, x);
    SumSnoc(g, x);
  }

  lemma {:induction false} EarnedIsHits(ranked: seq<Name>, grades: map<Name, int>, m: nat)
    requires m <= |ranked|
    ensures SumGain(EarnedGrades(ranked, grades, m)) == SumGain(GradesOf(Hits(ranked, grades, m), grades))
  {
    hide *;
    if m == 0 {
      assert EarnedGrades(ranked, grades, 0) == [] && GradesOf(Hits(ranked, grades, 0), grades) == [];
    } else {
      HitGrades(ranked, grades, m);
      EarnedSnoc(ranked, grades, m);
      EarnedIsHits(ranked, grades, m - 1);
      SameSums(EarnedGrades(ranked, grades, m - 1), GradesOf(Hits(ranked, grades, m - 1), grades), Earned(ranked, grades, m - 1));
    }
  }

  ghost predicate Judged(grades: map<Name, int>) {
    forall f :: f in grades ==> grades[f] >= 0
  }

  lemma IdealNonNegative(ideal: seq<int>, grades: map<Name, int>)
    requires IsIdeal(ideal, grades) && Judged(grades)
    ensures NonNegative(ideal)
  {
    var order :| Enumerates(order, grades) && multiset(ideal) == multiset(GradesOf(order, grades));
    forall i | 0 <= i < |ideal|
      ensures ideal[i] >= 0
    {
      assert ideal[i] in multiset(ideal);
      assert ideal[i] in GradesOf(order, grades);
    }
  }

  /** Over every prefix, credited files gain no more than the ideal list's best. */
  lemma PrefixDominated(ranked: seq<Name>, grades: map<Name, int>, m: nat, ideal: seq<int>)
    requires m <= |ranked| && IsIdeal(ideal, grades) && Judged(grades)
    ensures SumGain(EarnedGrades(ranked, grades, m)) <= SumGain(ideal[..Min(m, |ideal|)])
  {
    var order :| Enumerates(order, grades) && multiset(ideal) == multiset(GradesOf(order, grades));
    var h := Hits(ranked, grades, m);
    EarnedIsHits(ranked, grades, m);
    SubImage(h, order, grades);
    IdealNonNegative(ideal, grades);
    TopSum(GradesOf(h, grades), ideal);
    SumGrows(ideal, |h|, Min(m, |ideal|));
  }

  lemma PrefixSumsDecide(g: seq<int>, t: seq<int>)
    requires |g| == |t| && NonNegative(g) && NonNegative(t)
    requires forall m: nat :: m <= |g| ==> SumGain(g[..m]) == SumGain(t[..m])
    ensures g == t
  {
    forall i | 0 <= i < |g|
      ensures g[i] == t[i]
    {
      assert g[..i + 1] == g[..i] + [g[i]] && t[..i + 1] == t[..i] + [t[i]];
      SumSnoc(g[..i], g[i]);
      SumSnoc(t[..i], t[i]);
      GainOrder(g[i], t[i]);
    }
  }

  /** DCG is at most IDCG, with equality exactly when the credited grades are the ideal ones rank by rank. */
  lemma DcgBound(ranked: seq<Name>, grades: map<Name, int>, k: nat, ideal: seq<int>, log2: nat -> real)
    requires Increasing(log2) && k <= |ranked| && Judged(grades) && IsIdeal(ideal, grades)
    ensures
      var dcg, idcg := Dcg(EarnedGrades(ranked, grades, k), 0, log2), Dcg(ideal[..Min(k, |ideal|)], 0, log2);
      0.0 <= dcg <= idcg && (dcg == idcg <==> EarnedGrades(ranked, grades, k) == TopK(ideal, k))
  {
    hide Gain;
    var g, t := EarnedGrades(ranked, grades, k), TopK(ideal, k);
    PaddingIsFree(ideal, k, 0, log2);
    IdealNonNegative(ideal, grades);
    forall m: nat | m <= k
      ensures Lead(0.0, g, t, m) >= 0.0
    {
      PrefixDominated(ranked, grades, m, ideal);
      PaddingIsFree(ideal, m, 0, log2);
      assert g[..m] == EarnedGrades(ranked, grades, m) && t[..m] == TopK(ideal, m);
    }
    LogFacts(0, log2);
    Abel(g, t, 0, 0.0, log2);
    assert 0.0 / log2(2) == 0.0;
    if Dcg(g, 0, log2) == Dcg(t, 0, log2) {
      forall m: nat | m <= k
        ensures SumGain(g[..m]) == SumGain(t[..m])
      {
        if m == 0 { assert g[..0] == t[..0]; } else { assert Lead(0.0, g, t, m) == 0.0; }
      }
      PrefixSumsDecide(g, t);
    }
    DcgNonNegative(g, 0, log2);
  }

  lemma {:induction false} DcgNonNegative(g: seq<int>, from: nat, log2: nat -> real)
    requires Increasing(log2) && NonNegative(g)
    ensures Dcg(g, from, log2) >= 0.0
    decreases |g|
  {
    if g != [] {
      GainOrder(0, g[0]);
      LogFacts(from, log2);
      DivideOrder(Gain(g[0]), log2(from + 2), log2(from + 3));
      DcgNonNegative(g[1..], from + 1, log2);
    }
  }

  // -------- NDCG

  /** The score an ideal list implies. */
  ghost function Score(ranked: seq<Name>, grades: map<Name, int>, k: int, ideal: seq<int>, log2: nat -> real): real
    requires Increasing(log2)
  {
    if k <= 0 || grades == map[] then 0.0
    else
      var n := Min(k, |ranked|);
      var idcg := Dcg(ideal[..Min(n, |ideal|)], 0, log2);
      if idcg == 0.0 then 0.0 else Dcg(EarnedGrades(ranked, grades, n), 0, log2) / idcg
  }

  lemma {:induction false} DcgSnoc(g: seq<int>, x: int, from: nat, log2: nat -> real)
    requires Increasing(log2)
    ensures Dcg(g + [x], from, log2) == Dcg(g, from, log2) + Gain(x) / log2(from + |g| + 2)
    decreases |g|
  {
    hide Gain;
    if g == [] {
      assert g + [x] == [x];
    } else {
      DcgSnoc(g[1..], x, from + 1, log2);
      assert (g + [x])[1..] == g[1..] + [x];
    }
  }

  // -------- the sum, term by term

  /** Rank i adds (2^g[i] - 1) / log2(i + 2), here with the quotient multiplied out. */
  ghost predicate AreTerms(t: seq<real>, g: seq<int>, log2: nat -> real) {
    |t| == |g| && forall i :: 0 <= i < |g| ==> g[i] >= 0 && t[i] * log2(i + 2) == TwoTo(g[i]) as real - 1.0
  }

  ghost function Total(t: seq<real>): real {
    if t == [] then 0.0 else Total(t[..|t| - 1]) + t[|t| - 1]
  }

  ghost predicate IsDiscounted(sum: real, g: seq<int>, log2: nat -> real) {
    exists t :: AreTerms(t, g, log2) && Total(t) == sum
  }

  lemma QuotientBack(n: real, d: real)
    requires d > 0.0
    ensures n / d * d == n
  {}

  lemma {:induction false} DcgIsDiscounted(g: seq<int>, log2: nat -> real)
    requires Increasing(log2) && forall i :: 0 <= i < |g| ==> g[i] >= 0
    ensures IsDiscounted(Dcg(g, 0, log2), g, log2)
    decreases |g|
  {
    hide AreTerms, Total, Increasing, Gain;
    if g == [] {
      EmptyDcg(log2);
      NoTerms(log2);
    } else {
      var n := |g| - 1;
      var front, x := g[..n], g[n];
      DcgIsDiscounted(front, log2);
      var t :| AreTerms(t, front, log2) && Total(t) == Dcg(front, 0, log2);
      DcgSnoc(front, x, 0, log2);
      assert g == front + [x];
      OneMoreTerm(t, front, x, log2);
    }
  }

  lemma NoTerms(log2: nat -> real)
    ensures AreTerms([], [], log2) && Total([]) == 0.0
  {}

  lemma OneMoreTerm(t: seq<real>, g: seq<int>, x: nat, log2: nat -> real)
    requires Increasing(log2) && AreTerms(t, g, log2)
    ensures log2(0 + |g| + 2) > 0.0
    ensures AreTerms(t + [Gain(x) / log2(0 + |g| + 2)], g + [x], log2)
    ensures Total(t + [Gain(x) / log2(0 + |g| + 2)]) == Total(t) + Gain(x) / log2(0 + |g| + 2)
  {
    LogFacts(|g|, log2);
    GainIsTwoTo(x);
    QuotientBack(Gain(x), log2(|g| + 2));
    hide Gain, TwoTo, Increasing;
    var more := t + [Gain(x) / log2(|g| + 2)];
    assert more[..|g|] == t;
  }

  /** The score is what the ranking's credited grades earn over what the best grades earn. */
  lemma ScoreIsFormula(ranked: seq<Name>, grades: map<Name, int>, k: int, ideal: seq<int>, log2: nat -> real)
    requires Increasing(log2) && Judged(grades) && k > 0 && IsIdeal(ideal, grades)
    ensures
      var n := Min(k, |ranked|);
      exists earned: real, best: real ::
        && IsDiscounted(earned, EarnedGrades(ranked, grades, n), log2)
        && IsDiscounted(best, ideal[..Min(n, |ideal|)], log2)
        && Score(ranked, grades, k, ideal, log2) * best == earned
  {
    var n := Min(k, |ranked|);
    var g, top := EarnedGrades(ranked, grades, n), ideal[..Min(n, |ideal|)];
    IdealNonNegative(ideal, grades);
    DcgIsDiscounted(g, log2);
    DcgIsDiscounted(top, log2);
    DcgBound(ranked, grades, n, ideal, log2);
    hide Dcg, IsDiscounted, IsIdeal, EarnedGrades, Increasing;
    if grades == map[] {
      NoIdeal(ideal);
      EmptyDcg(log2);
    } else {
      ScoreBack(ranked, grades, k, ideal, log2);
    }
  }

  lemma ScoreBack(ranked: seq<Name>, grades: map<Name, int>, k: int, ideal: seq<int>, log2: nat -> real)
    requires Increasing(log2) && k > 0 && grades != map[]
    requires
      var n := Min(k, |ranked|);
      0.0 <= Dcg(EarnedGrades(ranked, grades, n), 0, log2) <= Dcg(ideal[..Min(n, |ideal|)], 0, log2)
    ensures
      var n := Min(k, |ranked|);
      Score(ranked, grades, k, ideal, log2) * Dcg(ideal[..Min(n, |ideal|)], 0, log2) == Dcg(EarnedGrades(ranked, grades, n), 0, log2)
  {
    hide Dcg, EarnedGrades, Increasing;
    var n := Min(k, |ranked|);
    var earned, best := Dcg(EarnedGrades(ranked, grades, n), 0, log2), Dcg(ideal[..Min(n, |ideal|)], 0, log2);
    if best != 0.0 { QuotientBack(earned, best); }
  }

  lemma NoIdeal(ideal: seq<int>)
    requires IsIdeal(ideal, map[])
    ensures ideal == []
  {
    var none: map<Name, int> := map[];
    var order :| Enumerates(order, none) && multiset(ideal) == multiset(GradesOf(order, none));
    assert forall f :: f !in order;
    assert |multiset(ideal)| == |multiset(GradesOf(order, none))|;
  }

  /** Grades 3 and 1 ranked the wrong way round, at cutoff 2. */
  lemma WrongWayRound(a: Name, b: Name, log2: nat -> real)
    requires Increasing(log2) && a != b
    ensures
      Score([b, a], map[a := 3, b := 1], 2, [3, 1], log2) * (7.0 / log2(2) + 1.0 / log2(3)) == 1.0 / log2(2) + 7.0 / log2(3)
  {
    var ranked, grades, ideal := [b, a], map[a := 3, b := 1], [3, 1];
    assert EarnedGrades(ranked, grades, 2) == [1, 3];
    assert ideal[..2] == ideal;
    LogFacts(0, log2);
    LogFacts(1, log2);
    TwoGrades(1, 3, log2);
    TwoGrades(3, 1, log2);
    assert grades[a] == 3;
    var earned, best := Dcg([1, 3], 0, log2), Dcg(ideal, 0, log2);
    hide Dcg, EarnedGrades, Increasing;
    QuotientBack(earned, best);
  }

  lemma TwoGrades(x: int, y: int, log2: nat -> real)
    requires Increasing(log2) && {x, y} == {1, 3}
    ensures Dcg([x, y], 0, log2) == Gain(x) / log2(2) + Gain(y) / log2(3)
    ensures Gain(1) == 1.0 && Gain(3) == 7.0
    ensures Dcg([x, y], 0, log2) > 0.0
  {
    GainDoubles(0);
    GainDoubles(1);
    GainDoubles(2);
    DcgSnoc([x], y, 0, log2);
    DcgSnoc([], x, 0, log2);
    LogFacts(0, log2);
    LogFacts(1, log2);
    assert [x] + [y] == [x, y] && [] + [x] == [x];
  }

  method DiscountedGain(ranked: seq<Name>, grades: map<Name, int>, k: nat, log2: nat -> real) returns (dcg: real)
    requires Increasing(log2) && k <= |ranked|
    ensures dcg == Dcg(EarnedGrades(ranked, grades, k), 0, log2)
    ensures IsDiscounted(dcg, EarnedGrades(ranked, grades, k), log2)
  {
    hide Gain, Dcg, IsDiscounted;
    dcg := 0.0;
    var seen := {};
    assert Dcg([], 0, log2) == 0.0 by { EmptyDcg(log2); }
    for i := 0 to k
      invariant seen == set f | f in ranked[..i] && f in grades && grades[f] > 0
      invariant dcg == Dcg(EarnedGrades(ranked, grades, i), 0, log2)
    {
      assert EarnedGrades(ranked, grades, i + 1) == EarnedGrades(ranked, grades, i) + [Earned(ranked, grades, i)];
      DcgSnoc(EarnedGrades(ranked, grades, i), Earned(ranked, grades, i), 0, log2);
      ZeroGain(i, log2);
      assert ranked[..i + 1] == ranked[..i] + [ranked[i]];
      if ranked[i] in seen { continue; }
      var grade := if ranked[i] in grades then grades[ranked[i]] else 0;
      if grade > 0 {
        dcg := dcg + Gain(grade) / log2(i + 2);
        seen := seen + {ranked[i]};
      }
    }
    DcgIsDiscounted(EarnedGrades(ranked, grades, k), log2);
  }

  lemma EmptyDcg(log2: nat -> real)
    requires Increasing(log2)
    ensures Dcg([], 0, log2) == 0.0
  {}

  lemma ZeroGain(i: nat, log2: nat -> real)
    requires Increasing(log2)
    ensures log2(i + 2) > 0.0 && Gain(0) / log2(i + 2) == 0.0
  {
    LogFacts(i, log2);
  }

  method IdealGrades(grades: map<Name, int>) returns (ideal: seq<int>)
    ensures IsIdeal(ideal, grades)
  {
    var todo := grades.Keys;
    var values := [];
    ghost var order := [];
    while todo != {}
      invariant todo <= grades.Keys
      invariant forall f :: f in order <==> f in grades.Keys - todo
      invariant forall i, j :: 0 <= i < j < |order| ==> order[i] != order[j]
      invariant values == GradesOf(order, grades)
      decreases |todo|
    {
      var f :| f in todo;
      assert f !in order;
      todo := todo - {f};
      values := values + [grades[f]];
      order := order + [f];
    }
    var a := new int[|values|](i requires 0 <= i < |values| => values[i]);
    assert a[..] == values;
    SortDescending(a);
    assert Enumerates(order, grades);
    ideal := a[..];
  }

  /** The credited grades of the first n ranks are the ideal ones, rank by rank, and some is positive. */
  ghost predicate Perfect(ranked: seq<Name>, grades: map<Name, int>, n: nat, ideal: seq<int>)
    requires n <= |ranked|
  {
    && IsIdeal(ideal, grades)
    && EarnedGrades(ranked, grades, n) == TopK(ideal, n)
    && exists i :: 0 <= i < n && TopK(ideal, n)[i] > 0
  }

  lemma {:induction false} DcgPositive(g: seq<int>, from: nat, log2: nat -> real)
    requires Increasing(log2) && NonNegative(g)
    ensures Dcg(g, from, log2) > 0.0 <==> exists i :: 0 <= i < |g| && g[i] > 0
    decreases |g|
  {
    DcgNonNegative(g, from, log2);
    if g != [] {
      GainOrder(0, g[0]);
      LogFacts(from, log2);
      DivideOrder(Gain(g[0]), log2(from + 2), log2(from + 3));
      DcgNonNegative(g[1..], from + 1, log2);
      DcgPositive(g[1..], from + 1, log2);
      hide Gain;
      if i :| 0 <= i < |g| && g[i] > 0 && g[0] == 0 {
        assert g[1..][i - 1] > 0;
      }
      if i :| 0 <= i < |g[1..]| && g[1..][i] > 0 {
        assert g[i + 1] > 0;
      }
    }
  }

  lemma ScoreBounds(ranked: seq<Name>, grades: map<Name, int>, k: int, ideal: seq<int>, log2: nat -> real)
    requires Increasing(log2) && Judged(grades) && IsIdeal(ideal, grades)
    ensures 0.0 <= Score(ranked, grades, k, ideal, log2) <= 1.0
    ensures Score(ranked, grades, k, ideal, log2) == 1.0 <==>
      k > 0 && grades != map[] && Perfect(ranked, grades, Min(k, |ranked|), ideal)
  {
    hide Dcg, IsIdeal, EarnedGrades;
    if k > 0 && grades != map[] {
      var n := Min(k, |ranked|);
      DcgBound(ranked, grades, n, ideal, log2);
      PaddingIsFree(ideal, n, 0, log2);
      IdealNonNegative(ideal, grades);
      DcgPositive(TopK(ideal, n), 0, log2);
      var dcg, idcg := Dcg(EarnedGrades(ranked, grades, n), 0, log2), Dcg(ideal[..Min(n, |ideal|)], 0, log2);
      if idcg > 0.0 { Ratio(dcg, idcg); }
    }
  }

  ghost function ToSeq(s: set<Name>): (r: seq<Name>)
    ensures forall f :: f in r <==> f in s
    ensures forall i, j :: 0 <= i < j < |r| ==> r[i] != r[j]
  {
    if s == {} then [] else
      var f :| f in s;
      [f] + ToSeq(s - {f})
  }

  /** Listing the p positively graded files first, best grades first, earns the full score. */
  lemma BestFirstIsPerfect(ranked: seq<Name>, grades: map<Name, int>, p: nat, k: nat, log2: nat -> real)
    requires Increasing(log2) && Judged(grades) && 0 < p <= |ranked| && 0 < k
    requires forall i, j :: 0 <= i < j < p ==> ranked[i] != ranked[j]
    requires forall f :: f in ranked[..p] <==> f in grades && grades[f] > 0
    requires forall i, j :: 0 <= i < j < p ==> grades[ranked[i]] >= grades[ranked[j]]
    ensures exists ideal :: Perfect(ranked, grades, Min(k, |ranked|), ideal) && Score(ranked, grades, k, ideal, log2) == 1.0
  {
    var n := Min(k, |ranked|);
    var ideal := BestFirstIdeal(ranked, grades, p);
    BestFirstEarns(ranked, grades, p, |ranked|);
    hide IsIdeal;
    assert EarnedGrades(ranked, grades, n) == TopK(ideal, n);
    assert ranked[..p][0] in ranked[..p];
    assert TopK(ideal, n)[0] > 0;
    ScoreBounds(ranked, grades, k, ideal, log2);
  }

  lemma BestFirstIdeal(ranked: seq<Name>, grades: map<Name, int>, p: nat) returns (ideal: seq<int>)
    requires Judged(grades) && p <= |ranked|
    requires forall i, j :: 0 <= i < j < p ==> ranked[i] != ranked[j]
    requires forall f :: f in ranked[..p] <==> f in grades && grades[f] > 0
    requires forall i, j :: 0 <= i < j < p ==> grades[ranked[i]] >= grades[ranked[j]]
    ensures IsIdeal(ideal, grades) && |ideal| >= p
    ensures forall i :: 0 <= i < |ideal| ==> ideal[i] == if i < p then (assert ranked[..p][i] in ranked[..p]; grades[ranked[i]]) else 0
  {
    var best, rest := ranked[..p], ToSeq(set f | f in grades && grades[f] == 0);
    Joined(best, rest);
    var order := best + rest;
    assert forall i :: 0 <= i < p ==> ranked[i] == best[i] && best[i] in best;
    assert Enumerates(order, grades);
    ideal := GradesOf(order, grades);
    forall i | 0 <= i < |ideal|
      ensures i < p ==> ideal[i] == grades[ranked[i]]
      ensures i >= p ==> ideal[i] == 0
    {
      assert i >= p ==> order[i] == rest[i - p] && rest[i - p] in rest;
    }
  }

  lemma Joined(a: seq<Name>, b: seq<Name>)
    requires forall i, j :: 0 <= i < j < |a| ==> a[i] != a[j]
    requires forall i, j :: 0 <= i < j < |b| ==> b[i] != b[j]
    requires forall f :: f in a ==> f !in b
    ensures forall i, j :: 0 <= i < j < |a + b| ==> (a + b)[i] != (a + b)[j]
  {
    forall i, j | 0 <= i < j < |a + b|
      ensures (a + b)[i] != (a + b)[j]
    {
      if i < |a| <= j { assert a[i] in a && b[j - |a|] in b; }
    }
  }

  lemma BestFirstEarns(ranked: seq<Name>, grades: map<Name, int>, p: nat, n: nat)
    requires p <= n <= |ranked|
    requires forall i, j :: 0 <= i < j < p ==> ranked[i] != ranked[j]
    requires forall f :: f in ranked[..p] <==> f in grades && grades[f] > 0
    ensures forall i :: 0 <= i < n ==>
      Earned(ranked, grades, i) == if i < p then (assert ranked[..p][i] in ranked[..p]; grades[ranked[i]]) else 0
  {
    forall i | 0 <= i < n
      ensures i < p ==> ranked[i] in grades && Earned(ranked, grades, i) == grades[ranked[i]]
      ensures i >= p ==> Earned(ranked, grades, i) == 0
    {
      if i < p {
        assert ranked[..p][i] in ranked[..p];
      } else if ranked[i] in ranked[..p] {
        var j :| 0 <= j < p && ranked[..p][j] == ranked[i];
        assert ranked[..i][j] == ranked[i];
      }
    }
  }

  lemma Ratio(x: real, y: real)
    requires 0.0 <= x <= y && y > 0.0
    ensures 0.0 <= x / y <= 1.0 && (x / y == 1.0 <==> x == y)
  {
    var r := x / y;
    assert r * y == x;
  }

  method IdealGain(top: seq<int>, log2: nat -> real) returns (idcg: real)
    requires Increasing(log2)
    ensures idcg == Dcg(top, 0, log2)
    ensures (forall i :: 0 <= i < |top| ==> top[i] >= 0) ==> IsDiscounted(idcg, top, log2)
  {
    hide Gain, Dcg, IsDiscounted;
    EmptyDcg(log2);
    idcg := 0.0;
    for i := 0 to |top|
      invariant idcg == Dcg(top[..i], 0, log2)
    {
      assert top[..i + 1] == top[..i] + [top[i]];
      DcgSnoc(top[..i], top[i], 0, log2);
      LogFacts(i, log2);
      idcg := idcg + Gain(top[i]) / log2(i + 2);
    }
    assert top[..|top|] == top;
    if forall i :: 0 <= i < |top| ==> top[i] >= 0 { DcgIsDiscounted(top, log2); }
  }

  method NDCG(ranked: seq<Name>, grades: map<Name, int>, k: int, log2: nat -> real) returns (score: real)
    requires Increasing(log2)
    ensures forall ideal :: IsIdeal(ideal, grades) ==> score == Score(ranked, grades, k, ideal, log2)
    ensures Judged(grades) ==> 0.0 <= score <= 1.0
    ensures Judged(grades) && k > 0 ==>
      (score == 1.0 <==> exists ideal :: Perfect(ranked, grades, Min(k, |ranked|), ideal))
  {
    hide Dcg, IsIdeal, EarnedGrades, Increasing;
    var ideal := IdealGrades(grades);
    if k <= 0 || grades == map[] {
      NothingJudged(ranked, grades, k);
      return 0.0;
    }
    var n := if k > |ranked| then |ranked| else k;
    var dcg := DiscountedGain(ranked, grades, n, log2);
    var top := if |ideal| > n then ideal[..n] else ideal;
    assert top == ideal[..Min(n, |ideal|)];
    var idcg := IdealGain(top, log2);
    score := if idcg == 0.0 then 0.0 else dcg / idcg;
    forall other | IsIdeal(other, grades)
      ensures other == ideal
    {
      IdealUnique(ideal, other, grades);
    }
    if Judged(grades) { ScoreBounds(ranked, grades, k, ideal, log2); }
  }

  lemma NothingJudged(ranked: seq<Name>, grades: map<Name, int>, k: int)
    requires k <= 0 || grades == map[]
    ensures k > 0 ==> forall ideal :: !Perfect(ranked, grades, Min(k, |ranked|), ideal)
  {
    forall ideal | k > 0 && IsIdeal(ideal, grades)
      ensures ideal == []
    {
      var order :| Enumerates(order, grades) && multiset(ideal) == multiset(GradesOf(order, grades));
      EnumerationsAgree(order, [], grades);
      assert |multiset(ideal)| == 0;
    }
  }

  // -------- the binary metrics, counted over the same credited files

  ghost function HitSet(ranked: seq<Name>, grades: map<Name, int>, n: nat): set<Name>
    requires n <= |ranked|
  {
    set f | f in ranked[..n] && f in grades && grades[f] > 0
  }

  /** The reciprocal of the first hit's rank; zero exactly when there is no hit at all. */
  method MRR(ranked: seq<Name>, grades: map<Name, int>) returns (r: real)
    ensures 0.0 <= r <= 1.0
    ensures r == 0.0 <==> HitSet(ranked, grades, |ranked|) == {}
    ensures r == 1.0 <==> ranked != [] && HitSet(ranked, grades, 1) != {}
    ensures forall n :: 0 <= n < |ranked| && HitSet(ranked, grades, n) == {} && HitSet(ranked, grades, n + 1) != {} ==>
      r * (n + 1) as real == 1.0
  {
    for i := 0 to |ranked|
      invariant HitSet(ranked, grades, i) == {}
    {
      assert ranked[..i + 1] == ranked[..i] + [ranked[i]];
      if ranked[i] in grades && grades[ranked[i]] > 0 {
        assert ranked[i] in HitSet(ranked, grades, i + 1);
        HitsGrow(ranked, grades);
        Reciprocal(i + 1);
        return 1.0 / (i + 1) as real;
      }
    }
    HitsGrow(ranked, grades);
    return 0.0;
  }

  lemma HitsGrow(ranked: seq<Name>, grades: map<Name, int>)
    ensures forall m, n {:trigger HitSet(ranked, grades, m), HitSet(ranked, grades, n)} ::
      0 <= m <= n <= |ranked| ==> HitSet(ranked, grades, m) <= HitSet(ranked, grades, n)
  {
    forall m, n, f | 0 <= m <= n <= |ranked| && f in HitSet(ranked, grades, m)
      ensures f in HitSet(ranked, grades, n)
    {
      assert f in ranked[..m];
    }
  }

  lemma Reciprocal(n: nat)
    requires n > 0
    ensures 0.0 < 1.0 / n as real <= 1.0 && 1.0 / n as real * n as real == 1.0
    ensures 1.0 / n as real == 1.0 <==> n == 1
  {}

  method CountHits(ranked: seq<Name>, grades: map<Name, int>, n: nat) returns (hits: nat)
    requires n <= |ranked|
    ensures hits == |HitSet(ranked, grades, n)|
  {
    hits := 0;
    var seen := {};
    for i := 0 to n
      invariant seen == HitSet(ranked, grades, i) && hits == |seen|
    {
      assert ranked[..i + 1] == ranked[..i] + [ranked[i]];
      if (if ranked[i] in grades then grades[ranked[i]] else 0) <= 0 { continue; }
      if ranked[i] !in seen {
        hits := hits + 1;
        seen := seen + {ranked[i]};
      }
    }
  }

  ghost function Elements(s: seq<Name>): set<Name> {
    set f | f in s
  }

  lemma {:induction false} DistinctCount(ranked: seq<Name>, n: nat)
    requires n <= |ranked|
    ensures |Elements(ranked[..n])| <= n
  {
    if n > 0 {
      DistinctCount(ranked, n - 1);
      assert ranked[..n] == ranked[..n - 1] + [ranked[n - 1]];
      var before := Elements(ranked[..n - 1]);
      assert Elements(ranked[..n]) == before + {ranked[n - 1]};
      SubsetSize({ranked[n - 1]} - before, {ranked[n - 1]});
    }
  }

  lemma HitBounds(ranked: seq<Name>, grades: map<Name, int>, n: nat)
    requires n <= |ranked|
    ensures |HitSet(ranked, grades, n)| <= n && |HitSet(ranked, grades, n)| <= |grades|
  {
    DistinctCount(ranked, n);
    SubsetSize(HitSet(ranked, grades, n), Elements(ranked[..n]));
    SubsetSize(HitSet(ranked, grades, n), grades.Keys);
  }

  method PrecisionAt(ranked: seq<Name>, grades: map<Name, int>, k: int) returns (p: real)
    ensures 0.0 <= p <= 1.0
    ensures k > 0 ==> p * Min(k, |ranked|) as real == |HitSet(ranked, grades, Min(k, |ranked|))| as real
  {
    if k <= 0 { return 0.0; }
    var n := if k > |ranked| then |ranked| else k;
    HitBounds(ranked, grades, n);
    if n == 0 { return 0.0; }
    var hits := CountHits(ranked, grades, n);
    Ratio(hits as real, n as real);
    p := hits as real / n as real;
  }

  method RecallAt(ranked: seq<Name>, grades: map<Name, int>, k: int) returns (r: real)
    ensures 0.0 <= r <= 1.0
    ensures k > 0 ==> r * |grades| as real == |HitSet(ranked, grades, Min(k, |ranked|))| as real
  {
    if k <= 0 || |grades| == 0 {
      if k > 0 { HitBounds(ranked, grades, Min(k, |ranked|)); }
      return 0.0;
    }
    var n := if k > |ranked| then |ranked| else k;
    HitBounds(ranked, grades, n);
    var hits := CountHits(ranked, grades, n);
    Ratio(hits as real, |grades| as real);
    r := hits as real / |grades| as real;
  }

  /** The graded and the binary metrics vanish together. */
  lemma GainIffHit(ranked: seq<Name>, grades: map<Name, int>, n: nat, log2: nat -> real)
    requires Increasing(log2) && n <= |ranked| && Judged(grades)
    ensures Dcg(EarnedGrades(ranked, grades, n), 0, log2) > 0.0 <==> HitSet(ranked, grades, n) != {}
  {
    var g := EarnedGrades(ranked, grades, n);
    DcgPositive(g, 0, log2);
    if i :| 0 <= i < n && g[i] > 0 {
      assert ranked[..n][i] in HitSet(ranked, grades, n);
    }
    if HitSet(ranked, grades, n) != {} {
      var f :| f in HitSet(ranked, grades, n);
      var i :| 0 <= i < n && ranked[..n][i] == f;
      var first := FirstAt(ranked, i, f);
      assert g[first] > 0;
    }
  }

  lemma {:induction false} FirstAt(ranked: seq<Name>, i: nat, f: Name) returns (first: nat)
    requires i < |ranked| && ranked[i] == f
    ensures first <= i && ranked[first] == f && f !in ranked[..first]
    decreases i
  {
    first := i;
    if f in ranked[..i] {
      var j :| 0 <= j < i && ranked[..i][j] == f;
      first := FirstAt(ranked, j, f);
    }
  }
}
