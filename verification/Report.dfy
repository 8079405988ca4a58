/** Comparing two benchmark artifacts by retrieval route (internal/eval/report.go), with the
    route tally of the runner (internal/eval/runner.go). */
module Report {
  type Route = string
  type QueryKey = string

  datatype QueryMetrics = QueryMetrics(id: string, query: string, route: Route)

  function Key(q: QueryMetrics): QueryKey {
    if q.id != "" then q.id else q.query
  }

  /** A transition from one route to another; the source joins the two names with an arrow. */
  datatype Move = Move(from: Route, to: Route)

  function Get<K>(m: map<K, int>, k: K): int {
    if k in m then m[k] else 0
  }

  // -------- the meaning of the tallies

  /** How many queries took route r. */
  ghost function Taken(qs: seq<QueryMetrics>, r: Route): nat {
    if qs == [] then 0 else Taken(qs[..|qs| - 1], r) + if qs[|qs| - 1].route == r then 1 else 0
  }

  /** RouteCounts as Run tallies them: one entry for each route taken, empty routes aside. */
  ghost predicate Tallies(counts: map<Route, int>, qs: seq<QueryMetrics>) {
    forall r :: Get(counts, r) == (if r == "" then 0 else Taken(qs, r)) && (r in counts <==> r != "" && Taken(qs, r) > 0)
  }

  method TallyRoutes(qs: seq<QueryMetrics>) returns (counts: map<Route, int>)
    ensures Tallies(counts, qs)
  {
    counts := map[];
    for i := 0 to |qs|
      invariant Tallies(counts, qs[..i])
    {
      assert qs[..i + 1][..i] == qs[..i];
      if qs[i].route != "" {
        counts := counts[qs[i].route := Get(counts, qs[i].route) + 1];
      }
    }
    assert qs[..|qs|] == qs;
  }

  /** The differences that are not zero; none at all when either side has no route evidence. */
  ghost predicate IsDelta(baseline: map<Route, int>, candidate: map<Route, int>, delta: map<Route, int>) {
    && (baseline == map[] || candidate == map[] ==> delta == map[])
    && (baseline != map[] && candidate != map[] ==> forall r :: Get(delta, r) == Get(candidate, r) - Get(baseline, r))
    && forall r :: r in delta ==> delta[r] != 0
  }

  method DiffRouteCounts(baseline: map<Route, int>, candidate: map<Route, int>) returns (delta: map<Route, int>)
    ensures IsDelta(baseline, candidate, delta)
  {
    if |baseline| == 0 || |candidate| == 0 { return map[]; }
    delta := candidate;
    var todo := baseline.Keys;
    while todo != {}
      invariant todo <= baseline.Keys
      invariant forall r :: Get(delta, r) == Get(candidate, r) - if r in baseline.Keys - todo then baseline[r] else 0
      decreases |todo|
    {
      var r :| r in todo;
      todo := todo - {r};
      delta := delta[r := Get(delta, r) - baseline[r]];
    }
    todo := delta.Keys;
    while todo != {}
      invariant forall r :: Get(delta, r) == Get(candidate, r) - Get(baseline, r)
      invariant forall r :: r in delta && r !in todo ==> delta[r] != 0
      decreases |todo|
    {
      var r :| r in todo;
      todo := todo - {r};
      if Get(delta, r) == 0 {
        delta := delta - {r};
      }
    }
  }

  /** The route the baseline last recorded for a key, or "". */
  ghost function Before(baseline: seq<QueryMetrics>, key: QueryKey): Route {
    if baseline == [] then ""
    else
      var q := baseline[|baseline| - 1];
      if Key(q) == key && key != "" && q.route != "" then q.route else Before(baseline[..|baseline| - 1], key)
  }

  ghost predicate IsMove(baseline: seq<QueryMetrics>, q: QueryMetrics, m: Move) {
    Key(q) != "" && q.route == m.to && m.to != "" && Before(baseline, Key(q)) == m.from && m.from != "" && m.from != m.to
  }

  /** How many candidate queries made this move. */
  ghost function Moves(baseline: seq<QueryMetrics>, qs: seq<QueryMetrics>, m: Move): nat {
    if qs == [] then 0 else Moves(baseline, qs[..|qs| - 1], m) + if IsMove(baseline, qs[|qs| - 1], m) then 1 else 0
  }

  /** One entry for each move made, counting the queries that made it. */
  ghost predicate Counts(ts: map<Move, int>, baseline: seq<QueryMetrics>, qs: seq<QueryMetrics>) {
    forall m :: Get(ts, m) == Moves(baseline, qs, m) && (m in ts <==> Moves(baseline, qs, m) > 0)
  }

  // -------- the same meanings, read off the queries

  /** The query goes by k: its id if it has one, else its text. */
  ghost predicate GoesBy(q: QueryMetrics, k: string) {
    k != "" && (q.id == k || (q.id == "" && q.query == k))
  }

  /** Baseline query i is the last answered one that goes by k. */
  ghost predicate LastAnswered(baseline: seq<QueryMetrics>, k: string, i: nat) {
    && i < |baseline| && GoesBy(baseline[i], k) && baseline[i].route != ""
    && forall j :: i < j < |baseline| && GoesBy(baseline[j], k) ==> baseline[j].route == ""
  }

  lemma {:induction false} BeforeIff(baseline: seq<QueryMetrics>, k: string, r: Route)
    requires r != ""
    ensures Before(baseline, k) == r <==> exists i: nat :: LastAnswered(baseline, k, i) && baseline[i].route == r
    decreases |baseline|
  {
    if baseline != [] {
      var n := |baseline| - 1;
      var front, q := baseline[..n], baseline[n];
      assert baseline == front + [q];
      BeforeIff(front, k, r);
      assert GoesBy(q, k) <==> Key(q) == k && k != "";
      hide GoesBy, Key, LastAnswered;
      forall i: nat
        ensures LastAnswered(front + [q], k, i) <==> if GoesBy(q, k) && q.route != "" then i == n else LastAnswered(front, k, i)
        ensures LastAnswered(front, k, i) ==> i < n && baseline[i] == front[i]
      {
        OneMoreQuery(front, q, k, i);
      }
    }
  }

  lemma OneMoreQuery(front: seq<QueryMetrics>, q: QueryMetrics, k: string, i: nat)
    ensures LastAnswered(front + [q], k, i) <==> if GoesBy(q, k) && q.route != "" then i == |front| else LastAnswered(front, k, i)
    ensures LastAnswered(front, k, i) ==> i < |front|
  {
    hide GoesBy;
    var all := front + [q];
    assert all[|front|] == q && forall j :: 0 <= j < |front| ==> all[j] == front[j];
  }

  /** Candidate query i, under a name it goes by, was last answered by another route. */
  ghost predicate Moved(baseline: seq<QueryMetrics>, q: QueryMetrics, m: Move) {
    q.route == m.to != "" && m.from != m.to && exists k, i: nat :: GoesBy(q, k) && LastAnswered(baseline, k, i) && baseline[i].route == m.from
  }

  lemma MovedIff(baseline: seq<QueryMetrics>, q: QueryMetrics, m: Move)
    ensures IsMove(baseline, q, m) <==> Moved(baseline, q, m)
  {
    if m.from != "" { BeforeIff(baseline, Key(q), m.from); }
    assert forall k :: GoesBy(q, k) ==> k == Key(q);
  }

  /** The positions at which p holds. */
  ghost function Where(qs: seq<QueryMetrics>, p: QueryMetrics -> bool): set<int> {
    set i | 0 <= i < |qs| && p(qs[i])
  }

  lemma WhereLast(qs: seq<QueryMetrics>, p: QueryMetrics -> bool)
    requires qs != []
    ensures |Where(qs, p)| == |Where(qs[..|qs| - 1], p)| + if p(qs[|qs| - 1]) then 1 else 0
  {
    var n := |qs| - 1;
    assert Where(qs, p) == Where(qs[..n], p) + if p(qs[n]) then {n} else {};
  }

  /** The moves counted are the candidate queries that made them. */
  lemma {:induction false} MovesAre(baseline: seq<QueryMetrics>, qs: seq<QueryMetrics>, m: Move)
    ensures Moves(baseline, qs, m) == |Where(qs, (q: QueryMetrics) => Moved(baseline, q, m))|
    decreases |qs|
  {
    hide Moved, IsMove;
    if qs != [] {
      MovesAre(baseline, qs[..|qs| - 1], m);
      MovedIff(baseline, qs[|qs| - 1], m);
      WhereLast(qs, (q: QueryMetrics) => Moved(baseline, q, m));
    }
  }

  /** A route's tally is the number of queries it answered. */
  lemma {:induction false} TakenAre(qs: seq<QueryMetrics>, r: Route)
    ensures Taken(qs, r) == |Where(qs, (q: QueryMetrics) => q.route == r)|
    decreases |qs|
  {
    if qs != [] {
      TakenAre(qs[..|qs| - 1], r);
      WhereLast(qs, (q: QueryMetrics) => q.route == r);
    }
  }

  method PreviousRoutes(baseline: seq<QueryMetrics>) returns (before: map<QueryKey, Route>)
    ensures forall k :: (if k in before then before[k] else "") == Before(baseline, k)
  {
    before := map[];
    for i := 0 to |baseline|
      invariant forall k :: (if k in before then before[k] else "") == Before(baseline[..i], k)
    {
      var q := baseline[i];
      assert baseline[..i + 1][..i] == baseline[..i];
      if Key(q) != "" && q.route != "" {
        before := before[Key(q) := q.route];
      }
    }
    assert baseline[..|baseline|] == baseline;
  }

  method DiffRouteTransitions(baseline: seq<QueryMetrics>, candidate: seq<QueryMetrics>) returns (transitions: map<Move, int>)
    ensures Counts(transitions, baseline, candidate)
  {
    transitions := map[];
    if |baseline| == 0 || |candidate| == 0 {
      forall m ensures Moves(baseline, candidate, m) == 0 { NoMoves(baseline, candidate, m); }
      return;
    }
    var before := PreviousRoutes(baseline);
    for i := 0 to |candidate|
      invariant forall m :: Get(transitions, m) == Moves(baseline, candidate[..i], m)
      invariant forall m :: m in transitions <==> Moves(baseline, candidate[..i], m) > 0
    {
      var q := candidate[i];
      assert candidate[..i + 1][..i] == candidate[..i];
      if Key(q) == "" || q.route == "" { continue; }
      var previous := if Key(q) in before then before[Key(q)] else "";
      if previous != "" && previous != q.route {
        var m := Move(previous, q.route);
        transitions := transitions[m := Get(transitions, m) + 1];
      }
    }
    assert candidate[..|candidate|] == candidate;
  }

  lemma {:induction false} NoMoves(baseline: seq<QueryMetrics>, qs: seq<QueryMetrics>, m: Move)
    requires baseline == [] || qs == []
    ensures Moves(baseline, qs, m) == 0
    decreases |qs|
  {
    if qs != [] { NoMoves(baseline, qs[..|qs| - 1], m); }
  }

  // -------- sums over a transition map

  ghost function Total(ts: map<Move, int>, sel: Move -> bool): int
    decreases |ts|
  {
    if ts == map[] then 0
    else
      var m :| m in ts;
      (if sel(m) then ts[m] else 0) + Total(ts - {m}, sel)
  }

  lemma {:induction false} TotalSplit(ts: map<Move, int>, sel: Move -> bool, m: Move)
    requires m in ts
    ensures Total(ts, sel) == (if sel(m) then ts[m] else 0) + Total(ts - {m}, sel)
    decreases |ts|
  {
    var k :| k in ts && Total(ts, sel) == (if sel(k) then ts[k] else 0) + Total(ts - {k}, sel);
    if k != m {
      TotalSplit(ts - {k}, sel, m);
      assert (ts - {k}) - {m} == (ts - {m}) - {k};
      TotalSplit(ts - {m}, sel, k);
    }
  }

  /** How many candidate queries made a selected move. */
  ghost function Selected(baseline: seq<QueryMetrics>, qs: seq<QueryMetrics>, sel: Move -> bool): nat {
    if qs == [] then 0
    else
      var q := qs[|qs| - 1];
      var m := Move(Before(baseline, Key(q)), q.route);
      Selected(baseline, qs[..|qs| - 1], sel) + if IsMove(baseline, q, m) && sel(m) then 1 else 0
  }

  lemma {:induction false} TotalIsSelected(ts: map<Move, int>, baseline: seq<QueryMetrics>, qs: seq<QueryMetrics>, sel: Move -> bool)
    requires Counts(ts, baseline, qs)
    ensures Total(ts, sel) == Selected(baseline, qs, sel)
    decreases |qs|
  {
    if qs == [] {
      assert ts == map[] by { forall m ensures m !in ts {} }
    } else {
      var front, q := qs[..|qs| - 1], qs[|qs| - 1];
      var m := Move(Before(baseline, Key(q)), q.route);
      if !IsMove(baseline, q, m) {
        TotalIsSelected(ts, baseline, front, sel);
      } else {
        var less := if ts[m] == 1 then ts - {m} else ts[m := ts[m] - 1];
        assert Counts(less, baseline, front);
        TotalIsSelected(less, baseline, front, sel);
        TotalSplit(ts, sel, m);
        if ts[m] != 1 {
          TotalSplit(less, sel, m);
          assert less - {m} == ts - {m};
        }
      }
    }
  }

  // -------- artifacts of the same queries

  ghost function Keys(qs: seq<QueryMetrics>): set<QueryKey> {
    set q | q in qs :: Key(q)
  }

  ghost predicate Unique(qs: seq<QueryMetrics>) {
    forall i, j :: 0 <= i < j < |qs| ==> Key(qs[i]) != Key(qs[j])
  }

  /** Every query has a key of its own and took some route. */
  ghost predicate Complete(qs: seq<QueryMetrics>) {
    Unique(qs) && forall q :: q in qs ==> Key(q) != "" && q.route != ""
  }

  lemma {:induction false} BeforeIsRoute(qs: seq<QueryMetrics>, i: nat)
    requires Complete(qs) && i < |qs|
    ensures Before(qs, Key(qs[i])) == qs[i].route
    decreases |qs|
  {
    assert qs[i] in qs;
    if i < |qs| - 1 {
      assert forall q :: q in qs[..|qs| - 1] ==> q in qs;
      BeforeIsRoute(qs[..|qs| - 1], i);
    }
  }

  /** How many queries have a key the baseline answered by route r. */
  ghost function Answered(baseline: seq<QueryMetrics>, qs: seq<QueryMetrics>, r: Route): nat {
    if qs == [] then 0 else Answered(baseline, qs[..|qs| - 1], r) + if Before(baseline, Key(qs[|qs| - 1])) == r then 1 else 0
  }

  ghost function AnsweredKeys(baseline: seq<QueryMetrics>, keys: set<QueryKey>, r: Route): set<QueryKey> {
    set k | k in keys && Before(baseline, k) == r
  }

  lemma OneMoreKey(qs: seq<QueryMetrics>)
    requires Unique(qs) && qs != []
    ensures Unique(qs[..|qs| - 1]) && Key(qs[|qs| - 1]) !in Keys(qs[..|qs| - 1])
    ensures Keys(qs) == Keys(qs[..|qs| - 1]) + {Key(qs[|qs| - 1])}
  {
    var front, q := qs[..|qs| - 1], qs[|qs| - 1];
    forall p
      ensures p in qs <==> p in front || p == q
    {
      assert qs == front + [q];
    }
    forall p | p in front
      ensures Key(p) != Key(q)
    {
      var i :| 0 <= i < |front| && front[i] == p;
      assert qs[i] == p;
    }
  }

  /** With unique keys that count depends on the set of keys only. */
  lemma {:induction false} AnsweredByKeys(baseline: seq<QueryMetrics>, qs: seq<QueryMetrics>, r: Route)
    requires Unique(qs)
    ensures Answered(baseline, qs, r) == |AnsweredKeys(baseline, Keys(qs), r)|
    decreases |qs|
  {
    if qs != [] {
      var front, k := qs[..|qs| - 1], Key(qs[|qs| - 1]);
      OneMoreKey(qs);
      AnsweredByKeys(baseline, front, r);
      hide Before, Key, Keys;
      assert AnsweredKeys(baseline, Keys(qs), r) ==
        if Before(baseline, k) == r then AnsweredKeys(baseline, Keys(front), r) + {k} else AnsweredKeys(baseline, Keys(front), r);
    }
  }

  /** How many of these queries took route r under a key the other artifact has no route for. */
  ghost function Unmatched(other: seq<QueryMetrics>, qs: seq<QueryMetrics>, r: Route): nat {
    if qs == [] then 0
    else
      var q := qs[|qs| - 1];
      Unmatched(other, qs[..|qs| - 1], r) + if Before(other, Key(q)) == "" && q.route == r then 1 else 0
  }

  lemma {:induction false} FlowPerQuery(baseline: seq<QueryMetrics>, qs: seq<QueryMetrics>, r: Route)
    requires r != "" && forall q :: q in qs ==> Key(q) != "" && q.route != ""
    ensures Taken(qs, r) - Answered(baseline, qs, r) ==
            Selected(baseline, qs, (m: Move) => m.to == r) - Selected(baseline, qs, (m: Move) => m.from == r) + Unmatched(baseline, qs, r)
    decreases |qs|
  {
    if qs != [] {
      assert qs[|qs| - 1] in qs && forall q :: q in qs[..|qs| - 1] ==> q in qs;
      FlowPerQuery(baseline, qs[..|qs| - 1], r);
    }
  }

  /** A route is recorded for a key of the queries only. */
  lemma {:induction false} BeforeKnown(qs: seq<QueryMetrics>, k: QueryKey)
    ensures Before(qs, k) != "" ==> k in Keys(qs)
    decreases |qs|
  {
    if qs != [] {
      var q := qs[|qs| - 1];
      BeforeKnown(qs[..|qs| - 1], k);
      assert q in qs && forall p :: p in qs[..|qs| - 1] ==> p in qs;
    }
  }

  /** Of complete queries, exactly the keys have a route recorded. */
  lemma BeforeIffKey(qs: seq<QueryMetrics>, k: QueryKey)
    requires Complete(qs)
    ensures Before(qs, k) != "" <==> k in Keys(qs)
  {
    BeforeKnown(qs, k);
    if k in Keys(qs) {
      var q :| q in qs && Key(q) == k;
      var i :| 0 <= i < |qs| && qs[i] == q;
      BeforeIsRoute(qs, i);
    }
  }

  /** How many of these queries the baseline answered by route r, and the candidate at all. */
  ghost function Stayed(baseline: seq<QueryMetrics>, candidate: seq<QueryMetrics>, qs: seq<QueryMetrics>, r: Route): nat {
    if qs == [] then 0
    else
      var k := Key(qs[|qs| - 1]);
      Stayed(baseline, candidate, qs[..|qs| - 1], r) + if Before(candidate, k) != "" && Before(baseline, k) == r then 1 else 0
  }

  ghost function StayedKeys(baseline: seq<QueryMetrics>, candidate: seq<QueryMetrics>, keys: set<QueryKey>, r: Route): set<QueryKey> {
    set k | k in keys && Before(candidate, k) != "" && Before(baseline, k) == r
  }

  lemma {:induction false} StayedByKeys(baseline: seq<QueryMetrics>, candidate: seq<QueryMetrics>, qs: seq<QueryMetrics>, r: Route)
    requires Unique(qs)
    ensures Stayed(baseline, candidate, qs, r) == |StayedKeys(baseline, candidate, Keys(qs), r)|
    decreases |qs|
  {
    if qs != [] {
      var front, k := qs[..|qs| - 1], Key(qs[|qs| - 1]);
      OneMoreKey(qs);
      StayedByKeys(baseline, candidate, front, r);
      hide Before, Key, Keys, StayedKeys, Unique;
      OneMoreStayed(baseline, candidate, Keys(front), k, r);
    }
  }

  lemma OneMoreStayed(baseline: seq<QueryMetrics>, candidate: seq<QueryMetrics>, keys: set<QueryKey>, k: QueryKey, r: Route)
    requires k !in keys
    ensures |StayedKeys(baseline, candidate, keys + {k}, r)| ==
      |StayedKeys(baseline, candidate, keys, r)| + if Before(candidate, k) != "" && Before(baseline, k) == r then 1 else 0
  {
    hide Before;
    var fewer := StayedKeys(baseline, candidate, keys, r);
    assert k !in fewer;
    assert StayedKeys(baseline, candidate, keys + {k}, r) ==
      if Before(candidate, k) != "" && Before(baseline, k) == r then fewer + {k} else fewer;
  }

  lemma {:induction false} StayedOrVanished(baseline: seq<QueryMetrics>, candidate: seq<QueryMetrics>, qs: seq<QueryMetrics>, r: Route)
    requires forall q :: q in qs ==> Before(baseline, Key(q)) == q.route
    ensures Taken(qs, r) == Stayed(baseline, candidate, qs, r) + Unmatched(candidate, qs, r)
    decreases |qs|
  {
    if qs != [] {
      assert qs[|qs| - 1] in qs && forall q :: q in qs[..|qs| - 1] ==> q in qs;
      StayedOrVanished(baseline, candidate, qs[..|qs| - 1], r);
    }
  }

  /** Either way of counting the queries both artifacts have and the baseline answered by r. */
  lemma StayedIsAnswered(baseline: seq<QueryMetrics>, candidate: seq<QueryMetrics>, r: Route)
    requires Complete(baseline) && Complete(candidate) && r != ""
    ensures Stayed(baseline, candidate, baseline, r) == Answered(baseline, candidate, r)
  {
    StayedByKeys(baseline, candidate, baseline, r);
    AnsweredByKeys(baseline, candidate, r);
    forall k
      ensures k in StayedKeys(baseline, candidate, Keys(baseline), r) <==> k in AnsweredKeys(baseline, Keys(candidate), r)
    {
      BeforeIffKey(baseline, k);
      BeforeIffKey(candidate, k);
    }
    hide Before, Keys;
    assert StayedKeys(baseline, candidate, Keys(baseline), r) == AnsweredKeys(baseline, Keys(candidate), r);
  }

  /** Conservation: a route's change in count is what moved in less what moved out, with the queries only
      one of the artifacts has added or taken away. */
  lemma RouteConservation(baseline: seq<QueryMetrics>, candidate: seq<QueryMetrics>, ts: map<Move, int>, r: Route)
    requires Complete(baseline) && Complete(candidate)
    requires Counts(ts, baseline, candidate) && r != ""
    ensures Taken(candidate, r) - Taken(baseline, r) ==
            Total(ts, (m: Move) => m.to == r) - Total(ts, (m: Move) => m.from == r)
            + Unmatched(baseline, candidate, r) - Unmatched(candidate, baseline, r)
    ensures Keys(baseline) == Keys(candidate) ==> Unmatched(baseline, candidate, r) == Unmatched(candidate, baseline, r) == 0
  {
    forall q | q in baseline
      ensures Before(baseline, Key(q)) == q.route
    {
      var i :| 0 <= i < |baseline| && baseline[i] == q;
      BeforeIsRoute(baseline, i);
    }
    StayedOrVanished(baseline, candidate, baseline, r);
    StayedIsAnswered(baseline, candidate, r);
    FlowPerQuery(baseline, candidate, r);
    TotalIsSelected(ts, baseline, candidate, (m: Move) => m.to == r);
    TotalIsSelected(ts, baseline, candidate, (m: Move) => m.from == r);
    if Keys(baseline) == Keys(candidate) {
      AllMatched(baseline, candidate, candidate, r);
      AllMatched(candidate, baseline, baseline, r);
    }
  }

  lemma {:induction false} AllMatched(other: seq<QueryMetrics>, whole: seq<QueryMetrics>, qs: seq<QueryMetrics>, r: Route)
    requires Complete(other) && Keys(other) == Keys(whole) && forall q :: q in qs ==> q in whole
    ensures Unmatched(other, qs, r) == 0
    decreases |qs|
  {
    if qs != [] {
      var q := qs[|qs| - 1];
      assert q in qs && q in whole && Key(q) in Keys(whole);
      assert forall p :: p in qs[..|qs| - 1] ==> p in qs;
      BeforeIffKey(other, Key(q));
      AllMatched(other, whole, qs[..|qs| - 1], r);
    }
  }

  lemma {:induction false} TakenRoute(qs: seq<QueryMetrics>, i: nat)
    requires i < |qs|
    ensures Taken(qs, qs[i].route) > 0
    decreases |qs|
  {
    if i < |qs| - 1 { TakenRoute(qs[..|qs| - 1], i); }
  }

  /** The same for what the comparison reports, with both route counts tallied from the queries. */
  lemma DeltaIsFlow(baseline: seq<QueryMetrics>, candidate: seq<QueryMetrics>, before: map<Route, int>,
                    after: map<Route, int>, delta: map<Route, int>, ts: map<Move, int>, r: Route)
    requires Complete(baseline) && Complete(candidate)
    requires Tallies(before, baseline) && Tallies(after, candidate) && IsDelta(before, after, delta)
    requires Counts(ts, baseline, candidate) && r != ""
    ensures Get(delta, r) ==
      if baseline == [] || candidate == [] then 0
      else Total(ts, (m: Move) => m.to == r) - Total(ts, (m: Move) => m.from == r)
           + Unmatched(baseline, candidate, r) - Unmatched(candidate, baseline, r)
    ensures Keys(baseline) == Keys(candidate) ==>
      Get(delta, r) == Total(ts, (m: Move) => m.to == r) - Total(ts, (m: Move) => m.from == r)
  {
    RouteConservation(baseline, candidate, ts, r);
    if Keys(baseline) == Keys(candidate) { SameEmptiness(baseline, candidate); }
    EvidenceIff(baseline, before);
    EvidenceIff(candidate, after);
  }

  lemma EvidenceIff(qs: seq<QueryMetrics>, counts: map<Route, int>)
    requires Tallies(counts, qs) && forall q :: q in qs ==> q.route != ""
    ensures counts == map[] <==> qs == []
  {
    if qs == [] {
      assert counts == map[] by { forall r ensures r !in counts {} }
    } else {
      assert qs[0] in qs;
      TakenRoute(qs, 0);
    }
  }

  lemma SameEmptiness(a: seq<QueryMetrics>, b: seq<QueryMetrics>)
    requires Keys(a) == Keys(b)
    ensures a == [] <==> b == []
  {
    if a != [] { assert a[0] in a && Key(a[0]) in Keys(b); }
    if b != [] { assert b[0] in b && Key(b[0]) in Keys(a); }
  }

  /** Comparing the other way round negates every difference. */
  lemma SwapNegates(before: map<Route, int>, after: map<Route, int>, delta: map<Route, int>, delta': map<Route, int>)
    requires IsDelta(before, after, delta) && IsDelta(after, before, delta')
    ensures forall r :: Get(delta', r) == -Get(delta, r)
    ensures delta'.Keys == delta.Keys
  {
    forall r
      ensures Get(delta', r) == -Get(delta, r) && (r in delta' <==> r in delta)
    {}
  }

  /** The keys of the queries that made a move. */
  ghost function MovedKeys(baseline: seq<QueryMetrics>, qs: seq<QueryMetrics>, m: Move): set<QueryKey> {
    set q | q in qs && IsMove(baseline, q, m) :: Key(q)
  }

  lemma {:induction false} MovesByKeys(baseline: seq<QueryMetrics>, qs: seq<QueryMetrics>, m: Move)
    requires Unique(qs)
    ensures Moves(baseline, qs, m) == |MovedKeys(baseline, qs, m)|
    decreases |qs|
  {
    if qs == [] {
      assert MovedKeys(baseline, qs, m) == {};
    } else {
      var front, q := qs[..|qs| - 1], qs[|qs| - 1];
      OneMoreKey(qs);
      MovesByKeys(baseline, front, m);
      MovedOneMore(baseline, front, q, m);
      assert qs == front + [q];
    }
  }

  lemma MovedOneMore(baseline: seq<QueryMetrics>, front: seq<QueryMetrics>, q: QueryMetrics, m: Move)
    ensures MovedKeys(baseline, front + [q], m) ==
      if IsMove(baseline, q, m) then MovedKeys(baseline, front, m) + {Key(q)} else MovedKeys(baseline, front, m)
    ensures MovedKeys(baseline, front, m) <= Keys(front)
  {
    hide IsMove, Key;
    assert forall p :: p in front + [q] <==> p in front || p == q;
  }

  /** Comparing the artifacts the other way round reverses every transition. */
  lemma SwapReverses(baseline: seq<QueryMetrics>, candidate: seq<QueryMetrics>, m: Move)
    requires Complete(baseline) && Complete(candidate) && Keys(baseline) == Keys(candidate)
    ensures Moves(candidate, baseline, Move(m.to, m.from)) == Moves(baseline, candidate, m)
  {
    var m' := Move(m.to, m.from);
    MovesByKeys(baseline, candidate, m);
    MovesByKeys(candidate, baseline, m');
    SwapSubset(baseline, candidate, m);
    SwapSubset(candidate, baseline, m');
    assert Move(m'.to, m'.from) == m;
    assert MovedKeys(baseline, candidate, m) == MovedKeys(candidate, baseline, m');
  }

  /** A query that moved from a to b in one comparison moved from b to a in the other. */
  lemma SwapSubset(baseline: seq<QueryMetrics>, candidate: seq<QueryMetrics>, m: Move)
    requires Complete(baseline) && Complete(candidate) && Keys(baseline) == Keys(candidate)
    ensures MovedKeys(baseline, candidate, m) <= MovedKeys(candidate, baseline, Move(m.to, m.from))
  {
    forall q | q in candidate && IsMove(baseline, q, m)
      ensures exists b :: b in baseline && IsMove(candidate, b, Move(m.to, m.from)) && Key(b) == Key(q)
    {
      assert Key(q) in Keys(baseline);
      var b :| b in baseline && Key(b) == Key(q);
      var i :| 0 <= i < |baseline| && baseline[i] == b;
      BeforeIsRoute(baseline, i);
      var j :| 0 <= j < |candidate| && candidate[j] == q;
      BeforeIsRoute(candidate, j);
      assert IsMove(candidate, b, Move(m.to, m.from));
    }
  }
}
