/** The budgeted breadth-first search behind ShortestPath (internal/graph/graph.go). */
module PathSearch {
  import opened Reachability
  import opened Graph
  import opened Basics

  /** n's tree edge is a graph edge from a labelled node one layer nearer. */
  ghost predicate TreeNode(next: Node -> set<Edge>, dist: map<Node, nat>, parent: map<Node, Parent>, n: Node)
    requires n in dist
  {
    && n in parent
    && parent[n].prev in dist
    && dist[parent[n].prev] + 1 == dist[n]
    && parent[n].edge in next(parent[n].prev)
    && parent[n].edge.target == n
  }

  ghost predicate TreeOk(next: Node -> set<Edge>, from: Node, dist: map<Node, nat>, parent: map<Node, Parent>) {
    && from in dist && dist[from] == 0
    && forall n {:trigger TreeNode(next, dist, parent, n)} :: n in dist && n != from ==> TreeNode(next, dist, parent, n)
  }

  /** hops and edges spell out one repetition-free walk from `from` to `to`. */
  ghost predicate IsPath(next: Node -> set<Edge>, from: Node, to: Node, hops: seq<Node>, edges: seq<Edge>) {
    && |hops| == |edges| + 1
    && hops[0] == from && hops[|edges|] == to
    && (forall i :: 0 <= i < |edges| ==> edges[i] in next(hops[i]) && edges[i].target == hops[i + 1])
    && (forall i, j :: 0 <= i < j < |hops| ==> hops[i] != hops[j])
  }

  /** ... and no walk is shorter. */
  ghost predicate IsShortestPath(next: Node -> set<Edge>, from: Node, to: Node, hops: seq<Node>, edges: seq<Edge>) {
    && IsPath(next, from, to, hops, edges)
    && forall p :: WalkTo(Step(next), {from}, p, to) ==> |edges| <= |p| - 1
  }

  lemma TreePush(next: Node -> set<Edge>, from: Node, dist: map<Node, nat>, parent: map<Node, Parent>, prev: Node, edge: Edge)
    requires TreeOk(next, from, dist, parent) && prev in dist
    requires edge in next(prev) && edge.target !in dist
    ensures TreeOk(next, from, dist[edge.target := dist[prev] + 1], parent[edge.target := Parent(prev, edge)])
  {
    var dist', parent' := dist[edge.target := dist[prev] + 1], parent[edge.target := Parent(prev, edge)];
    forall n | n in dist' && n != from
      ensures TreeNode(next, dist', parent', n)
    {
      assert n != edge.target ==> TreeNode(next, dist, parent, n);
    }
  }

  /** What holds while the neighbours of the dequeued item `cur` are being scanned. */
  ghost predicate Expanding(next: Node -> set<Edge>, from: Node, cur: Item, q: seq<Item>,
                            dist: map<Node, nat>, parent: map<Node, Parent>, done: set<Node>) {
    && Exact(Step(next), {from}, dist)
    && TreeOk(next, from, dist, parent)
    && QueueOk(q, dist, done)
    && cur.node in dist && dist[cur.node] == cur.depth && cur.node in done
    && (forall i :: 0 <= i < |q| ==> cur.depth <= q[i].depth <= cur.depth + 1)
    && (forall n :: n in done ==> n in dist && dist[n] <= cur.depth)
    && Within(Step(next), {from}, cur.depth) <= dist.Keys
  }

  /** New labels are all d; old labels stay. */
  ghost predicate Extends(dist: map<Node, nat>, dist': map<Node, nat>, d: nat) {
    && (forall n :: n in dist ==> n in dist' && dist'[n] == dist[n])
    && (forall n :: n in dist' && n !in dist ==> dist'[n] == d)
  }

  lemma Discover(next: Node -> set<Edge>, from: Node, cur: Item, q: seq<Item>,
                 dist: map<Node, nat>, parent: map<Node, Parent>, done: set<Node>, edge: Edge)
    requires Expanding(next, from, cur, q, dist, parent, done)
    requires edge in next(cur.node) && edge.target !in dist
    ensures Exact(Step(next), {from}, dist[edge.target := cur.depth + 1])
    ensures TreeOk(next, from, dist[edge.target := cur.depth + 1], parent[edge.target := Parent(cur.node, edge)])
    ensures Expanding(next, from, cur, q + [Item(edge.target, cur.depth + 1)], dist[edge.target := cur.depth + 1],
                      parent[edge.target := Parent(cur.node, edge)], done)
  {
    var step, t := Step(next), edge.target;
    assert t in step(cur.node);
    ExactPush(step, {from}, dist, cur.node, t);
    QueuePush(q, dist, done, cur.depth, t);
    TreePush(next, from, dist, parent, cur.node, edge);
  }

  method EnqueueNeighbors(to: Node, current: Item, neighbors: seq<Edge>, seen: set<Node>, parent: map<Node, Parent>,
                          queue: seq<Item>, ghost next: Node -> set<Edge>, ghost from: Node,
                          ghost dist: map<Node, nat>, ghost done: set<Node>)
    returns (found: bool, seen': set<Node>, parent': map<Node, Parent>, queue': seq<Item>, ghost dist': map<Node, nat>)
    requires forall e :: e in neighbors <==> e in next(current.node)
    requires seen == dist.Keys && to !in dist
    requires forall e :: e in neighbors ==> e.target != ROOT
    requires Expanding(next, from, current, queue, dist, parent, done)
    ensures Extends(dist, dist', current.depth + 1)
    ensures found == (to in dist') && seen' == dist'.Keys
    ensures Exact(Step(next), {from}, dist') && TreeOk(next, from, dist', parent')
    ensures !found ==>
      && current.node in dist'
      && Expanding(next, from, current, queue', dist', parent', done)
      && Expanded(Step(next), dist', current.node)
  {
    hide Expanding, Exact, TreeOk;
    seen', parent', queue', dist' := seen, parent, queue, dist;
    for k := 0 to |neighbors|
      invariant seen' == dist'.Keys && to !in dist'
      invariant Extends(dist, dist', current.depth + 1)
      invariant Expanding(next, from, current, queue', dist', parent', done)
      invariant forall i :: 0 <= i < k ==> neighbors[i].target in dist'
    {
      var edge := neighbors[k];
      var target := edge.target;
      if target == ROOT { continue; }
      if target in seen' { continue; }
      Discover(next, from, current, queue', dist', parent', done, edge);
      seen' := seen' + {target};
      parent' := parent'[target := Parent(current.node, edge)];
      dist' := dist'[target := current.depth + 1];
      if target == to { return true, seen', parent', queue', dist'; }
      queue' := queue' + [Item(target, current.depth + 1)];
    }
    found := false;
    AllScanned(next, from, current, neighbors, queue', dist', parent', done);
  }

  lemma AllScanned(next: Node -> set<Edge>, from: Node, cur: Item, neighbors: seq<Edge>, q: seq<Item>,
                   dist: map<Node, nat>, parent: map<Node, Parent>, done: set<Node>)
    requires Expanding(next, from, cur, q, dist, parent, done)
    requires forall e :: e in neighbors <==> e in next(cur.node)
    requires forall i :: 0 <= i < |neighbors| ==> neighbors[i].target in dist
    ensures Exact(Step(next), {from}, dist) && TreeOk(next, from, dist, parent)
    ensures cur.node in dist && Expanded(Step(next), dist, cur.node)
  {}

  // -------- one turn of the loop in bfs

  ghost predicate Searching(next: Node -> set<Edge>, from: Node, maxDepth: int, q: seq<Item>,
                            dist: map<Node, nat>, parent: map<Node, Parent>, done: set<Node>) {
    && Exact(Step(next), {from}, dist)
    && TreeOk(next, from, dist, parent)
    && QueueOk(q, dist, done)
    && (forall n :: n in dist ==> dist[n] <= maxDepth)
    && done <= dist.Keys
    && (forall n {:trigger Expanded(Step(next), dist, n)} :: n in done && dist[n] < maxDepth ==> Expanded(Step(next), dist, n))
  }

  lemma SearchStarts(next: Node -> set<Edge>, from: Node, maxDepth: nat)
    ensures Searching(next, from, maxDepth, [Item(from, 0)], map[from := 0], map[], {})
  {
    assert [Item(from, 0)][0].node == from;
    assert Queued([Item(from, 0)], from);
    assert AtDistance(Step(next), {from}, from, 0);
  }

  lemma Dequeue(next: Node -> set<Edge>, from: Node, maxDepth: int, q: seq<Item>,
                dist: map<Node, nat>, parent: map<Node, Parent>, done: set<Node>)
    requires Searching(next, from, maxDepth, q, dist, parent, done) && q != []
    ensures q[0].node !in done
    ensures Expanding(next, from, q[0], q[1..], dist, parent, done + {q[0].node})
    ensures q[0].depth >= maxDepth ==> Searching(next, from, maxDepth, q[1..], dist, parent, done + {q[0].node})
  {
    var cur := q[0];
    QueuePop(q, dist, done);
    forall n | n in dist && dist[n] < cur.depth
      ensures Expanded(Step(next), dist, n)
    {
      NearerIsDone(q, dist, done, n);
    }
    LayersComplete(Step(next), {from}, dist, cur.depth);
  }

  lemma Requeue(next: Node -> set<Edge>, from: Node, maxDepth: int, q: seq<Item>, dist: map<Node, nat>,
                parent: map<Node, Parent>, done: set<Node>, cur: Item,
                q': seq<Item>, dist': map<Node, nat>, parent': map<Node, Parent>)
    requires Searching(next, from, maxDepth, q, dist, parent, done) && cur.depth < maxDepth
    requires Expanding(next, from, cur, q', dist', parent', done + {cur.node})
    requires Extends(dist, dist', cur.depth + 1) && Expanded(Step(next), dist', cur.node)
    ensures Searching(next, from, maxDepth, q', dist', parent', done + {cur.node})
  {
    forall n | n in done + {cur.node} && dist'[n] < maxDepth
      ensures Expanded(Step(next), dist', n)
    {
      if n != cur.node {
        assert Expanded(Step(next), dist, n);
      }
    }
  }

  lemma Exhausted(next: Node -> set<Edge>, from: Node, maxDepth: nat, dist: map<Node, nat>, parent: map<Node, Parent>, done: set<Node>)
    requires Searching(next, from, maxDepth, [], dist, parent, done)
    ensures Within(Step(next), {from}, maxDepth) <= dist.Keys
  {
    forall n | n in dist && dist[n] < maxDepth
      ensures Expanded(Step(next), dist, n)
    {
      NearerIsDone([], dist, done, n);
    }
    LayersComplete(Step(next), {from}, dist, maxDepth);
  }

  /** Every node dequeued so far, and the next one, lies within the depth bound. */
  lemma DoneWithin(next: Node -> set<Edge>, from: Node, maxDepth: nat, q: seq<Item>,
                   dist: map<Node, nat>, parent: map<Node, Parent>, done: set<Node>)
    requires Searching(next, from, maxDepth, q, dist, parent, done) && q != []
    ensures |done| + 1 <= |Within(Step(next), {from}, maxDepth)|
  {
    var seen := done + {q[0].node};
    forall n | n in seen
      ensures n in Within(Step(next), {from}, maxDepth)
    {
      assert AtDistance(Step(next), {from}, n, dist[n]);
      WithinGrows(Step(next), {from}, dist[n], maxDepth);
    }
    SubsetSize(seen, Within(Step(next), {from}, maxDepth));
  }

  // -------- reading the path back

  ghost predicate Backtrack(next: Node -> set<Edge>, from: Node, dist: map<Node, nat>, cur: Node, hops: seq<Node>, edges: seq<Edge>) {
    && cur in dist
    && |hops| == |edges| + 1 && hops[0] == cur
    && (forall i :: 0 <= i < |edges| ==> edges[i] in next(hops[i]) && edges[i].target == hops[i + 1])
    && (forall i :: 0 <= i < |hops| ==> hops[i] in dist && dist[hops[i]] == dist[cur] + i)
  }

  lemma BacktrackStep(next: Node -> set<Edge>, from: Node, dist: map<Node, nat>, cur: Node, hops: seq<Node>, edges: seq<Edge>, p: Parent)
    requires Backtrack(next, from, dist, cur, hops, edges)
    requires p.prev in dist && dist[p.prev] + 1 == dist[cur] && p.edge in next(p.prev) && p.edge.target == cur
    ensures Backtrack(next, from, dist, p.prev, [p.prev] + hops, [p.edge] + edges)
  {
    forall i | 0 <= i < |edges| + 1
      ensures ([p.edge] + edges)[i] in next(([p.prev] + hops)[i]) && ([p.edge] + edges)[i].target == ([p.prev] + hops)[i + 1]
    {
      if i > 0 {
        assert ([p.edge] + edges)[i] == edges[i - 1] && ([p.prev] + hops)[i] == hops[i - 1];
        assert ([p.prev] + hops)[i + 1] == hops[i - 1 + 1];
      }
    }
  }

  lemma BacktrackStarts(next: Node -> set<Edge>, from: Node, dist: map<Node, nat>, to: Node)
    requires to in dist
    ensures Backtrack(next, from, dist, to, [to], [])
  {}

  lemma Parented(next: Node -> set<Edge>, from: Node, dist: map<Node, nat>, parent: map<Node, Parent>, n: Node)
    requires TreeOk(next, from, dist, parent) && n in dist && n != from
    ensures n in parent && parent[n].prev in dist && dist[parent[n].prev] + 1 == dist[n]
    ensures parent[n].edge in next(parent[n].prev) && parent[n].edge.target == n
  {
    assert TreeNode(next, dist, parent, n);
  }

  lemma BacktrackEnds(next: Node -> set<Edge>, from: Node, to: Node, dist: map<Node, nat>, hops: seq<Node>, edges: seq<Edge>)
    requires Backtrack(next, from, dist, from, hops, edges) && hops[|edges|] == to
    requires from in dist && dist[from] == 0
    ensures IsPath(next, from, to, hops, edges) && |edges| == dist[to]
  {}

  function Reverse<T>(s: seq<T>): (r: seq<T>)
    ensures |r| == |s|
    ensures forall i :: 0 <= i < |s| ==> r[i] == s[|s| - 1 - i]
  {
    if s == [] then [] else Reverse(s[1..]) + [s[0]]
  }

  /** Walks the parent links from `to` back to `from`, then reverses both lists. */
  method Reconstruct(from: Node, to: Node, parent: map<Node, Parent>, ghost next: Node -> set<Edge>, ghost dist: map<Node, nat>)
    returns (hops: seq<Node>, edges: seq<Edge>, found: bool)
    requires TreeOk(next, from, dist, parent) && to in dist
    ensures found && IsPath(next, from, to, hops, edges) && |edges| == dist[to]
  {
    hide Backtrack, TreeNode, IsPath;
    var hopsRev, edgesRev := [], [];
    var cur := to;
    BacktrackStarts(next, from, dist, to);
    assert [to] + Reverse(hopsRev) == [to];
    while cur != from
      invariant cur in dist && |hopsRev| == |edgesRev|
      invariant Backtrack(next, from, dist, cur, [cur] + Reverse(hopsRev), Reverse(edgesRev))
      invariant ([cur] + Reverse(hopsRev))[|hopsRev|] == to
      decreases dist[cur]
    {
      Parented(next, from, dist, parent, cur);
      var p := parent[cur];  // never misses
      assert Reverse(hopsRev + [cur]) == [cur] + Reverse(hopsRev);
      assert Reverse(edgesRev + [p.edge]) == [p.edge] + Reverse(edgesRev);
      BacktrackStep(next, from, dist, cur, [cur] + Reverse(hopsRev), Reverse(edgesRev), p);
      hopsRev := hopsRev + [cur];
      edgesRev := edgesRev + [p.edge];
      cur := p.prev;
    }
    hopsRev := hopsRev + [from];
    assert Reverse(hopsRev) == [from] + Reverse(hopsRev[..|hopsRev| - 1]);
    BacktrackEnds(next, from, to, dist, Reverse(hopsRev), Reverse(edgesRev));
    hops, edges := Reverse(hopsRev), Reverse(edgesRev);
    found := true;
  }

  ghost predicate WalkWithin(next: Node -> set<Edge>, from: Node, to: Node, depth: int) {
    exists p :: WalkTo(Step(next), {from}, p, to) && |p| - 1 <= depth
  }

  /** More nodes lie within the depth bound than the visit budget allows. */
  ghost predicate TooWide(next: Node -> set<Edge>, from: Node, budget: Budget)
    requires budget.maxDepth > 0
  {
    |Within(Step(next), {from}, budget.maxDepth)| > budget.maxVisitNodes
  }

  lemma NoWalk(next: Node -> set<Edge>, from: Node, to: Node, depth: nat)
    ensures to in Within(Step(next), {from}, depth) <==> WalkWithin(next, from, to, depth)
  {
    WithinIffWalk(Step(next), {from}, depth, to);
  }

  lemma PathIsWalk(next: Node -> set<Edge>, from: Node, to: Node, hops: seq<Node>, edges: seq<Edge>)
    requires IsPath(next, from, to, hops, edges)
    ensures WalkTo(Step(next), {from}, hops, to)
  {
    forall i | 0 <= i < |hops| - 1
      ensures hops[i + 1] in Step(next)(hops[i])
    {
      assert edges[i] in next(hops[i]) && edges[i].target == hops[i + 1];
    }
  }

  // -------- bfs and ShortestPath

  /** A path found by backtracking along exact labels is a shortest one. */
  lemma PathIsShortest(next: Node -> set<Edge>, from: Node, to: Node, dist: map<Node, nat>, hops: seq<Node>, edges: seq<Edge>)
    requires Exact(Step(next), {from}, dist) && to in dist
    requires IsPath(next, from, to, hops, edges) && |edges| == dist[to]
    ensures IsShortestPath(next, from, to, hops, edges)
  {
    assert AtDistance(Step(next), {from}, to, dist[to]);
    forall p | WalkTo(Step(next), {from}, p, to)
      ensures |edges| <= |p| - 1
    {
      NoShorterWalk(Step(next), {from}, to, dist[to], p);
    }
  }

  method Bfs(idx: Index, from: Node, to: Node, budget: Budget, undirected: bool)
    returns (hops: seq<Node>, edges: seq<Edge>, truncated: bool, found: bool)
    requires idx.Valid() && from != to
    requires budget.maxDepth > 0 && budget.maxVisitNodes > 0
    ensures !(found && truncated)
    ensures found ==>
      && IsShortestPath(EdgeMap(idx.deps, undirected), from, to, hops, edges)
      && 0 < |edges| <= budget.maxDepth
    ensures !found && !truncated ==> to !in Within(Step(EdgeMap(idx.deps, undirected)), {from}, budget.maxDepth)
    ensures truncated ==> |Within(Step(EdgeMap(idx.deps, undirected)), {from}, budget.maxDepth)| > budget.maxVisitNodes
  {
    hide Searching, Expanding, Expanded, EdgesOf;
    ghost var next := EdgeMap(idx.deps, undirected);
    var q := [Item(from, 0)];
    var parent: map<Node, Parent> := map[];
    var seen := {from};
    var visited := 0;
    ghost var dist: map<Node, nat>, done: set<Node> := map[from := 0], {};
    SearchStarts(next, from, budget.maxDepth);
    while |q| > 0
      invariant seen == dist.Keys && to !in dist
      invariant Searching(next, from, budget.maxDepth, q, dist, parent, done)
      invariant visited == |done| <= budget.maxVisitNodes
      decreases budget.maxVisitNodes - visited
    {
      Dequeue(next, from, budget.maxDepth, q, dist, parent, done);
      ghost var q0, dist0, parent0 := q, dist, parent;
      var cur := q[0];
      q := q[1..];
      visited := visited + 1;
      ghost var done0 := done;
      done := done + {cur.node};
      if visited > budget.maxVisitNodes {
        DoneWithin(next, from, budget.maxDepth, q0, dist0, parent0, done0);
        return [], [], true, false;
      }
      if cur.depth >= budget.maxDepth { continue; }
      var nbrs := idx.Neighbors(cur.node, undirected);
      EdgeShapes(idx.deps, undirected, cur.node);
      var hit;
      hit, seen, parent, q, dist := EnqueueNeighbors(to, cur, nbrs, seen, parent, q, next, from, dist, done);
      if hit {
        hops, edges, found := Reconstruct(from, to, parent, next, dist);
        PathIsShortest(next, from, to, dist, hops, edges);
        return hops, edges, false, found;
      }
      Requeue(next, from, budget.maxDepth, q0, dist0, parent0, done0, cur, q, dist, parent);
    }
    Exhausted(next, from, budget.maxDepth, dist, parent, done);
    return [], [], false, false;
  }

  /** Every known dotted file of a directory that s imports lies within two hops of s. */
  lemma TwoHopsWithin(g: Deps, undirected: bool, s: Node, f: Node, depth: int)
    requires s.File? && s in g.imports && Package(f.dir) in g.imports[s] && depth >= 2
    requires f.File? && '.' in f.name && f.dir != [] && (f in g.imports || f in g.files)
    ensures WalkWithin(EdgeMap(g, undirected), s, f, depth)
  {
    TwoHops(g, undirected, s, f);
  }

  method ShortestPath(idx: Index, from: Node, to: Node, limits: Budget, allowUndirected: bool) returns (res: PathResult)
    requires idx.Valid()
    ensures res.from == from && res.to == to
    // A reported path is a shortest walk of the graph it claims to be in ...
    ensures res.found ==>
      && from != ROOT && to != ROOT
      && IsShortestPath(EdgeMap(idx.deps, !res.directed), from, to, res.hops, res.edges)
      && res.length == |res.edges| <= WithPathDefaults(limits).maxDepth
    // ... a directed one whenever the directed search was not cut short ...
    ensures res.found && !res.directed ==> allowUndirected
    ensures res.found && !res.directed && !res.truncated ==>
      !WalkWithin(EdgeMap(idx.deps, false), from, to, WithPathDefaults(limits).maxDepth)
    // ... an untruncated miss means there is none within the depth ...
    ensures !res.found && !res.truncated && from != ROOT && to != ROOT ==>
      && !WalkWithin(EdgeMap(idx.deps, false), from, to, WithPathDefaults(limits).maxDepth)
      && (allowUndirected ==> !WalkWithin(EdgeMap(idx.deps, true), from, to, WithPathDefaults(limits).maxDepth))
    // ... and the answer is truncated only when more nodes lie in reach than may be visited.
    ensures res.truncated ==>
      || TooWide(EdgeMap(idx.deps, false), from, WithPathDefaults(limits))
      || (allowUndirected && TooWide(EdgeMap(idx.deps, true), from, WithPathDefaults(limits)))
    // In particular, when the region fits the budget the directed search decides reachability.
    ensures from != ROOT && to != ROOT && !TooWide(EdgeMap(idx.deps, false), from, WithPathDefaults(limits)) ==>
      (res.found && res.directed <==> WalkWithin(EdgeMap(idx.deps, false), from, to, WithPathDefaults(limits).maxDepth))
    ensures !res.found ==> res.hops == [] && res.edges == [] && res.length == 0
    // So does the undirected one, when it is allowed and its region fits.
    ensures from != ROOT && to != ROOT && allowUndirected && !TooWide(EdgeMap(idx.deps, true), from, WithPathDefaults(limits)) && !res.found ==>
      !WalkWithin(EdgeMap(idx.deps, true), from, to, WithPathDefaults(limits).maxDepth)
    // A node reaches itself, and no answer exceeds a depth the caller set.
    ensures from == to && from != ROOT ==> res.found && res.directed && !res.truncated && res.hops == [from] && res.length == 0
    ensures res.found && limits.maxDepth > 0 ==> res.length <= limits.maxDepth
    ensures res.truncated && limits.maxDepth > 0 && limits.maxVisitNodes > 0 ==>
      TooWide(EdgeMap(idx.deps, false), from, limits) || (allowUndirected && TooWide(EdgeMap(idx.deps, true), from, limits))
  {
    var budget := WithPathDefaults(limits);
    res := PathResult(from, to, false, true, [], [], 0, false);
    if from == ROOT || to == ROOT { return; }
    if from == to {
      res := res.(found := true, hops := [from]);
      PathIsWalk(EdgeMap(idx.deps, false), from, to, [from], []);
      return;
    }
    var hops, edges, trunc, ok := Bfs(idx, from, to, budget, false);
    NoWalk(EdgeMap(idx.deps, false), from, to, budget.maxDepth);
    if ok {
      PathIsWalk(EdgeMap(idx.deps, false), from, to, hops, edges);
      return res.(found := true, hops := hops, edges := edges, length := |edges|, truncated := trunc);
    }
    if trunc {
      res := res.(truncated := true);
    }
    if !allowUndirected { return; }
    var trunc2;
    hops, edges, trunc2, ok := Bfs(idx, from, to, budget, true);
    NoWalk(EdgeMap(idx.deps, true), from, to, budget.maxDepth);
    res := res.(truncated := res.truncated || trunc2);
    if ok {
      res := res.(found := true, directed := false, hops := hops, edges := edges, length := |edges|);
    }
  }
}
