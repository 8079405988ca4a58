/** The bounded neighbourhood walk, bfsWalk (internal/graph/graph.go): exact depths
    for the nodes it lists, and the edges it was allowed to keep. */
module WalkSearch {
  import opened Reachability
  import opened Graph
  import opened Basics

  type EdgeKey = (Node, Node, EdgeKind)

  function Key(e: Edge): EdgeKey {
    (e.source, e.target, e.kind)
  }

  /** The variables of bfsWalk. */
  datatype Walk = Walk(queue: seq<Item>, seen: set<Node>, depths: map<Node, nat>,
                       edges: seq<Edge>, edgeSeen: set<EdgeKey>, truncated: bool)

  function WithSubgraphDefaults(b: Budget): (r: Budget)
    ensures r.maxDepth > 0 && r.maxVisitNodes > 0 && r.maxEdgesOut > 0
    ensures if b.maxDepth > 0 then r.maxDepth == b.maxDepth else r.maxDepth == 2
    ensures if b.maxVisitNodes > 0 then r.maxVisitNodes == b.maxVisitNodes else r.maxVisitNodes == 10_000
    ensures if b.maxEdgesOut > 0 then r.maxEdgesOut == b.maxEdgesOut else r.maxEdgesOut == 500
  {
    Budget(if b.maxDepth <= 0 then 2 else b.maxDepth,
           if b.maxVisitNodes <= 0 then 10000 else b.maxVisitNodes,
           if b.maxEdgesOut <= 0 then 500 else b.maxEdgesOut)
  }

  /** Edges start at the node that lists them and are told apart by their key. */
  ghost predicate Keyed(next: Node -> set<Edge>) {
    && (forall n, e :: e in next(n) ==> e.source == n)
    && (forall n, e, e' :: e in next(n) && e' in next(n) && Key(e) == Key(e') ==> e == e')
  }

  lemma EdgeMapKeyed(g: Deps, undirected: bool)
    ensures Keyed(EdgeMap(g, undirected))
  {
    hide EdgesOf;
    forall n, e | e in EdgesOf(g, undirected, n)
      ensures e.source == n && (e.reverse <==> (n.Package? <==> e.kind.Imports?))
    {
      EdgeShape(g, undirected, n, e);
    }
  }

  /** A package is imported or contains; a file imports or is contained. */
  lemma EdgeShape(g: Deps, undirected: bool, n: Node, e: Edge)
    requires e in EdgesOf(g, undirected, n)
    ensures e.source == n && (e.reverse <==> (n.Package? <==> e.kind.Imports?))
  {}

  // -------- what the walk keeps

  /** Listed depths are exact, except that a seed may carry 1 instead of 0. */
  ghost predicate LabelsOk(start: set<Node>, w: Walk, dist: map<Node, nat>, done: set<Node>) {
    && w.seen == dist.Keys
    && w.depths.Keys <= dist.Keys
    && done <= w.depths.Keys
    && (forall n :: n in dist && n !in start ==> n in w.depths && w.depths[n] == dist[n])
    && (forall n :: n in start && n in dist ==> dist[n] == 0)
    && (forall n :: n in start && n in w.depths ==> w.depths[n] <= 1)
  }

  ghost predicate EdgesOk(next: Node -> set<Edge>, budget: Budget, w: Walk, dist: map<Node, nat>, done: set<Node>) {
    && |w.edges| <= budget.maxEdgesOut
    && (w.truncated ==> |w.edges| == budget.maxEdgesOut)
    && (forall i, j :: 0 <= i < j < |w.edges| ==> Key(w.edges[i]) != Key(w.edges[j]))
    && (forall e :: e in w.edges ==>
          && e.source in done && e.source in dist && dist[e.source] < budget.maxDepth
          && e in next(e.source) && e.target in w.depths && Key(e) in w.edgeSeen)
    && (!w.truncated ==> forall k :: k in w.edgeSeen ==> exists e :: e in w.edges && Key(e) == k)
  }

  /** All of n's edges were kept and their targets labelled. */
  ghost predicate Kept(next: Node -> set<Edge>, w: Walk, n: Node) {
    forall e :: e in next(n) ==> e in w.edges && e.target in w.seen
  }

  ghost predicate Walking(next: Node -> set<Edge>, start: set<Node>, budget: Budget, w: Walk, dist: map<Node, nat>, done: set<Node>) {
    && Exact(Step(next), start, dist)
    && QueueOk(w.queue, dist, done)
    && (forall n :: n in dist ==> dist[n] <= budget.maxDepth)
    && LabelsOk(start, w, dist, done)
    && EdgesOk(next, budget, w, dist, done)
    && (!w.truncated ==> forall n {:trigger Kept(next, w, n)} :: n in done && dist[n] < budget.maxDepth ==> Kept(next, w, n))
  }

  /** ... and while the edges of the dequeued item `cur` are being scanned. */
  ghost predicate Scanning(next: Node -> set<Edge>, start: set<Node>, budget: Budget, cur: Item, w: Walk,
                           dist: map<Node, nat>, done: set<Node>) {
    && Exact(Step(next), start, dist)
    && QueueOk(w.queue, dist, done)
    && (forall n :: n in dist ==> dist[n] <= budget.maxDepth)
    && LabelsOk(start, w, dist, done)
    && EdgesOk(next, budget, w, dist, done)
    && cur.node in done && cur.node in dist && dist[cur.node] == cur.depth < budget.maxDepth
    && (forall i :: 0 <= i < |w.queue| ==> cur.depth <= w.queue[i].depth <= cur.depth + 1)
    && (forall n :: n in done ==> n in dist && dist[n] <= cur.depth)
    && (!w.truncated ==> Within(Step(next), start, cur.depth) <= dist.Keys)
    && (!w.truncated ==> forall n {:trigger Kept(next, w, n)} :: n in done && n != cur.node && dist[n] < budget.maxDepth ==> Kept(next, w, n))
  }

  /** An edge kept under the cap: its target is listed, at the next depth unless it already was. */
  function Append(w: Walk, cur: Item, edge: Edge): Walk {
    w.(edges := w.edges + [edge], edgeSeen := w.edgeSeen + {Key(edge)},
       depths := if edge.target in w.depths then w.depths else w.depths[edge.target := cur.depth + 1])
  }

  lemma EdgesPush(next: Node -> set<Edge>, budget: Budget, w: Walk, dist: map<Node, nat>, done: set<Node>, cur: Item, edge: Edge)
    requires EdgesOk(next, budget, w, dist, done)
    requires cur.node in done && cur.node in dist && dist[cur.node] < budget.maxDepth
    requires edge in next(cur.node) && edge.source == cur.node
    requires Key(edge) !in w.edgeSeen && |w.edges| < budget.maxEdgesOut
    ensures EdgesOk(next, budget, Append(w, cur, edge), dist, done)
  {
    var w' := Append(w, cur, edge);
    assert forall e :: e in w'.edges <==> e in w.edges || e == edge;
    forall i, j | 0 <= i < j < |w'.edges|
      ensures Key(w'.edges[i]) != Key(w'.edges[j])
    {
      assert w'.edges[i] in w.edges;
    }
    forall k | k in w'.edgeSeen
      ensures exists e :: e in w'.edges && Key(e) == k
    {
      if k in w.edgeSeen {
        var e :| e in w.edges && Key(e) == k;
        assert e in w'.edges;
      } else {
        assert edge in w'.edges;
      }
    }
  }

  /** Growing the labels and the queue touches no recorded edge. */
  lemma EdgesRelabel(next: Node -> set<Edge>, budget: Budget, w: Walk, w': Walk, dist: map<Node, nat>, dist': map<Node, nat>, done: set<Node>)
    requires EdgesOk(next, budget, w, dist, done)
    requires w'.edges == w.edges && w'.edgeSeen == w.edgeSeen && w'.truncated == w.truncated && w'.depths == w.depths
    requires forall n :: n in dist ==> n in dist' && dist'[n] == dist[n]
    ensures EdgesOk(next, budget, w', dist', done)
  {}

  lemma KeptGrows(next: Node -> set<Edge>, w: Walk, w': Walk, n: Node)
    requires Kept(next, w, n) && w.edges <= w'.edges && w.seen <= w'.seen
    ensures Kept(next, w', n)
  {
    forall e | e in next(n)
      ensures e in w'.edges
    {
      var i :| 0 <= i < |w.edges| && w.edges[i] == e;
      assert w'.edges[i] == e;
    }
  }

  /** A key seen before means the edge was kept, or the cap was hit: nothing changes. */
  lemma AlreadySeen(next: Node -> set<Edge>, start: set<Node>, budget: Budget, cur: Item, w: Walk,
                    dist: map<Node, nat>, done: set<Node>, edge: Edge)
    requires Keyed(next) && edge in next(cur.node) && Scanning(next, start, budget, cur, w, dist, done)
    requires Key(edge) in w.edgeSeen && !w.truncated
    ensures edge in w.edges && edge.target in w.seen
  {
    var e :| e in w.edges && Key(e) == Key(edge);
    assert e in next(e.source) && e.source == edge.source == cur.node;
  }

  lemma Capped(next: Node -> set<Edge>, start: set<Node>, budget: Budget, cur: Item, w: Walk,
               dist: map<Node, nat>, done: set<Node>, edge: Edge)
    requires Scanning(next, start, budget, cur, w, dist, done)
    requires |w.edges| >= budget.maxEdgesOut
    ensures Scanning(next, start, budget, cur, w.(edgeSeen := w.edgeSeen + {Key(edge)}, truncated := true), dist, done)
  {}

  lemma KeepKept(next: Node -> set<Edge>, budget: Budget, cur: Item, w: Walk, w': Walk, dist: map<Node, nat>, dist': map<Node, nat>, done: set<Node>)
    requires forall n :: n in done ==> n in dist && n in dist' && dist'[n] == dist[n]
    requires forall n {:trigger Kept(next, w, n)} :: n in done && n != cur.node && dist[n] < budget.maxDepth ==> Kept(next, w, n)
    requires w.edges <= w'.edges && w.seen <= w'.seen
    ensures forall n {:trigger Kept(next, w', n)} :: n in done && n != cur.node && dist'[n] < budget.maxDepth ==> Kept(next, w', n)
  {
    forall n | n in done && n != cur.node && dist'[n] < budget.maxDepth
      ensures Kept(next, w', n)
    {
      assert Kept(next, w, n);
      KeptGrows(next, w, w', n);
    }
  }

  /** A labelled but unlisted target is a seed still waiting, so cur is a seed too. */
  lemma LabelsKnown(start: set<Node>, w: Walk, dist: map<Node, nat>, done: set<Node>, cur: Item, edge: Edge)
    requires LabelsOk(start, w, dist, done) && QueueOk(w.queue, dist, done) && edge.target in w.seen
    requires forall i :: 0 <= i < |w.queue| ==> cur.depth <= w.queue[i].depth
    ensures LabelsOk(start, Append(w, cur, edge), dist, done)
  {
    if edge.target !in w.depths {
      assert edge.target in start && edge.target !in done;
      assert Queued(w.queue, edge.target);
      var i :| 0 <= i < |w.queue| && w.queue[i].node == edge.target;
      assert cur.depth == 0;
    }
  }

  lemma AppendKnown(next: Node -> set<Edge>, start: set<Node>, budget: Budget, cur: Item, w: Walk,
                    dist: map<Node, nat>, done: set<Node>, edge: Edge)
    requires Keyed(next) && edge in next(cur.node) && Scanning(next, start, budget, cur, w, dist, done)
    requires Key(edge) !in w.edgeSeen && |w.edges| < budget.maxEdgesOut && edge.target in w.seen
    ensures Scanning(next, start, budget, cur, Append(w, cur, edge), dist, done)
  {
    hide QueueOk, LabelsOk, EdgesOk, Exact, Kept;
    var w' := Append(w, cur, edge);
    EdgesPush(next, budget, w, dist, done, cur, edge);
    LabelsKnown(start, w, dist, done, cur, edge);
    if !w.truncated { KeepKept(next, budget, cur, w, w', dist, dist, done); }
  }

  lemma LabelsPush(start: set<Node>, w: Walk, dist: map<Node, nat>, done: set<Node>, cur: Item, edge: Edge)
    requires LabelsOk(start, w, dist, done) && edge.target !in w.seen && start <= dist.Keys
    ensures LabelsOk(start, Append(w, cur, edge).(seen := w.seen + {edge.target}, queue := w.queue + [Item(edge.target, cur.depth + 1)]),
                     dist[edge.target := cur.depth + 1], done)
  {}

  lemma AppendNew(next: Node -> set<Edge>, start: set<Node>, budget: Budget, cur: Item, w: Walk,
                  dist: map<Node, nat>, done: set<Node>, edge: Edge)
    requires Keyed(next) && edge in next(cur.node) && Scanning(next, start, budget, cur, w, dist, done)
    requires Key(edge) !in w.edgeSeen && |w.edges| < budget.maxEdgesOut && edge.target !in w.seen
    ensures
      var t := edge.target;
      var w' := Append(w, cur, edge).(seen := w.seen + {t}, queue := w.queue + [Item(t, cur.depth + 1)]);
      Scanning(next, start, budget, cur, w', dist[t := cur.depth + 1], done)
  {
    hide QueueOk, EdgesOk, Kept, LabelsOk, AtDistance;
    var t, dist' := edge.target, dist[edge.target := cur.depth + 1];
    var w1 := Append(w, cur, edge);
    var w' := w1.(seen := w.seen + {t}, queue := w.queue + [Item(t, cur.depth + 1)]);
    ScanFacts(next, start, budget, cur, w, dist, done);
    EdgesPush(next, budget, w, dist, done, cur, edge);
    EdgesRelabel(next, budget, w1, w', dist, dist', done);
    assert t in Step(next)(cur.node);
    ExactPush(Step(next), start, dist, cur.node, t);
    QueuePush(w.queue, dist, done, cur.depth, t);
    LabelsPush(start, w, dist, done, cur, edge);
    KeepKept(next, budget, cur, w, w', dist, dist', done);
  }

  method VisitEdge(w: Walk, cur: Item, edge: Edge, budget: Budget, ghost next: Node -> set<Edge>, ghost start: set<Node>,
                   ghost dist: map<Node, nat>, ghost done: set<Node>)
    returns (w': Walk, ghost dist': map<Node, nat>)
    requires Keyed(next) && edge in next(cur.node)
    requires Scanning(next, start, budget, cur, w, dist, done)
    ensures Scanning(next, start, budget, cur, w', dist', done)
    ensures !w'.truncated ==> edge in w'.edges && edge.target in w'.seen
    ensures w.seen <= w'.seen && w.queue <= w'.queue && (w.truncated ==> w'.truncated)
    ensures || (w'.edges == w.edges && w'.depths == w.depths)
            || (w'.edges == w.edges + [edge] && w'.depths == Append(w, cur, edge).depths)
  {
    hide Scanning, Keyed;
    ScanFacts(next, start, budget, cur, w, dist, done);
    w', dist' := w, dist;
    if Key(edge) in w.edgeSeen {
      if !w.truncated { AlreadySeen(next, start, budget, cur, w, dist, done, edge); }
    } else {
      w' := w'.(edgeSeen := w.edgeSeen + {Key(edge)});
      if |w.edges| >= budget.maxEdgesOut {
        Capped(next, start, budget, cur, w, dist, done, edge);
        w' := w'.(truncated := true);
      } else {
        w' := w'.(edges := w.edges + [edge]);
        if edge.target !in w.depths {
          w' := w'.(depths := w.depths[edge.target := cur.depth + 1]);
        }
        assert w' == Append(w, cur, edge);
      }
    }
    if edge.target in w'.seen {
      if w'.edges != w.edges { AppendKnown(next, start, budget, cur, w, dist, done, edge); }
      return;
    }
    if w'.truncated && |w'.edges| >= budget.maxEdgesOut { return; }
    AppendNew(next, start, budget, cur, w, dist, done, edge);
    w' := w'.(seen := w'.seen + {edge.target}, queue := w'.queue + [Item(edge.target, cur.depth + 1)]);
    dist' := dist[edge.target := cur.depth + 1];
  }

  lemma ScanFacts(next: Node -> set<Edge>, start: set<Node>, budget: Budget, cur: Item, w: Walk, dist: map<Node, nat>, done: set<Node>)
    requires Scanning(next, start, budget, cur, w, dist, done)
    ensures w.truncated ==> |w.edges| == budget.maxEdgesOut
    ensures |w.edges| <= budget.maxEdgesOut && w.seen == dist.Keys && start <= dist.Keys
  {}

  // -------- the depth recorded for a seed

  /** Some earlier seed has a recorded edge to seed j. */
  ghost predicate HitByEarlierSeed(seeds: seq<Node>, edges: seq<Edge>, j: int)
    requires 0 <= j < |seeds|
  {
    exists i, e :: 0 <= i < j && e in edges && e.source == seeds[i] && e.target == seeds[j]
  }

  ghost predicate TargetOf(edges: seq<Edge>, n: Node) {
    exists e :: e in edges && e.target == n
  }

  ghost predicate SeedsOk(seeds: seq<Node>, w: Walk, done: set<Node>, visited: nat) {
    && (forall j :: 0 <= j < |seeds| ==> (seeds[j] in done <==> j < visited))
    && (visited <= |seeds| ==> forall n :: n in done ==> n in seeds[..visited])
    && |seeds| - visited <= |w.queue|
    && (forall t :: 0 <= t < |seeds| - visited ==> w.queue[t].node == seeds[visited + t])
    && (forall j :: visited <= j < |seeds| ==>
          if TargetOf(w.edges, seeds[j]) then seeds[j] in w.depths && w.depths[seeds[j]] == 1 else seeds[j] !in w.depths)
    && (forall j :: 0 <= j < visited && j < |seeds| ==>
          && seeds[j] in w.depths
          && w.depths[seeds[j]] == if HitByEarlierSeed(seeds, w.edges, j) then 1 else 0)
  }

  function Dequeued(w: Walk): Walk
    requires w.queue != []
  {
    var cur := w.queue[0];
    w.(queue := w.queue[1..], depths := if cur.node in w.depths then w.depths else w.depths[cur.node := cur.depth])
  }

  /** While seeds still wait, only earlier seeds have recorded edges. */
  lemma HitIffTarget(seeds: seq<Node>, edges: seq<Edge>, done: set<Node>, visited: nat)
    requires visited < |seeds| && NoRepeats(seeds)
    requires forall n :: n in done ==> n in seeds[..visited]
    requires forall e :: e in edges ==> e.source in done
    ensures HitByEarlierSeed(seeds, edges, visited) <==> TargetOf(edges, seeds[visited])
  {
    if e :| e in edges && e.target == seeds[visited] {
      var i :| 0 <= i < visited && seeds[..visited][i] == e.source;
      assert e.source == seeds[i];
    }
  }

  lemma SeedsDequeue(seeds: seq<Node>, w: Walk, done: set<Node>, visited: nat)
    requires SeedsOk(seeds, w, done, visited) && w.queue != [] && w.queue[0].node !in done
    requires forall e :: e in w.edges ==> e.source in done
    requires w.queue[0].node in seeds ==> w.queue[0].depth == 0
    requires NoRepeats(seeds)
    ensures SeedsOk(seeds, Dequeued(w), done + {w.queue[0].node}, visited + 1)
    ensures if visited < |seeds| then w.queue[0].node == seeds[visited] && w.queue[0].depth == 0 else w.queue[0].node !in seeds
  {
    hide HitByEarlierSeed, TargetOf;
    var cur, w' := w.queue[0], Dequeued(w);
    assert forall t :: 0 <= t < |w'.queue| ==> w'.queue[t] == w.queue[t + 1];
    if visited < |seeds| {
      assert cur.node == seeds[visited + 0];
      assert seeds[..visited + 1] == seeds[..visited] + [cur.node];
      HitIffTarget(seeds, w.edges, done, visited);
    } else {
      assert cur.node !in seeds;
    }
  }

  lemma SeedsVisit(seeds: seq<Node>, w: Walk, w': Walk, cur: Item, edge: Edge, done: set<Node>, visited: nat)
    requires SeedsOk(seeds, w, done, visited) && w.queue <= w'.queue
    requires || (w'.edges == w.edges && w'.depths == w.depths)
             || (w'.edges == w.edges + [edge] && w'.depths == Append(w, cur, edge).depths)
    requires edge.source == cur.node && cur.node in done && visited > 0
    requires visited <= |seeds| ==> cur.node == seeds[visited - 1] && cur.depth == 0
    requires visited > |seeds| ==> cur.node !in seeds
    requires NoRepeats(seeds)
    ensures SeedsOk(seeds, w', done, visited)
  {
    if w'.edges == w.edges { return; }
    assert forall e :: e in w'.edges <==> e in w.edges || e == edge;
    forall j | 0 <= j < visited && j < |seeds|
      ensures HitByEarlierSeed(seeds, w'.edges, j) <==> HitByEarlierSeed(seeds, w.edges, j)
    {
      if i, e :| 0 <= i < j && e in w.edges && e.source == seeds[i] && e.target == seeds[j] {
        assert e in w'.edges;
      }
    }
    forall j | visited <= j < |seeds|
      ensures TargetOf(w'.edges, seeds[j]) <==> TargetOf(w.edges, seeds[j]) || edge.target == seeds[j]
    {
      assert edge in w'.edges;
    }
  }

  // -------- one turn of the loop

  lemma WalkStarts(next: Node -> set<Edge>, seeds: seq<Node>, start: set<Node>, budget: Budget, w: Walk, dist: map<Node, nat>)
    requires budget.maxDepth > 0 && budget.maxEdgesOut > 0
    requires NoRepeats(seeds)
    requires start == (set s | s in seeds) && dist == map s | s in start :: 0
    requires |w.queue| == |seeds| && forall i :: 0 <= i < |seeds| ==> w.queue[i] == Item(seeds[i], 0)
    requires w == Walk(w.queue, start, map[], [], {}, false)
    ensures Walking(next, start, budget, w, dist, {}) && SeedsOk(seeds, w, {}, 0)
  {
    forall n | n in dist
      ensures AtDistance(Step(next), start, n, dist[n]) && Queued(w.queue, n)
    {
      var i :| 0 <= i < |seeds| && seeds[i] == n;
      assert w.queue[i].node == n;
    }
  }

  /** Uncut, everything nearer than the next item has been expanded, so its layer is complete. */
  lemma NearerCovered(next: Node -> set<Edge>, start: set<Node>, budget: Budget, w: Walk, dist: map<Node, nat>, done: set<Node>)
    requires Walking(next, start, budget, w, dist, done) && w.queue != [] && !w.truncated
    ensures Within(Step(next), start, w.queue[0].depth) <= dist.Keys
  {
    hide Exact, Within, EdgesOk, Layered;
    forall n | n in dist && dist[n] < w.queue[0].depth
      ensures Expanded(Step(next), dist, n)
    {
      NearerIsDone(w.queue, dist, done, n);
      assert Kept(next, w, n);
    }
    LayersComplete(Step(next), start, dist, w.queue[0].depth);
  }

  lemma WalkDequeue(next: Node -> set<Edge>, start: set<Node>, budget: Budget, w: Walk, dist: map<Node, nat>, done: set<Node>)
    requires Walking(next, start, budget, w, dist, done) && w.queue != []
    ensures w.queue[0].node !in done && (w.queue[0].node in start ==> w.queue[0].depth == 0)
    ensures forall e :: e in w.edges ==> e.source in done
    ensures w.queue[0].depth < budget.maxDepth ==>
      Scanning(next, start, budget, w.queue[0], Dequeued(w), dist, done + {w.queue[0].node})
    ensures w.queue[0].depth >= budget.maxDepth ==>
      Walking(next, start, budget, Dequeued(w), dist, done + {w.queue[0].node})
  {
    var cur, w' := w.queue[0], Dequeued(w);
    var done' := done + {cur.node};
    QueuePop(w.queue, dist, done);
    if !w.truncated {
      NearerCovered(next, start, budget, w, dist, done);
    }
    hide Exact, Within, Step, Layered;
    if !w.truncated {
      forall n | n in done && dist[n] < budget.maxDepth
        ensures Kept(next, w', n)
      {
        assert Kept(next, w, n);
      }
    }
  }

  lemma WalkRequeue(next: Node -> set<Edge>, start: set<Node>, budget: Budget, cur: Item, w: Walk, dist: map<Node, nat>, done: set<Node>)
    requires Scanning(next, start, budget, cur, w, dist, done)
    requires !w.truncated ==> Kept(next, w, cur.node)
    ensures Walking(next, start, budget, w, dist, done)
  {}

  // -------- what a caller may rely on

  ghost function Seeds(seeds: seq<Node>): set<Node> {
    set s | s in seeds
  }

  /** True of every answer, cut short or not. */
  ghost predicate Sound(next: Node -> set<Edge>, seeds: seq<Node>, budget: Budget, depths: map<Node, nat>, edges: seq<Edge>)
    requires budget.maxDepth > 0
  {
    // every listed node is within the depth; its depth is exact unless it is a seed
    && (forall n :: n in depths ==> n in Within(Step(next), Seeds(seeds), budget.maxDepth))
    && (forall n :: n in depths && n !in seeds ==> AtDistance(Step(next), Seeds(seeds), n, depths[n]))
    // a seed carries 1 instead of 0 exactly when an earlier seed has a recorded edge to it
    && (forall j :: 0 <= j < |seeds| && seeds[j] in depths ==>
          depths[seeds[j]] == if HitByEarlierSeed(seeds, edges, j) then 1 else 0)
    // edges are distinct, capped, real, leave nodes nearer than the bound, and join listed nodes
    && |edges| <= budget.maxEdgesOut
    && (forall i, j :: 0 <= i < j < |edges| ==> Key(edges[i]) != Key(edges[j]))
    && (forall e :: e in edges ==>
          && e in next(e.source) && e.source in depths && e.target in depths
          && e.source in Within(Step(next), Seeds(seeds), budget.maxDepth - 1))
  }

  /** True of an answer that was not cut short. */
  ghost predicate Complete(next: Node -> set<Edge>, seeds: seq<Node>, budget: Budget, depths: map<Node, nat>, edges: seq<Edge>)
    requires budget.maxDepth > 0
  {
    && depths.Keys == Within(Step(next), Seeds(seeds), budget.maxDepth)
    && (forall e: Edge :: e in edges <==> e.source in Within(Step(next), Seeds(seeds), budget.maxDepth - 1) && e in next(e.source))
  }

  lemma LabelWithin(next: Node -> set<Edge>, start: set<Node>, dist: map<Node, nat>, n: Node, k: nat)
    requires Exact(Step(next), start, dist) && n in dist
    ensures dist[n] <= k <==> n in Within(Step(next), start, k)
  {
    assert AtDistance(Step(next), start, n, dist[n]);
    if dist[n] <= k {
      WithinGrows(Step(next), start, dist[n], k);
    } else {
      WithinGrows(Step(next), start, k, dist[n] - 1);
    }
  }

  lemma SeedDepths(seeds: seq<Node>, w: Walk, done: set<Node>, visited: nat)
    requires SeedsOk(seeds, w, done, visited) && forall e :: e in w.edges ==> e.source in done
    ensures forall j :: 0 <= j < |seeds| && seeds[j] in w.depths ==>
      w.depths[seeds[j]] == if HitByEarlierSeed(seeds, w.edges, j) then 1 else 0
  {
    forall j | visited <= j < |seeds| && TargetOf(w.edges, seeds[j])
      ensures HitByEarlierSeed(seeds, w.edges, j)
    {
      var e :| e in w.edges && e.target == seeds[j];
      var i :| 0 <= i < visited && seeds[..visited][i] == e.source;
      assert seeds[i] == e.source;
    }
  }

  lemma SeedDepthsOk(seeds: seq<Node>, next: Node -> set<Edge>, budget: Budget, w: Walk, dist: map<Node, nat>, done: set<Node>, visited: nat)
    requires Walking(next, Seeds(seeds), budget, w, dist, done) && SeedsOk(seeds, w, done, visited)
    ensures forall j :: 0 <= j < |seeds| && seeds[j] in w.depths ==>
      w.depths[seeds[j]] == if HitByEarlierSeed(seeds, w.edges, j) then 1 else 0
  {
    hide Exact, QueueOk, SeedsOk, HitByEarlierSeed, TargetOf;
    SeedDepths(seeds, w, done, visited);
  }

  lemma WalkIsSound(next: Node -> set<Edge>, seeds: seq<Node>, budget: Budget, w: Walk, dist: map<Node, nat>, done: set<Node>, visited: nat)
    requires budget.maxDepth > 0
    requires Walking(next, Seeds(seeds), budget, w, dist, done) && SeedsOk(seeds, w, done, visited)
    ensures Sound(next, seeds, budget, w.depths, w.edges)
    ensures w.truncated ==> |w.edges| == budget.maxEdgesOut
  {
    SeedDepthsOk(seeds, next, budget, w, dist, done, visited);
    NodesWithin(next, seeds, budget, w, dist, done);
    EdgesWithin(next, seeds, budget, w, dist, done);
    hide QueueOk, SeedsOk, HitByEarlierSeed, TargetOf, Step, Within, AtDistance, Exact;
  }

  lemma NodesWithin(next: Node -> set<Edge>, seeds: seq<Node>, budget: Budget, w: Walk, dist: map<Node, nat>, done: set<Node>)
    requires budget.maxDepth > 0 && Walking(next, Seeds(seeds), budget, w, dist, done)
    ensures forall n :: n in w.depths ==> n in Within(Step(next), Seeds(seeds), budget.maxDepth)
    ensures forall n :: n in w.depths && n !in seeds ==> AtDistance(Step(next), Seeds(seeds), n, w.depths[n])
  {
    hide QueueOk, TargetOf, Step, Within, AtDistance, EdgesOk;
    forall n | n in w.depths
      ensures n in Within(Step(next), Seeds(seeds), budget.maxDepth)
      ensures n !in seeds ==> AtDistance(Step(next), Seeds(seeds), n, w.depths[n])
    {
      LabelWithin(next, Seeds(seeds), dist, n, budget.maxDepth);
      assert AtDistance(Step(next), Seeds(seeds), n, dist[n]);
    }
  }

  lemma EdgesWithin(next: Node -> set<Edge>, seeds: seq<Node>, budget: Budget, w: Walk, dist: map<Node, nat>, done: set<Node>)
    requires budget.maxDepth > 0 && Walking(next, Seeds(seeds), budget, w, dist, done)
    ensures forall e :: e in w.edges ==> e.source in Within(Step(next), Seeds(seeds), budget.maxDepth - 1)
  {
    hide QueueOk, TargetOf, Step, Within, AtDistance, Exact, LabelsOk;
    forall e | e in w.edges
      ensures e.source in Within(Step(next), Seeds(seeds), budget.maxDepth - 1)
    {
      LabelWithin(next, Seeds(seeds), dist, e.source, budget.maxDepth - 1);
    }
  }

  /** Every node dequeued so far, and the next one, lies within the depth bound. */
  lemma VisitedWithin(next: Node -> set<Edge>, start: set<Node>, budget: Budget, w: Walk, dist: map<Node, nat>, done: set<Node>)
    requires Walking(next, start, budget, w, dist, done) && w.queue != [] && budget.maxDepth >= 0
    ensures |done| + 1 <= |Within(Step(next), start, budget.maxDepth)|
  {
    var reached := done + {w.queue[0].node};
    forall n | n in reached
      ensures n in Within(Step(next), start, budget.maxDepth)
    {
      LabelWithin(next, start, dist, n, budget.maxDepth);
    }
    SubsetSize(reached, Within(Step(next), start, budget.maxDepth));
  }

  /** With nothing left to dequeue every label nearer than the bound has been expanded. */
  lemma AllKept(next: Node -> set<Edge>, start: set<Node>, budget: Budget, w: Walk, dist: map<Node, nat>, done: set<Node>)
    requires Keyed(next) && Walking(next, start, budget, w, dist, done)
    requires w.queue == [] && !w.truncated
    ensures done == dist.Keys
    ensures forall n {:trigger Kept(next, w, n)} {:trigger Expanded(Step(next), dist, n)} ::
      n in dist && dist[n] < budget.maxDepth ==> Kept(next, w, n) && Expanded(Step(next), dist, n)
  {
    hide Exact, Within, EdgesOk;
    forall n | n in dist
      ensures n in done && (dist[n] < budget.maxDepth ==> Kept(next, w, n) && Expanded(Step(next), dist, n))
    {
      NearerIsDone([], dist, done, n);
    }
  }

  /** Exact labels covering the depth: being labelled, and labelled nearer than it, is being in reach. */
  lemma LabelsReach(next: Node -> set<Edge>, start: set<Node>, budget: Budget, dist: map<Node, nat>)
    requires budget.maxDepth > 0 && Exact(Step(next), start, dist) && forall n :: n in dist ==> dist[n] <= budget.maxDepth
    requires forall n {:trigger Expanded(Step(next), dist, n)} :: n in dist && dist[n] < budget.maxDepth ==> Expanded(Step(next), dist, n)
    ensures dist.Keys == Within(Step(next), start, budget.maxDepth)
    ensures forall n :: n in Within(Step(next), start, budget.maxDepth - 1) <==> n in dist && dist[n] < budget.maxDepth
  {
    hide Exact, Step, Within, Expanded;
    LayersComplete(Step(next), start, dist, budget.maxDepth);
    WithinGrows(Step(next), start, budget.maxDepth - 1, budget.maxDepth);
    forall n | n in dist
      ensures n in Within(Step(next), start, budget.maxDepth)
      ensures dist[n] < budget.maxDepth <==> n in Within(Step(next), start, budget.maxDepth - 1)
    {
      LabelWithin(next, start, dist, n, budget.maxDepth);
      LabelWithin(next, start, dist, n, budget.maxDepth - 1);
    }
  }

  lemma WalkIsComplete(next: Node -> set<Edge>, seeds: seq<Node>, budget: Budget, w: Walk, dist: map<Node, nat>, done: set<Node>, visited: nat)
    requires budget.maxDepth > 0 && Keyed(next)
    requires Walking(next, Seeds(seeds), budget, w, dist, done) && SeedsOk(seeds, w, done, visited)
    requires w.queue == [] && !w.truncated
    ensures Complete(next, seeds, budget, w.depths, w.edges)
  {
    hide Exact, SeedsOk, Step, Within, QueueOk, Keyed, Seeds, Key, Expanded;
    AllKept(next, Seeds(seeds), budget, w, dist, done);
    LabelsReach(next, Seeds(seeds), budget, dist);
    forall e: Edge | e.source in Within(Step(next), Seeds(seeds), budget.maxDepth - 1) && e in next(e.source)
      ensures e in w.edges
    {
      assert Kept(next, w, e.source);
    }
  }

  /** The inner loop of bfsWalk: every edge of the dequeued item, in order. */
  method ScanNeighbors(w: Walk, cur: Item, nbrs: seq<Edge>, budget: Budget, ghost next: Node -> set<Edge>, ghost seeds: seq<Node>,
                       ghost dist: map<Node, nat>, ghost done: set<Node>, ghost visited: nat)
    returns (w': Walk, ghost dist': map<Node, nat>)
    requires Keyed(next) && forall e :: e in nbrs <==> e in next(cur.node)
    requires Scanning(next, Seeds(seeds), budget, cur, w, dist, done) && SeedsOk(seeds, w, done, visited)
    requires NoRepeats(seeds) && cur.node in done && visited > 0
    requires if visited <= |seeds| then cur.node == seeds[visited - 1] && cur.depth == 0 else cur.node !in seeds
    ensures Walking(next, Seeds(seeds), budget, w', dist', done) && SeedsOk(seeds, w', done, visited)
  {
    hide Walking, Scanning, SeedsOk;
    w', dist' := w, dist;
    for k := 0 to |nbrs|
      invariant Scanning(next, Seeds(seeds), budget, cur, w', dist', done) && SeedsOk(seeds, w', done, visited)
      invariant !w'.truncated ==> forall i :: 0 <= i < k ==> nbrs[i] in w'.edges && nbrs[i].target in w'.seen
    {
      ghost var before := w';
      w', dist' := VisitEdge(w', cur, nbrs[k], budget, next, Seeds(seeds), dist', done);
      SeedsVisit(seeds, before, w', cur, nbrs[k], done, visited);
    }
    WalkRequeue(next, Seeds(seeds), budget, cur, w', dist', done);
  }

  method SeedQueue(seeds: seq<Node>) returns (w: Walk)
    ensures w == Walk(w.queue, Seeds(seeds), map[], [], {}, false)
    ensures |w.queue| == |seeds| && forall i :: 0 <= i < |seeds| ==> w.queue[i] == Item(seeds[i], 0)
  {
    w := Walk([], {}, map[], [], {}, false);
    for i := 0 to |seeds|
      invariant w == Walk(w.queue, Seeds(seeds[..i]), map[], [], {}, false)
      invariant |w.queue| == i && forall k :: 0 <= k < i ==> w.queue[k] == Item(seeds[k], 0)
    {
      w := w.(seen := w.seen + {seeds[i]}, queue := w.queue + [Item(seeds[i], 0)]);
    }
    assert seeds[..|seeds|] == seeds;
  }

  method BfsWalk(idx: Index, seeds: seq<Node>, budget: Budget, inbound: bool)
    returns (depths: map<Node, nat>, edges: seq<Edge>, truncated: bool)
    requires idx.Valid() && NoRepeats(seeds)
    requires budget.maxDepth > 0 && budget.maxVisitNodes > 0 && budget.maxEdgesOut > 0
    ensures Sound(EdgeMap(idx.deps, inbound), seeds, budget, depths, edges)
    ensures !truncated ==> Complete(EdgeMap(idx.deps, inbound), seeds, budget, depths, edges)
    ensures truncated ==>
      || |edges| == budget.maxEdgesOut
      || |Within(Step(EdgeMap(idx.deps, inbound)), Seeds(seeds), budget.maxDepth)| > budget.maxVisitNodes
  {
    hide Walking, Scanning, SeedsOk, Sound, Complete, EdgesOf, Kept, Within, Keyed, HitByEarlierSeed, Step, Index.Valid, EdgeMap;
    ghost var next, start := EdgeMap(idx.deps, inbound), Seeds(seeds);
    EdgeMapKeyed(idx.deps, inbound);
    var w := SeedQueue(seeds);
    var visited := 0;
    ghost var dist: map<Node, nat>, done: set<Node> := map s | s in start :: 0, {};
    WalkStarts(next, seeds, start, budget, w, dist);
    while |w.queue| > 0
      invariant Walking(next, start, budget, w, dist, done) && SeedsOk(seeds, w, done, visited)
      invariant visited == |done| <= budget.maxVisitNodes
      decreases budget.maxVisitNodes - visited
    {
      WalkDequeue(next, start, budget, w, dist, done);
      ghost var w0, done0 := w, done;
      var cur := w.queue[0];
      w := w.(queue := w.queue[1..]);
      visited := visited + 1;
      done := done + {cur.node};
      if visited > budget.maxVisitNodes {
        WalkIsSound(next, seeds, budget, w0, dist, done0, visited - 1);
        VisitedWithin(next, start, budget, w0, dist, done0);
        return w.depths, w.edges, true;
      }
      if cur.node !in w.depths {
        w := w.(depths := w.depths[cur.node := cur.depth]);
      }
      assert w == Dequeued(w0);
      SeedsDequeue(seeds, w0, done0, visited - 1);
      if cur.depth >= budget.maxDepth { continue; }
      var nbrs := idx.Neighbors(cur.node, inbound);
      EdgeMapAt(idx.deps, inbound, cur.node);
      w, dist := ScanNeighbors(w, cur, nbrs, budget, next, seeds, dist, done, visited);
    }
    WalkIsSound(next, seeds, budget, w, dist, done, visited);
    depths, edges, truncated := w.depths, w.edges, w.truncated;
    if !truncated {
      WalkIsComplete(next, seeds, budget, w, dist, done, visited);
    }
  }

  /** From one seed every listed node carries its distance, cut short or not. */
  lemma SingleSeedExact(next: Node -> set<Edge>, seed: Node, budget: Budget, depths: map<Node, nat>, edges: seq<Edge>)
    requires budget.maxDepth > 0 && Sound(next, [seed], budget, depths, edges)
    ensures forall n :: n in depths ==> AtDistance(Step(next), {seed}, n, depths[n])
  {
    assert Seeds([seed]) == {seed};
    assert seed in depths ==> depths[[seed][0]] == 0;
    hide Step;
  }

  /** Some earlier seed has an edge of the graph to seed j. */
  ghost predicate TargetedEarlier(next: Node -> set<Edge>, seeds: seq<Node>, j: nat)
    requires j < |seeds|
  {
    exists i :: 0 <= i < j && seeds[j] in Step(next)(seeds[i])
  }

  /** A seed's depth is 0 or 1; 1 only if an earlier seed has an edge to it, and, uncut, exactly then. */
  lemma SeedDepthIff(next: Node -> set<Edge>, seeds: seq<Node>, budget: Budget, depths: map<Node, nat>, edges: seq<Edge>, j: nat)
    requires budget.maxDepth > 0 && Keyed(next) && Sound(next, seeds, budget, depths, edges) && j < |seeds|
    ensures seeds[j] in depths ==> depths[seeds[j]] <= 1
    ensures seeds[j] in depths && depths[seeds[j]] == 1 ==> TargetedEarlier(next, seeds, j)
    ensures Complete(next, seeds, budget, depths, edges) ==>
      seeds[j] in depths && depths[seeds[j]] == if TargetedEarlier(next, seeds, j) then 1 else 0
  {
    hide Step, Within, AtDistance, HitByEarlierSeed, TargetedEarlier, Keyed;
    if HitByEarlierSeed(seeds, edges, j) { HitIsTargeted(next, seeds, edges, j); }
    if Complete(next, seeds, budget, depths, edges) {
      SeedsWithin(next, seeds, budget.maxDepth);
      assert seeds[j] in depths.Keys;
      if TargetedEarlier(next, seeds, j) { TargetedIsHit(next, seeds, budget, depths, edges, j); }
    }
  }

  lemma HitIsTargeted(next: Node -> set<Edge>, seeds: seq<Node>, edges: seq<Edge>, j: nat)
    requires j < |seeds| && HitByEarlierSeed(seeds, edges, j)
    requires forall e :: e in edges ==> e in next(e.source)
    ensures TargetedEarlier(next, seeds, j)
  {
    var i, e :| 0 <= i < j && e in edges && e.source == seeds[i] && e.target == seeds[j];
    assert e in next(seeds[i]);
    assert seeds[j] in Step(next)(seeds[i]);
  }

  lemma TargetedIsHit(next: Node -> set<Edge>, seeds: seq<Node>, budget: Budget, depths: map<Node, nat>, edges: seq<Edge>, j: nat)
    requires budget.maxDepth > 0 && Keyed(next) && Complete(next, seeds, budget, depths, edges)
    requires j < |seeds| && TargetedEarlier(next, seeds, j)
    ensures HitByEarlierSeed(seeds, edges, j)
  {
    hide Within;
    var i :| 0 <= i < j && seeds[j] in Step(next)(seeds[i]);
    var e :| e in next(seeds[i]) && e.target == seeds[j];
    SeedsWithin(next, seeds, budget.maxDepth - 1);
    assert e.source == seeds[i];
    assert e in edges;
  }

  lemma SeedsWithin(next: Node -> set<Edge>, seeds: seq<Node>, k: nat)
    ensures forall j :: 0 <= j < |seeds| ==> seeds[j] in Within(Step(next), Seeds(seeds), k)
  {
    WithinGrows(Step(next), Seeds(seeds), 0, k);
    hide Step;
  }

  /** Uncut, every depth is the distance exactly when no seed is targeted by an earlier one. */
  lemma AllExactIff(next: Node -> set<Edge>, seeds: seq<Node>, budget: Budget, depths: map<Node, nat>, edges: seq<Edge>)
    requires budget.maxDepth > 0 && Keyed(next)
    requires Sound(next, seeds, budget, depths, edges) && Complete(next, seeds, budget, depths, edges)
    ensures (forall n :: n in depths ==> AtDistance(Step(next), Seeds(seeds), n, depths[n])) <==>
      forall j :: 0 <= j < |seeds| ==> !TargetedEarlier(next, seeds, j)
  {
    forall j | 0 <= j < |seeds|
      ensures seeds[j] in depths && depths[seeds[j]] == if TargetedEarlier(next, seeds, j) then 1 else 0
      ensures AtDistance(Step(next), Seeds(seeds), seeds[j], depths[seeds[j]]) <==> depths[seeds[j]] == 0
    {
      SeedDepthIff(next, seeds, budget, depths, edges, j);
      SeedsWithin(next, seeds, 0);
    }
    hide TargetedEarlier, Step, Within, Complete, AtDistance;
    forall n | n in depths && forall j :: 0 <= j < |seeds| ==> !TargetedEarlier(next, seeds, j)
      ensures AtDistance(Step(next), Seeds(seeds), n, depths[n])
    {
      if n in seeds {
        var j :| 0 <= j < |seeds| && seeds[j] == n;
      }
    }
  }

  /** Two hubs, the first importing the second as a file: the second is a seed and gets depth 1. */
  lemma HubTargetsHub(a: Node, b: Node, budget: Budget, depths: map<Node, nat>, edges: seq<Edge>)
    requires a == File([], "a.ts") && b == File([], "b.ts") && budget.maxDepth > 0
    requires
      var next := EdgeMap(Deps(map[a := [b], b := []], []), false);
      Sound(next, [a, b], budget, depths, edges) && Complete(next, [a, b], budget, depths, edges)
    ensures AreHubs(map[a := [b], b := []], 16, [a, b])
    ensures b in depths && depths[b] == 1
  {
    TwoHubs(a, b);
    hide AreHubs;
    var g := Deps(map[a := [b], b := []], []);
    var next := EdgeMap(g, false);
    EdgeMapKeyed(g, false);
    var name := "b.ts";
    assert name[1] == '.';
    assert AsTarget(b) == b;
    assert b in g.imports[a];
    assert Edge(a, b, Imports, false) in next(a);
    assert b in Step(next)(a);
    var seeds := [a, b];
    assert seeds[1] in Step(next)(seeds[0]);
    SeedDepthIff(next, seeds, budget, depths, edges, 1);
    assert TargetedEarlier(next, seeds, 1);
  }

  lemma TwoHubs(a: Node, b: Node)
    requires a != b
    ensures AreHubs(map[a := [b], b := []], 16, [a, b])
  {
    var out := map[a := [b], b := []];
    assert out.Keys == {a, b} && |out| == |out.Keys|;
    assert |out[a]| == 1 && |out[b]| == 0;
  }

  /** At most n sources, most targets first, none left out that lists more than one taken. */
  ghost predicate AreHubs(out: map<Node, seq<Node>>, n: nat, hubs: seq<Node>) {
    && NoRepeats(hubs) && (forall f :: f in hubs ==> f in out)
    && |hubs| == (if |out| <= n then |out| else n)
    && (forall i, j :: 0 <= i < j < |hubs| ==> |out[hubs[i]]| >= |out[hubs[j]]|)
    && (forall f, h :: f in out && f !in hubs && h in hubs ==> |out[h]| >= |out[f]|)
  }

  method Busiest(out: map<Node, seq<Node>>, todo: set<Node>) returns (best: Node)
    requires todo != {} && todo <= out.Keys
    ensures best in todo && forall f :: f in todo ==> |out[best]| >= |out[f]|
  {
    best :| best in todo;
    var rest := todo - {best};
    while rest != {}
      invariant rest <= todo && best in todo
      invariant forall f :: f in todo - rest ==> |out[best]| >= |out[f]|
      decreases |rest|
    {
      var f :| f in rest;
      rest := rest - {f};
      if |out[f]| > |out[best]| { best := f; }
    }
  }

  /** The hubs taken so far, and the sources still to choose from. */
  ghost predicate Taking(out: map<Node, seq<Node>>, hubs: seq<Node>, todo: set<Node>) {
    && NoRepeats(hubs) && |hubs| + |todo| == |out.Keys|
    && todo <= out.Keys && (forall f :: f in hubs <==> f in out.Keys - todo)
    && (forall i :: 0 <= i < |hubs| ==> hubs[i] in hubs)
    && (forall i, j :: 0 <= i < j < |hubs| ==> |out[hubs[i]]| >= |out[hubs[j]]|)
    && (forall f, h :: f in todo && h in hubs ==> |out[h]| >= |out[f]|)
  }

  lemma TakeHub(out: map<Node, seq<Node>>, hubs: seq<Node>, todo: set<Node>, f: Node)
    requires Taking(out, hubs, todo) && f in todo && forall g :: g in todo ==> |out[f]| >= |out[g]|
    ensures Taking(out, hubs + [f], todo - {f})
  {
    assert f !in hubs;
    var hubs' := hubs + [f];
    assert forall h :: h in hubs' <==> h in hubs || h == f;
    assert forall i :: 0 <= i < |hubs| ==> hubs'[i] == hubs[i] && hubs[i] in hubs;
  }

  /** hubSeeds, with equal degrees in any order. */
  method HubSeeds(idx: Index, n: nat) returns (hubs: seq<Node>)
    ensures AreHubs(idx.out, n, hubs)
  {
    hubs := [];
    var todo := idx.out.Keys;
    assert Taking(idx.out, hubs, todo);
    while todo != {} && |hubs| < n
      invariant Taking(idx.out, hubs, todo) && |hubs| <= n
      decreases |todo|
    {
      hide Taking;
      var f := Busiest(idx.out, todo) by { TakenFrom(idx.out, hubs, todo); }
      TakeHub(idx.out, hubs, todo, f);
      todo := todo - {f};
      hubs := hubs + [f];
    }
  }

  lemma TakenFrom(out: map<Node, seq<Node>>, hubs: seq<Node>, todo: set<Node>)
    requires Taking(out, hubs, todo)
    ensures todo <= out.Keys
  {}

  /** The walk behind Subgraph and Neighborhood: around the seed named, or around the hubs when none is. */
  method Neighborhood(idx: Index, seed: Node, limits: Budget, inbound: bool)
    returns (seeds: seq<Node>, depths: map<Node, nat>, edges: seq<Edge>, truncated: bool)
    requires idx.Valid()
    ensures if seed != ROOT then seeds == [seed] else AreHubs(idx.out, 16, seeds)
    ensures
      var next, budget := EdgeMap(idx.deps, inbound), WithSubgraphDefaults(limits);
      && budget.maxDepth > 0
      && Sound(next, seeds, budget, depths, edges)
      && (!truncated ==> Complete(next, seeds, budget, depths, edges))
      && (seed != ROOT ==> forall n :: n in depths ==> AtDistance(Step(next), {seed}, n, depths[n]))
      && (!truncated ==> forall j :: 0 <= j < |seeds| ==>
            seeds[j] in depths && depths[seeds[j]] == if TargetedEarlier(next, seeds, j) then 1 else 0)
    ensures seeds == [] ==> depths == map[] && edges == [] && !truncated
    // A limit the caller set is the limit.
    ensures limits.maxDepth > 0 ==> forall n :: n in depths ==> n in Within(Step(EdgeMap(idx.deps, inbound)), Seeds(seeds), limits.maxDepth)
    ensures limits.maxEdgesOut > 0 ==> |edges| <= limits.maxEdgesOut
  {
    hide Sound, Complete, EdgesOf, EdgeMap, Step, AtDistance, Keyed, TargetedEarlier, Index.Valid;
    var budget := WithSubgraphDefaults(limits);
    ghost var next := EdgeMap(idx.deps, inbound);
    if seed != ROOT {
      seeds := [seed];
    } else {
      seeds := HubSeeds(idx, 16);
    }
    if |seeds| == 0 {
      NoSeeds(next, budget);
      return [], map[], [], false;
    }
    depths, edges, truncated := BfsWalk(idx, seeds, budget, inbound);
    SoundLimits(next, seeds, budget, depths, edges);
    if seed != ROOT { SingleSeedExact(next, seed, budget, depths, edges); }
    EdgeMapKeyed(idx.deps, inbound);
    forall j | 0 <= j < |seeds| && !truncated
      ensures seeds[j] in depths && depths[seeds[j]] == if TargetedEarlier(next, seeds, j) then 1 else 0
    {
      SeedDepthIff(next, seeds, budget, depths, edges, j);
    }
  }

  lemma SoundLimits(next: Node -> set<Edge>, seeds: seq<Node>, budget: Budget, depths: map<Node, nat>, edges: seq<Edge>)
    requires budget.maxDepth > 0 && Sound(next, seeds, budget, depths, edges)
    ensures |edges| <= budget.maxEdgesOut
    ensures forall n :: n in depths ==> n in Within(Step(next), Seeds(seeds), budget.maxDepth)
  {}

  lemma NoSeeds(next: Node -> set<Edge>, budget: Budget)
    requires budget.maxDepth > 0 && budget.maxEdgesOut >= 0
    ensures Sound(next, [], budget, map[], []) && Complete(next, [], budget, map[], [])
  {
    NothingWithin(next, budget.maxDepth);
    NothingWithin(next, budget.maxDepth - 1);
  }

  lemma {:induction false} NothingWithin(next: Node -> set<Edge>, k: nat)
    ensures Within(Step(next), Seeds([]), k) == {}
  {
    if k > 0 { NothingWithin(next, k - 1); }
  }
}
