/** The walkable dependency graph (internal/graph/graph.go): building the index,
    the budgeted shortest-path search and the bounded neighbourhood walk. */
module Graph {
  import opened Basics
  import opened Reachability

  /** A normalised identifier. Paths are lists of segments; a package directory
      carries a trailing slash in the source, and Package([]) is the empty string. */
  datatype Node = File(dir: seq<string>, name: string) | Package(dir: seq<string>)

  const ROOT := Package([])

  datatype EdgeKind = Imports | Contains

  datatype Edge = Edge(source: Node, target: Node, kind: EdgeKind, reverse: bool)

  datatype Budget = Budget(maxDepth: int, maxVisitNodes: int, maxEdgesOut: int)

  datatype Item = Item(node: Node, depth: nat)

  datatype Parent = Parent(prev: Node, edge: Edge)

  datatype PathResult = PathResult(
    from: Node, to: Node, found: bool, directed: bool,
    hops: seq<Node>, edges: seq<Edge>, length: nat, truncated: bool)

  function PackageDir(p: Node): Node {
    match p
    case Package(_) => p
    case File(dir, name) => if '.' in name then Package(dir) else Package(dir + [name])
  }

  /** Import targets without a dotted last segment name a directory. */
  function AsTarget(t: Node): Node {
    if t.File? && '.' !in t.name then Package(t.dir + [t.name]) else t
  }

  /** The form packageEqual compares: a slash appended when it is missing. */
  function WithSlash(p: Node): Node {
    match p
    case Package(_) => p
    case File(dir, name) => Package(dir + [name])
  }

  function WithPathDefaults(b: Budget): (r: Budget)
    ensures r.maxDepth > 0 && r.maxVisitNodes > 0 && r.maxEdgesOut > 0
    ensures if b.maxDepth > 0 then r.maxDepth == b.maxDepth else r.maxDepth == 8
    ensures if b.maxVisitNodes > 0 then r.maxVisitNodes == b.maxVisitNodes else r.maxVisitNodes == 10_000
    ensures if b.maxEdgesOut > 0 then r.maxEdgesOut == b.maxEdgesOut else r.maxEdgesOut == 500
  {
    Budget(if b.maxDepth <= 0 then 8 else b.maxDepth,
           if b.maxVisitNodes <= 0 then 10000 else b.maxVisitNodes,
           if b.maxEdgesOut <= 0 then 500 else b.maxEdgesOut)
  }

  // -------- the meaning: edges read off the store's adjacency

  /** What Build is given: source file -> import targets, and the file inventory. */
  datatype Deps = Deps(imports: map<Node, seq<Node>>, files: seq<Node>)

  ghost function KnownFiles(g: Deps): set<Node> {
    (set f | f in g.imports && f.File?) + (set f | f in g.files && f.File?)
  }

  /** Outgoing dependency edges: a package contains its files, a file imports its targets. */
  ghost function ForwardEdges(g: Deps, n: Node): set<Edge> {
    if n == ROOT then {}
    else if n.Package? then set f | f in KnownFiles(g) && PackageDir(f) == n :: Edge(n, f, Contains, false)
    else if n in g.imports then set t | t in g.imports[n] && t != ROOT :: Edge(n, AsTarget(t), Imports, false)
    else {}
  }

  /** Edges walked against their direction: a package back to its importers, a file back to its package. */
  ghost function BackwardEdges(g: Deps, n: Node): set<Edge> {
    if n.Package? then
      set s, t | s in g.imports && s != ROOT && t in g.imports[s] && t != ROOT && WithSlash(AsTarget(t)) == n
        :: Edge(n, s, Imports, true)
    else if PackageDir(n) != ROOT then {Edge(n, PackageDir(n), Contains, true)}
    else {}
  }

  ghost function EdgesOf(g: Deps, undirected: bool, n: Node): set<Edge> {
    ForwardEdges(g, n) + if undirected then BackwardEdges(g, n) else {}
  }

  /** The walk relation as a function value: what the searches are proved over. */
  ghost function EdgeMap(g: Deps, undirected: bool): Node -> set<Edge> {
    (n: Node) => EdgesOf(g, undirected, n)
  }

  ghost function Step(next: Node -> set<Edge>): Node -> set<Node> {
    (n: Node) => set e | e in next(n) :: e.target
  }

  // -------- the edges, told apart by directory and name

  /** f is a file of the directory d: one with a dot in its name lies in it, one without is taken for it. */
  predicate LiesIn(f: Node, d: seq<string>) {
    f.File? && if '.' in f.name then f.dir == d else f.dir + [f.name] == d
  }

  /** The import t names the directory d: as a package, or as a file whose name has no dot. */
  predicate NamesDir(t: Node, d: seq<string>) {
    match t
    case Package(dir) => dir == d
    case File(dir, name) => '.' !in name && dir + [name] == d
  }

  /** A package contains exactly the known files of its directory. */
  lemma ContainsEdges(g: Deps, d: seq<string>, e: Edge)
    requires d != []
    ensures e in ForwardEdges(g, Package(d)) <==>
      e == Edge(Package(d), e.target, Contains, false) && LiesIn(e.target, d) && (e.target in g.imports || e.target in g.files)
  {
    if LiesIn(e.target, d) && (e.target in g.imports || e.target in g.files) {
      assert e.target in KnownFiles(g);
    }
  }

  /** A file imports exactly the directories and dotted files it names. */
  lemma ImportEdges(g: Deps, s: Node, e: Edge)
    requires s.File?
    ensures e in ForwardEdges(g, s) <==>
      && e == Edge(s, e.target, Imports, false) && s in g.imports
      && match e.target
         case Package(d) => d != [] && exists t :: t in g.imports[s] && NamesDir(t, d)
         case File(_, name) => '.' in name && e.target in g.imports[s]
  {
    if s in g.imports && e.target.Package? && exists t :: t in g.imports[s] && NamesDir(t, e.target.dir) {
      var t :| t in g.imports[s] && NamesDir(t, e.target.dir);
      assert AsTarget(t) == e.target;
    }
    if s in g.imports && e.target.File? && e.target in g.imports[s] && '.' in e.target.name {
      assert AsTarget(e.target) == e.target;
    }
  }

  /** Walked back, a package leads to exactly the sources importing its directory, with or without the slash. */
  lemma ImporterEdges(g: Deps, d: seq<string>, e: Edge)
    ensures e in BackwardEdges(g, Package(d)) <==>
      && e == Edge(Package(d), e.target, Imports, true) && e.target in g.imports && e.target != ROOT
      && exists t :: t in g.imports[e.target] && t != ROOT && (if t.Package? then t.dir == d else t.dir + [t.name] == d)
  {
    if e in BackwardEdges(g, Package(d)) {
      var t :| t in g.imports[e.target] && t != ROOT && WithSlash(AsTarget(t)) == Package(d);
      assert if t.Package? then t.dir == d else t.dir + [t.name] == d;
    }
    if e.target in g.imports && exists t :: t in g.imports[e.target] && t != ROOT && (if t.Package? then t.dir == d else t.dir + [t.name] == d) {
      var t :| t in g.imports[e.target] && t != ROOT && (if t.Package? then t.dir == d else t.dir + [t.name] == d);
      assert WithSlash(AsTarget(t)) == Package(d);
    }
  }

  /** Walked back, a file leads to exactly the directory it lies in, if that is not the root. */
  lemma ContainerEdges(g: Deps, f: Node, e: Edge)
    requires f.File?
    ensures e in BackwardEdges(g, f) <==>
      e == Edge(f, e.target, Contains, true) && e.target.Package? && e.target.dir != [] && LiesIn(f, e.target.dir)
  {}

  /** A source is two hops from every known dotted file of a directory it imports. */
  lemma TwoHops(g: Deps, undirected: bool, s: Node, f: Node)
    requires s.File? && s in g.imports && Package(f.dir) in g.imports[s]
    requires f.File? && '.' in f.name && f.dir != [] && (f in g.imports || f in g.files)
    ensures
      var next := EdgeMap(g, undirected);
      && Edge(s, Package(f.dir), Imports, false) in next(s)
      && Edge(Package(f.dir), f, Contains, false) in next(Package(f.dir))
      && WalkTo(Step(next), {s}, [s, Package(f.dir), f], f)
  {
    var next, p := EdgeMap(g, undirected), Package(f.dir);
    var e1, e2 := Edge(s, p, Imports, false), Edge(p, f, Contains, false);
    assert NamesDir(p, f.dir);
    ImportEdges(g, s, e1);
    ContainsEdges(g, f.dir, e2);
    assert e1 in next(s) && e2 in next(p);
    hide ForwardEdges, BackwardEdges, EdgeMap;
    assert e1.target in Step(next)(s) && e2.target in Step(next)(p);
  }

  lemma EdgeMapAt(g: Deps, undirected: bool, n: Node)
    ensures EdgeMap(g, undirected)(n) == EdgesOf(g, undirected, n)
  {}

  /** No walk edge leads to the empty identifier, and every edge starts where it is listed. */
  lemma EdgeShapes(g: Deps, undirected: bool, n: Node)
    ensures forall e :: e in EdgeMap(g, undirected)(n) ==> e.source == n && e.target != ROOT
  {}

  /** A breadth-first queue beside its distance labels: `done` nodes have been
      dequeued, every other labelled node waits once, and depths never decrease
      along the queue or spread over more than two layers. */
  ghost predicate QueueOk(q: seq<Item>, dist: map<Node, nat>, done: set<Node>) {
    && Layered(q)
    && (forall i :: 0 <= i < |q| ==> q[i].node in dist && dist[q[i].node] == q[i].depth && q[i].node !in done)
    && (forall n {:trigger Queued(q, n)} :: n in dist && n !in done ==> Queued(q, n))
    && (forall n :: n in done ==> n in dist)
    && (q != [] ==> forall n :: n in done ==> dist[n] <= q[0].depth)
  }

  ghost predicate Layered(q: seq<Item>) {
    && (forall i, j :: 0 <= i < j < |q| ==> q[i].node != q[j].node)
    && (forall i, j :: 0 <= i < j < |q| ==> q[i].depth <= q[j].depth <= q[i].depth + 1)
  }

  ghost predicate Queued(q: seq<Item>, n: Node) {
    exists i :: 0 <= i < |q| && q[i].node == n
  }

  lemma QueuePush(q: seq<Item>, dist: map<Node, nat>, done: set<Node>, cur: nat, n: Node)
    requires QueueOk(q, dist, done) && n !in dist
    requires forall i :: 0 <= i < |q| ==> cur <= q[i].depth <= cur + 1
    requires forall m :: m in done ==> m in dist && dist[m] <= cur
    ensures QueueOk(q + [Item(n, cur + 1)], dist[n := cur + 1], done)
  {
    var q', dist' := q + [Item(n, cur + 1)], dist[n := cur + 1];
    forall m | m in dist' && m !in done
      ensures Queued(q', m)
    {
      if m == n {
        assert q'[|q|].node == n;
      } else {
        assert Queued(q, m);
        var i :| 0 <= i < |q| && q[i].node == m;
        assert q'[i].node == m;
      }
    }
  }

  lemma QueuePop(q: seq<Item>, dist: map<Node, nat>, done: set<Node>)
    requires QueueOk(q, dist, done) && q != []
    ensures QueueOk(q[1..], dist, done + {q[0].node})
  {
    var q', done' := q[1..], done + {q[0].node};
    assert forall i :: 0 <= i < |q'| ==> q'[i] == q[i + 1];
    assert Layered(q');
    forall n | n in dist && n !in done'
      ensures Queued(q', n)
    {
      assert Queued(q, n);
      var i :| 0 <= i < |q| && q[i].node == n;
      assert q'[i - 1].node == n;
    }
  }

  /** Labelled nodes nearer than the head of the queue have been dequeued. */
  lemma NearerIsDone(q: seq<Item>, dist: map<Node, nat>, done: set<Node>, n: Node)
    requires QueueOk(q, dist, done) && n in dist && (q != [] ==> dist[n] < q[0].depth)
    ensures n in done
  {
    assert n !in done ==> Queued(q, n);
  }

  class Index {
    var out: map<Node, seq<Node>>
    var filesInPkg: map<Node, seq<Node>>
    var files: seq<Node>
    ghost var deps: Deps

    ghost predicate Valid()
      reads this
    {
      && out.Keys == deps.imports.Keys - {ROOT}
      && (forall s, t :: s in out ==> (t in out[s] <==> exists u :: u in deps.imports[s] && u != ROOT && t == AsTarget(u)))
      && (forall p :: p in filesInPkg ==> p != ROOT)
      && (forall p, f :: p in filesInPkg && f in filesInPkg[p] ==> f in KnownFiles(deps) && PackageDir(f) == p)
      && (forall f :: f in KnownFiles(deps) && PackageDir(f) != ROOT ==>
            PackageDir(f) in filesInPkg && f in filesInPkg[PackageDir(f)])
      && NoRepeats(files) && (forall f :: f in files <==> f in KnownFiles(deps))
      && (forall p :: p in filesInPkg ==> NoRepeats(filesInPkg[p]))
      && (forall s :: s in out ==> NoRepeats(out[s]))
    }

    // -------- Build

    ghost predicate FilesOk(seen: set<Node>)
      reads this`files, this`filesInPkg
    {
      && NoRepeats(files) && (forall f :: f in files <==> f in seen)
      && (forall p :: p in filesInPkg ==> NoRepeats(filesInPkg[p]))
      && (forall f :: f in seen ==> f.File?)
      && (forall p :: p in filesInPkg ==> p != ROOT)
      && (forall p, f :: p in filesInPkg && f in filesInPkg[p] ==> f in seen && PackageDir(f) == p)
      && (forall f :: f in seen && PackageDir(f) != ROOT ==>
            PackageDir(f) in filesInPkg && f in filesInPkg[PackageDir(f)])
    }

    method AddFile(file: Node, seen: set<Node>) returns (seen': set<Node>)
      requires FilesOk(seen)
      modifies this`files, this`filesInPkg
      ensures FilesOk(seen')
      ensures files == old(files) + if file.File? && file !in seen then [file] else []
      ensures seen' == if file.File? then seen + {file} else seen
    {
      seen' := seen;
      if file.Package? || file in seen { return; }
      seen' := seen + {file};
      files := files + [file];
      var pkg := PackageDir(file);
      if pkg != ROOT {
        var list := if pkg in filesInPkg then filesInPkg[pkg] else [];
        filesInPkg := filesInPkg[pkg := list + [file]];
        assert file !in list;
        assert file in filesInPkg[pkg];
        assert forall f :: f in list ==> f in filesInPkg[pkg];
      }
    }

    static method NormalizeTargets(targets: seq<Node>) returns (uniq: seq<Node>)
      ensures forall t :: t in uniq <==> exists u :: u in targets && u != ROOT && t == AsTarget(u)
      ensures NoRepeats(uniq)
    {
      uniq := [];
      var seen := {};
      for i := 0 to |targets|
        invariant seen == set t | t in uniq
        invariant forall t :: t in seen <==> exists k :: 0 <= k < i && targets[k] != ROOT && t == AsTarget(targets[k])
        invariant NoRepeats(uniq)
      {
        if targets[i] == ROOT { continue; }
        var target := AsTarget(targets[i]);
        if target in seen { continue; }
        seen := seen + {target};
        uniq := uniq + [target];
      }
      assert forall t :: t in uniq <==> t in seen;
      forall t
        ensures t in seen <==> exists u :: u in targets && u != ROOT && t == AsTarget(u)
      {
        if u :| u in targets && u != ROOT && t == AsTarget(u) {
          var k :| 0 <= k < |targets| && targets[k] == u;
        }
      }
    }

    ghost predicate TargetsOk(neighbors: map<Node, seq<Node>>)
      reads this`out
    {
      && (forall s :: s in out ==> NoRepeats(out[s]))
      && forall s, t :: s in out && s in neighbors ==>
        (t in out[s] <==> exists u :: u in neighbors[s] && u != ROOT && t == AsTarget(u))
    }

    method AddSources(neighbors: map<Node, seq<Node>>) returns (seen: set<Node>)
      requires FilesOk({}) && out == map[]
      modifies this`out, this`files, this`filesInPkg
      ensures out.Keys == neighbors.Keys - {ROOT} && TargetsOk(neighbors)
      ensures FilesOk(seen) && seen == set f | f in neighbors.Keys && f.File?
    {
      hide FilesOk, AsTarget, NoRepeats;
      seen := {};
      var todo := neighbors.Keys;
      while todo != {}
        invariant todo <= neighbors.Keys
        invariant out.Keys == neighbors.Keys - todo - {ROOT}
        invariant TargetsOk(neighbors)
        invariant FilesOk(seen)
        invariant seen == set f | f in neighbors.Keys - todo && f.File?
        decreases |todo|
      {
        var src :| src in todo;
        todo := todo - {src};
        if src == ROOT { continue; }
        seen := AddFile(src, seen);
        var targets := NormalizeTargets(neighbors[src]);
        out := out[src := targets];
      }
    }

    method AddInventory(inventory: seq<Node>, seen: set<Node>) returns (all: set<Node>)
      requires FilesOk(seen)
      modifies this`files, this`filesInPkg
      ensures FilesOk(all) && all == seen + set f | f in inventory && f.File?
    {
      hide FilesOk;
      all := seen;
      for i := 0 to |inventory|
        invariant FilesOk(all)
        invariant all == seen + set f | f in inventory[..i] && f.File?
      {
        all := AddFile(inventory[i], all);
      }
      assert inventory[..|inventory|] == inventory;
    }

    constructor Build(neighbors: map<Node, seq<Node>>, inventory: seq<Node>)
      ensures Valid() && deps == Deps(neighbors, inventory)
    {
      out, filesInPkg, files := map[], map[], [];
      deps := Deps(neighbors, inventory);
      new;
      var seen := AddSources(neighbors);
      seen := AddInventory(inventory, seen);
      assert seen == KnownFiles(deps);
    }

    // -------- neighbours

    method NeighborsDirected(node: Node) returns (edges: seq<Edge>)
      requires Valid()
      ensures forall e :: e in edges <==> e in ForwardEdges(deps, node)
    {
      edges := [];
      if node == ROOT { return; }
      if node.Package? {
        var list := if node in filesInPkg then filesInPkg[node] else [];
        for i := 0 to |list|
          invariant forall e :: e in edges <==> exists f :: f in list[..i] && e == Edge(node, f, Contains, false)
        {
          edges := edges + [Edge(node, list[i], Contains, false)];
        }
        assert list[..|list|] == list;
        return;
      }
      var list := if node in out then out[node] else [];
      for i := 0 to |list|
        invariant forall e :: e in edges <==> exists t :: t in list[..i] && e == Edge(node, t, Imports, false)
      {
        edges := edges + [Edge(node, list[i], Imports, false)];
      }
      assert list[..|list|] == list;
    }

    method ReversePackageEdges(pkg: Node) returns (reverse: seq<Edge>)
      requires Valid() && pkg.Package?
      ensures forall e :: e in reverse <==> e in BackwardEdges(deps, pkg)
    {
      reverse := [];
      var todo := out.Keys;
      while todo != {}
        invariant todo <= out.Keys
        invariant forall e :: e in reverse <==>
          exists s, t :: s in out.Keys - todo && t in out[s] && WithSlash(t) == pkg && e == Edge(pkg, s, Imports, true)
        decreases |todo|
      {
        var source :| source in todo;
        todo := todo - {source};
        var targets := out[source];
        var i := 0;
        while i < |targets| && WithSlash(targets[i]) != pkg
          invariant 0 <= i <= |targets|
          invariant forall k :: 0 <= k < i ==> WithSlash(targets[k]) != pkg
        {
          i := i + 1;
        }
        if i < |targets| {
          reverse := reverse + [Edge(pkg, source, Imports, true)];
          assert targets[i] in out[source];
        }
      }
    }

    method NeighborsUndirected(node: Node) returns (edges: seq<Edge>)
      requires Valid()
      ensures forall e :: e in edges <==> e in EdgesOf(deps, true, node)
    {
      edges := NeighborsDirected(node);
      var back;
      if node.Package? {
        back := ReversePackageEdges(node);
      } else if PackageDir(node) == ROOT {
        back := [];
      } else {
        back := [Edge(node, PackageDir(node), Contains, true)];
      }
      edges := edges + back;
    }

    method Neighbors(node: Node, undirected: bool) returns (edges: seq<Edge>)
      requires Valid()
      ensures forall e :: e in edges <==> e in EdgesOf(deps, undirected, node)
    {
      if undirected {
        edges := NeighborsUndirected(node);
      } else {
        edges := NeighborsDirected(node);
      }
    }
  }
}
