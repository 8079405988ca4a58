/** Reverse dependencies: the bounded impact closure (internal/codeintel/impact.go)
    and the two-level caller report (internal/codeintel/callers.go). */
module Impact {
  import opened Reachability

  type File = string
  type Dir = string

  /** The import graph with the two path functions the walks rely on: the directory
      keys of a file and the normal form of a directory. Nothing is assumed of either. */
  datatype Project = Project(graph: map<File, seq<Dir>>, dirsOf: File -> seq<Dir>, norm: Dir -> Dir)

  function ClampDepth(d: int): (k: nat)
    ensures (d <= 0 ==> k == 5) && (1 <= d <= 10 ==> k == d) && (d > 10 ==> k == 10)
  {
    if d <= 0 then 5 else if d > 10 then 10 else d
  }

  // -------- the meaning: importer chains

  ghost predicate ImportsAny(p: Project, f: File, dirs: seq<Dir>) {
    f in p.graph && exists t, d :: t in p.graph[f] && d in dirs && p.norm(t) == p.norm(d)
  }

  ghost function ImportersOf(p: Project, dirs: seq<Dir>): set<File> {
    set f | f in p.graph && ImportsAny(p, f, dirs)
  }

  /** One link of an importer chain: from a file to the files importing one of its directories. */
  ghost function Importers(p: Project): File -> set<File> {
    (f: File) => ImportersOf(p, p.dirsOf(f))
  }

  /** f ends a shortest importer chain of `depth` links from the seed file. */
  ghost predicate ShortestChain(p: Project, seed: File, f: File, depth: nat) {
    AtDistance(Importers(p), {seed}, f, depth)
  }

  /** Some importer chain of at most `depth` links leads from the seed file to f. */
  ghost predicate Affected(p: Project, seed: File, f: File, depth: nat) {
    exists chain :: WalkTo(Importers(p), {seed}, chain, f) && |chain| - 1 <= depth
  }

  // -------- callers.go

  method FindDirectCallers(p: Project, dirs: seq<Dir>) returns (callers: seq<File>)
    ensures forall f :: f in callers <==> f in ImportersOf(p, dirs)
    ensures forall i, j :: 0 <= i < j < |callers| ==> callers[i] != callers[j]
  {
    var wanted := {};
    for i := 0 to |dirs|
      invariant forall n :: n in wanted <==> exists k :: 0 <= k < i && n == p.norm(dirs[k])
    {
      wanted := wanted + {p.norm(dirs[i])};
    }
    callers := [];
    var todo := p.graph.Keys;
    while todo != {}
      invariant todo <= p.graph.Keys
      invariant forall f :: f in callers <==> f in p.graph.Keys - todo && ImportsAny(p, f, dirs)
      invariant forall i, j :: 0 <= i < j < |callers| ==> callers[i] != callers[j]
      decreases |todo|
    {
      var src :| src in todo;
      todo := todo - {src};
      var targets := p.graph[src];
      var i := 0;
      while i < |targets| && p.norm(targets[i]) !in wanted
        invariant 0 <= i <= |targets|
        invariant forall k :: 0 <= k < i ==> p.norm(targets[k]) !in wanted
      {
        i := i + 1;
      }
      WantedIffImports(p, src, dirs, wanted, i);
      if i < |targets| {
        callers := callers + [src];
      }
    }
  }

  lemma WantedIffImports(p: Project, src: File, dirs: seq<Dir>, wanted: set<Dir>, i: nat)
    requires src in p.graph && i <= |p.graph[src]|
    requires forall n :: n in wanted <==> exists k :: 0 <= k < |dirs| && n == p.norm(dirs[k])
    requires forall k :: 0 <= k < i ==> p.norm(p.graph[src][k]) !in wanted
    requires i < |p.graph[src]| ==> p.norm(p.graph[src][i]) in wanted
    ensures i < |p.graph[src]| <==> ImportsAny(p, src, dirs)
  {
    if i < |p.graph[src]| {
      var k :| 0 <= k < |dirs| && p.norm(p.graph[src][i]) == p.norm(dirs[k]);
      assert p.graph[src][i] in p.graph[src] && dirs[k] in dirs;
    } else {
      forall t, d | t in p.graph[src] && d in dirs
        ensures p.norm(t) != p.norm(d)
      {
        var j :| 0 <= j < |p.graph[src]| && p.graph[src][j] == t;
        assert p.norm(p.graph[src][j]) !in wanted;
        var k :| 0 <= k < |dirs| && dirs[k] == d;
      }
    }
  }

  method CollectTransitiveCallers(p: Project, directCallers: seq<File>, excludeFile: File) returns (transitive: set<File>)
    ensures forall f :: f in transitive <==>
      f != excludeFile && f !in directCallers && exists dc :: dc in directCallers && f in Importers(p)(dc)
  {
    transitive := {};
    for i := 0 to |directCallers|
      invariant forall f :: f in transitive <==>
        f != excludeFile && exists k :: 0 <= k < i && f in Importers(p)(directCallers[k])
    {
      var sources := FindDirectCallers(p, p.dirsOf(directCallers[i]));
      transitive := transitive + (set f | f in sources && f != excludeFile);
    }
    transitive := transitive - (set f | f in directCallers);
  }

  /** The report of Callers: the direct importers, and the files one link further. */
  method Callers(p: Project, file: File) returns (direct: seq<File>, transitive: set<File>)
    ensures forall f :: f in direct <==> f in Importers(p)(file)
    ensures forall f :: f in transitive <==> f != file && ShortestChain(p, file, f, 2)
  {
    direct := FindDirectCallers(p, p.dirsOf(file));
    transitive := CollectTransitiveCallers(p, direct, file);
    forall f
      ensures f in transitive <==> f != file && ShortestChain(p, file, f, 2)
    {
      if f != file { TwoLinks(Importers(p), file, f); }
    }
  }

  /** A direct importer of itself adds nothing: its importers are direct importers already. */
  lemma TwoLinks(step: File -> set<File>, file: File, f: File)
    requires f != file
    ensures AtDistance(step, {file}, f, 2) <==> f !in step(file) && exists n :: n in step(file) && f in step(n)
  {
    assert Within(step, {file}, 0) == {file};
    assert forall m :: m in Within(step, {file}, 1) <==> m == file || m in step(file);
    assert f in Within(step, {file}, 2) <==> f in Within(step, {file}, 1) || exists n :: n in Within(step, {file}, 1) && f in step(n);
  }

  // -------- impact.go

  /** Before level `depth`: the recorded files, with the seed at 0, are exactly labelled
      and every file more than one level back has been expanded. */
  ghost predicate LevelsOk(step: File -> set<File>, seed: File, depth: nat, visited: map<File, nat>) {
    var dist := visited[seed := 0];
    && seed !in visited
    && Exact(step, {seed}, dist)
    && (forall f :: f in dist ==> dist[f] < depth)
    && (forall f {:trigger Expanded(step, dist, f)} :: f in dist && dist[f] + 1 < depth ==> Expanded(step, dist, f))
  }

  /** currentDirs lists the directories of the files at the last level. */
  ghost predicate Frontier(p: Project, seed: File, depth: nat, visited: map<File, nat>, currentDirs: seq<Dir>) {
    var dist := visited[seed := 0];
    forall d :: d in currentDirs <==> exists f :: f in dist && dist[f] + 1 == depth && d in p.dirsOf(f)
  }

  /** The importers of the frontier are the files one link past the last level. */
  lemma FrontierCallers(p: Project, seed: File, depth: nat, visited: map<File, nat>, currentDirs: seq<Dir>, f: File)
    requires Frontier(p, seed, depth, visited, currentDirs)
    ensures
      var dist := visited[seed := 0];
      f in ImportersOf(p, currentDirs) <==> exists n :: n in dist && dist[n] + 1 == depth && f in Importers(p)(n)
  {
    var dist := visited[seed := 0];
    if f in ImportersOf(p, currentDirs) {
      var t, d :| t in p.graph[f] && d in currentDirs && p.norm(t) == p.norm(d);
      var n :| n in dist && dist[n] + 1 == depth && d in p.dirsOf(n);
      assert f in Importers(p)(n);
    }
    if n :| n in dist && dist[n] + 1 == depth && f in Importers(p)(n) {
      var t, d :| t in p.graph[f] && d in p.dirsOf(n) && p.norm(t) == p.norm(d);
      assert d in currentDirs;
    }
  }

  /** The level adds exactly the importers of the last one, with the next label. */
  ghost predicate NextLevel(step: File -> set<File>, seed: File, depth: nat, dist: map<File, nat>, dist': map<File, nat>) {
    && (forall f :: f in dist ==> f in dist' && dist'[f] == dist[f])
    && (forall f :: f in dist' && f !in dist ==> dist'[f] == depth)
    && (forall f :: f in dist' && f !in dist ==> exists n :: n in dist && dist[n] + 1 == depth && f in step(n))
    && (forall n, f :: n in dist && dist[n] + 1 == depth && f in step(n) ==> f in dist')
  }

  lemma LevelGrows(step: File -> set<File>, seed: File, depth: nat, dist: map<File, nat>, dist': map<File, nat>)
    requires depth >= 1 && NextLevel(step, seed, depth, dist, dist')
    requires Exact(step, {seed}, dist)
    requires forall f :: f in dist ==> dist[f] < depth
    requires forall f {:trigger Expanded(step, dist, f)} :: f in dist && dist[f] + 1 < depth ==> Expanded(step, dist, f)
    ensures Exact(step, {seed}, dist')
    ensures forall f {:trigger Expanded(step, dist', f)} :: f in dist' && dist'[f] < depth ==> Expanded(step, dist', f)
  {
    LayersComplete(step, {seed}, dist, depth - 1);
    hide Within;
    forall f | f in dist'
      ensures AtDistance(step, {seed}, f, dist'[f])
    {
      if f in dist {
        assert AtDistance(step, {seed}, f, dist[f]);
      } else {
        var n :| n in dist && dist[n] + 1 == depth && f in step(n);
        assert AtDistance(step, {seed}, n, dist[n]);
        NextLayer(step, {seed}, n, dist[n], f);
      }
    }
    forall f | f in dist' && dist'[f] < depth
      ensures Expanded(step, dist', f)
    {
      if dist[f] + 1 < depth {
        assert Expanded(step, dist, f);
      }
    }
  }

  /** The newly recorded files are the importers of the frontier. */
  lemma ExpansionOk(p: Project, currentDirs: seq<Dir>, seed: File, depth: nat, visited: map<File, nat>,
                    visited': map<File, nat>, nextDirs: seq<Dir>)
    requires depth >= 1 && LevelsOk(Importers(p), seed, depth, visited) && Frontier(p, seed, depth, visited, currentDirs)
    requires forall f :: f in visited' <==> f in visited || (f != seed && f in ImportersOf(p, currentDirs))
    requires forall f :: f in visited' ==> visited'[f] == if f in visited then visited[f] else depth
    requires forall d :: d in nextDirs <==> exists f :: f in visited' && f !in visited && d in p.dirsOf(f)
    ensures LevelsOk(Importers(p), seed, depth + 1, visited') && Frontier(p, seed, depth + 1, visited', nextDirs)
  {
    hide Exact, ImportersOf, Expanded;
    var dist, dist' := visited[seed := 0], visited'[seed := 0];
    assert NextLevel(Importers(p), seed, depth, dist, dist') by {
      forall f
        ensures f in ImportersOf(p, currentDirs) <==> exists n :: n in dist && dist[n] + 1 == depth && f in Importers(p)(n)
      {
        FrontierCallers(p, seed, depth, visited, currentDirs, f);
      }
    }
    LevelGrows(Importers(p), seed, depth, dist, dist');
    hide Importers, NextLevel;
    assert forall f :: f in dist' && dist'[f] + 1 == depth + 1 <==> f in visited' && f !in visited;
  }

  /** q is p with seedDirs standing for the directories of the seed file. */
  ghost predicate Seeded(p: Project, q: Project, seedFile: File, seedDirs: seq<Dir>) {
    && q.graph == p.graph && q.norm == p.norm && q.dirsOf(seedFile) == seedDirs
    && forall f :: f != seedFile ==> q.dirsOf(f) == p.dirsOf(f)
  }

  /** Whatever directories the walk starts from, there is such a project to read its chains in. */
  ghost function WithSeedDirs(p: Project, seedFile: File, seedDirs: seq<Dir>): (q: Project)
    ensures Seeded(p, q, seedFile, seedDirs)
  {
    p.(dirsOf := (f: File) => if f == seedFile then seedDirs else p.dirsOf(f))
  }

  lemma SameImporters(p: Project, q: Project, dirs: seq<Dir>)
    requires q.graph == p.graph && q.norm == p.norm
    ensures ImportersOf(p, dirs) == ImportersOf(q, dirs)
  {
    forall f
      ensures ImportsAny(p, f, dirs) <==> ImportsAny(q, f, dirs)
    {}
    hide ImportsAny;
  }

  method ExpandImpactLevel(p: Project, currentDirs: seq<Dir>, seedFile: File, depth: nat, visited: map<File, nat>,
                           ghost q: Project, ghost seedDirs: seq<Dir>)
    returns (nextDirs: seq<Dir>, visited': map<File, nat>)
    requires Seeded(p, q, seedFile, seedDirs)
    requires depth >= 1 && LevelsOk(Importers(q), seedFile, depth, visited) && Frontier(q, seedFile, depth, visited, currentDirs)
    ensures LevelsOk(Importers(q), seedFile, depth + 1, visited') && Frontier(q, seedFile, depth + 1, visited', nextDirs)
  {
    hide LevelsOk, Frontier, ImportersOf;
    SameImporters(p, q, currentDirs);
    assert seedFile !in visited by { SeedUnrecorded(q, seedFile, depth, visited); }
    visited' := visited;
    nextDirs := [];
    var nextDirSet := {};
    var callers := FindDirectCallers(p, currentDirs);
    for i := 0 to |callers|
      invariant forall f :: f in visited' <==> f in visited || (f != seedFile && f in callers[..i])
      invariant forall f :: f in visited' ==> visited'[f] == if f in visited then visited[f] else depth
      invariant nextDirSet == set d | d in nextDirs
      invariant forall d :: d in nextDirs <==> exists f :: f in visited' && f !in visited && d in q.dirsOf(f)
    {
      var caller := callers[i];
      if caller == seedFile { continue; }
      if caller in visited' { continue; }
      visited' := visited'[caller := depth];
      nextDirs, nextDirSet := AddDirs(p.dirsOf(caller), nextDirs, nextDirSet);
    }
    assert callers[..|callers|] == callers;
    ExpansionOk(q, currentDirs, seedFile, depth, visited, visited', nextDirs);
  }

  lemma SeedUnrecorded(p: Project, seed: File, depth: nat, visited: map<File, nat>)
    requires LevelsOk(Importers(p), seed, depth, visited)
    ensures seed !in visited
  {}

  method AddDirs(dirs: seq<Dir>, nextDirs: seq<Dir>, nextDirSet: set<Dir>) returns (nextDirs': seq<Dir>, nextDirSet': set<Dir>)
    requires nextDirSet == set d | d in nextDirs
    ensures nextDirSet' == set d | d in nextDirs'
    ensures forall d :: d in nextDirs' <==> d in nextDirs || d in dirs
  {
    nextDirs', nextDirSet' := nextDirs, nextDirSet;
    for k := 0 to |dirs|
      invariant nextDirSet' == set d | d in nextDirs'
      invariant forall d :: d in nextDirs' <==> d in nextDirs || d in dirs[..k]
    {
      if dirs[k] in nextDirSet' { continue; }
      nextDirSet' := nextDirSet' + {dirs[k]};
      nextDirs' := nextDirs' + [dirs[k]];
    }
    assert dirs[..|dirs|] == dirs;
  }

  /** A label map that is exact and covers Within(k) holds the files affected within k. */
  lemma CoveredIsAffected(p: Project, seed: File, dist: map<File, nat>, k: nat, f: File)
    requires Exact(Importers(p), {seed}, dist) && Within(Importers(p), {seed}, k) <= dist.Keys
    requires forall n :: n in dist ==> dist[n] <= k
    ensures f in dist <==> Affected(p, seed, f, k)
  {
    WithinIffWalk(Importers(p), {seed}, k, f);
    if f in dist {
      assert AtDistance(Importers(p), {seed}, f, dist[f]);
      WithinGrows(Importers(p), {seed}, dist[f], k);
    }
  }

  /** From any list of directories: every file some importer chain of at most maxDepth links leads to,
      with its shortest chain length, where the seed file has those directories. */
  method ReverseDependencyClosure(p: Project, seedDirs: seq<Dir>, seedFile: File, maxDepth: int, ghost q: Project)
    returns (visited: map<File, nat>)
    requires Seeded(p, q, seedFile, seedDirs)
    ensures forall f :: f in visited <==> f != seedFile && Affected(q, seedFile, f, if maxDepth < 0 then 0 else maxDepth)
    ensures forall f :: f in visited ==> ShortestChain(q, seedFile, f, visited[f])
  {
    hide Affected, Within, Frontier;
    ghost var step, bound := Importers(q), if maxDepth < 0 then 0 else maxDepth;
    visited := map[];
    var currentDirs := seedDirs;
    var depth := 1;
    SeedLevel(q, seedFile);
    while depth <= maxDepth
      invariant 1 <= depth <= bound + 1
      invariant LevelsOk(step, seedFile, depth, visited)
      invariant Frontier(q, seedFile, depth, visited, currentDirs)
    {
      var nextDirs;
      nextDirs, visited := ExpandImpactLevel(p, currentDirs, seedFile, depth, visited, q, seedDirs);
      if |nextDirs| == 0 {
        NothingDeeper(q, seedFile, depth + 1, visited, bound);
        ClosureOk(q, seedFile, depth + 1, bound, visited);
        return;
      }
      currentDirs := nextDirs;
      depth := depth + 1;
    }
    LayersComplete(step, {seedFile}, visited[seedFile := 0], bound);
    ClosureOk(q, seedFile, depth, bound, visited);
  }

  /** The report of Impact: the closure from the file's own directories, at the clamped depth. */
  method ImpactOf(p: Project, file: File, requestedDepth: int) returns (affected: map<File, nat>)
    ensures 1 <= requestedDepth <= 10 ==> forall f :: f in affected <==> f != file && Affected(p, file, f, requestedDepth)
    ensures requestedDepth <= 0 ==> forall f :: f in affected <==> f != file && Affected(p, file, f, 5)
    ensures requestedDepth > 10 ==> forall f :: f in affected <==> f != file && Affected(p, file, f, 10)
    ensures forall f :: f in affected ==> ShortestChain(p, file, f, affected[f])
  {
    hide Affected, ShortestChain;
    affected := ReverseDependencyClosure(p, p.dirsOf(file), file, ClampDepth(requestedDepth), p);
  }

  lemma SeedLevel(p: Project, seed: File)
    ensures LevelsOk(Importers(p), seed, 1, map[]) && Frontier(p, seed, 1, map[], p.dirsOf(seed))
  {
    var dist: map<File, nat> := map[][seed := 0];
    assert AtDistance(Importers(p), {seed}, seed, 0);
    assert seed in dist && dist[seed] + 1 == 1;
  }

  /** An empty frontier has no importers, so every label is already expanded. */
  lemma NothingDeeper(p: Project, seed: File, depth: nat, visited: map<File, nat>, k: nat)
    requires LevelsOk(Importers(p), seed, depth, visited) && Frontier(p, seed, depth, visited, [])
    ensures Within(Importers(p), {seed}, k) <= visited[seed := 0].Keys
  {
    var dist := visited[seed := 0];
    forall n | n in dist
      ensures Expanded(Importers(p), dist, n)
    {
      if dist[n] + 1 == depth {
        forall f
          ensures f !in Importers(p)(n)
        {
          FrontierCallers(p, seed, depth, visited, [], f);
        }
      }
    }
    LayersComplete(Importers(p), {seed}, dist, k);
  }

  lemma ClosureOk(p: Project, seed: File, depth: nat, k: nat, visited: map<File, nat>)
    requires LevelsOk(Importers(p), seed, depth, visited) && depth <= k + 1
    requires Within(Importers(p), {seed}, k) <= visited[seed := 0].Keys
    ensures forall f :: f in visited <==> f != seed && Affected(p, seed, f, k)
    ensures forall f :: f in visited ==> ShortestChain(p, seed, f, visited[f])
  {
    var dist := visited[seed := 0];
    forall f
      ensures f in dist <==> Affected(p, seed, f, k)
      ensures f in dist ==> AtDistance(Importers(p), {seed}, f, dist[f])
    {
      CoveredIsAffected(p, seed, dist, k, f);
    }
  }

  /** The two analyses agree: what Callers lists as transitive is depth 2 of the closure. */
  lemma TransitiveIsDepthTwo(p: Project, file: File, maxDepth: nat, transitive: set<File>, visited: map<File, nat>, f: File)
    requires maxDepth >= 2
    requires f in transitive <==> f != file && ShortestChain(p, file, f, 2)
    requires f in visited <==> f != file && Affected(p, file, f, maxDepth)
    requires f in visited ==> ShortestChain(p, file, f, visited[f])
    ensures f in transitive <==> f in visited && visited[f] == 2
  {
    var step := Importers(p);
    if f in transitive {
      WithinGrows(step, {file}, 2, maxDepth);
      WithinIffWalk(step, {file}, maxDepth, f);
      DistanceAtMost(step, {file}, f, visited[f], 2);
      DistanceAtMost(step, {file}, f, 2, visited[f]);
    }
  }
}
