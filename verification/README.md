# Verified cores of the code-search service

This project models the parts of the repository whose behaviour is decided by loops and shared
state rather than by I/O, and proves what they promise: the dependency graph searches, the two
reverse-dependency analyses, the chunkers, the retrieval metrics, the comparison of two benchmark
artifacts, the Java class file and RTF scanners, the embedding circuit breaker, the watcher's
debouncing, the per-user settings file and the agent's bounded message log.

Where the source changes variables, a map or a struct in place, the model is a method or a class
with the same fields, loops and branches. It is proved against a specification function or
predicate, and the properties a caller relies on are lemmas about that specification.

| file | models |
|---|---|
| `Reachability.dfy` | walks, distances and layers over any step relation (no source of its own) |
| `Graph.dfy`, `PathSearch.dfy`, `WalkSearch.dfy` | internal/graph/graph.go |
| `Impact.dfy` | internal/codeintel/impact.go, internal/codeintel/callers.go |
| `Text.dfy` | bytes of text: UTF-8 (section 4 of RFC 3629), white space, trimming, lines |
| `ProseChunks.dfy`, `CodeChunks.dfy` | internal/chunker/chunker.go |
| `SymbolChunks.dfy` | internal/chunker/chunker_ast.go |
| `Metrics.dfy`, `Report.dfy` | internal/eval/metrics.go, internal/eval/report.go, the route tally of internal/eval/runner.go |
| `ClassFile.dfy`, `Rtf.dfy` | internal/extract/classfile.go, internal/extract/formats.go |
| `Breaker.dfy` | internal/embed/circuit.go |
| `Watcher.dfy` | internal/indexing/watcher.go |
| `EnvFile.dfy` | internal/config/config.go |
| `Conversation.dfy` | internal/agent/conversation.go |
| `Basics.dfy` | sequences, set sizes and quotients |

`dafny verify dfyconfig.toml` checks everything.

## How the source is represented

- A graph node is `File(dir, name)` or `Package(dir)`; `Package([])` is the empty string. The order in
  which neighbours are visited is left open, so every result holds for every order, including the
  sorted one the source uses.
- The import graph of the code-intelligence reports is a map from files to directories. The text rules
  that turn a file into its directory keys and normalise a directory are parameters of `Impact.Project`,
  so the results hold for any such rules. Map iteration order is arbitrary.
- Text is a sequence of bytes. White space is exactly the Unicode White_Space set `strings.TrimSpace`
  removes. `NonSpace` is the text without it.
- The metrics compute over reals. `math.Log2` is any function that is positive and strictly increasing
  from 2 on; the gain is exactly `2^g - 1` (`GainDoubles`).
- Time is a parameter of each breaker step; a run is any sequence of steps with a clock that does not
  run back. A call that is granted and then cancelled leaves no further step.
- The watcher's runs are arbitrary interleavings of its critical sections with the timer runtime's
  events. A callback's re-index happens after it unlocks, so it is a step of its own.

## What the proofs found

- `chunkText` need not end. On any bytes its loop leaves exactly when no turn it comes to stalls, where a
  turn stalls if its window has no late newline and no character start (`LeavesIffNoneStalls`). On valid
  UTF-8 longer than the bound it leaves exactly when no character is wider than the bound
  (`ValidLeavesIff`), so a bound of 4 always suffices; with a bound of 2 it never gets past a euro sign
  (`EurosNeverLeave`).
- `chunkCode` falls back to `chunkText` exactly when every line is white space only and longer than the
  bound (`NoChunksIff`), and then emits empty chunks (`ProseOfBlank`); there too it ends exactly when every
  character fits (`FallbackEndsIff`). The comment at internal/chunker/chunker.go:167 expects files without
  blank lines to get there, but the last flush has chunked those; the model follows the code.
- `bfsWalk` gives a seed depth 1 instead of 0, in an answer that was not cut short, exactly when an earlier
  seed has an edge to it (`SeedDepthIff`), so all depths are exact exactly when no seed is targeted by an
  earlier one (`AllExactIff`). Two hub files, the first importing the second, show it (`HubTargetsHub`).
  With one seed every depth is exact (`SingleSeedExact`).
- A breaker call that is granted as the probe and then cancelled blocks every later call, however late
  (`AbandonedProbeBlocks`, `CancelledProbe`), until some older call resolves; `GrantedIff` is the exact
  condition.
- `cutSymbolPiece` overruns the space it is given exactly when all bytes of its candidate lie outside
  ASCII (`PieceOverrunsIff`); a symbol of three euro signs gets a chunk of 13 bytes under a bound of 7
  (`EurosOverrun`). The comment at internal/chunker/chunker_ast.go:210-211 speaks of the trailing bytes of a
  split character, but whole characters outside ASCII are trimmed as well; the model follows the code.
- The comment at internal/chunker/chunker_ast.go:136-137 says the pieces of a symbol never cross its line
  range. They do exactly when there are two or more (`WithinIffWhole`): each cut counts as a line of its own,
  so m pieces end m - 1 lines late. Two lines under a bound of 12 show it (`TwoLinesCross`); the model follows
  the code.
- `SetUserEnv` reports success for a key that starts with `#` but the entry reads back as a comment and is
  lost, the key `#k` for one (`HashKeyLost`); every other accepted key survives (`SetUserEnv`,
  `SetSurvives`). The comment at internal/config/config.go:621 promises persistence for all keys; the model
  follows the code.
- After the last write of a path, the watcher re-indexes it once for that write plus once for each
  re-index already committed when the write came (`LastWriteReindexed`), which can be twice
  (`TwoAfterLastWrite`).
- The promise of internal/agent/conversation.go:10-13 that a tool result is never separated from its call
  holds, whatever the bound, exactly when in the untrimmed log each result has an earlier call that shares
  its turn, or no second turn has opened up to the result (`NeverOrphaned`). Replies that carry results
  together with their calls meet that (`RepliesNeverOrphaned`); a result handed over a turn later than its
  call need not (`LateResultOrphaned`).

## Model

| member | source | states |
|---|---|---|
| Reachability.WithinIffWalk | internal/graph/graph.go:351-373 | the layered reach the searches are proved against is exactly what walks of at most that many edges reach |
| Reachability.LayersComplete | internal/graph/graph.go:351-373 | if all labels are exact and every label nearer than k was expanded, no node within k is missing |
| Reachability.NextLayer | internal/graph/graph.go:391-408 | a step out of a complete layer lands at exactly one more than its distance |
| Graph.Index.Build | internal/graph/graph.go:166-189 | the index fields agree with the given imports and inventory: sources with their normalised targets, the known files, and the files of each package, every list without repetition; what normalised targets and packages are is said by the edges below |
| Graph.Index.AddFile | internal/graph/graph.go:191-204 | a file not seen before is appended to the file list and to its package's, one seen before to neither, so no list repeats an entry |
| Graph.Index.NormalizeTargets | internal/graph/graph.go:206-226 | targets without an extension become directories, empty ones go, each is kept once |
| Graph.Index.AddSources | internal/graph/graph.go:172-179 | every non-empty source has its normalised targets and counts as a known file |
| Graph.Index.AddInventory | internal/graph/graph.go:180-182 | files that import nothing are known too |
| Graph.Index.NeighborsDirected | internal/graph/graph.go:229-249 | lists exactly the contains edges of a package, or the import edges of a file |
| Graph.Index.ReversePackageEdges | internal/graph/graph.go:261-276 | lists exactly the importers of a package, matched with or without the slash, as reverse edges |
| Graph.Index.NeighborsUndirected | internal/graph/graph.go:252-284 | lists exactly the forward edges together with the reverse ones |
| Graph.ContainsEdges | internal/graph/graph.go:84-105 | a package contains exactly the known files of its directory; a file whose name has no dot is a directory of its own |
| Graph.ImportEdges | internal/graph/graph.go:206-249 | a file imports exactly the dotted files it names, and the directories it names with or without the slash |
| Graph.ImporterEdges | internal/graph/graph.go:261-295 | walked back, a package leads to exactly the sources that import its directory, with or without the slash |
| Graph.ContainerEdges | internal/graph/graph.go:278-284 | walked back, a file leads to exactly the directory it lies in, unless that is the root |
| Graph.TwoHops | internal/graph/graph.go:201-249 | a source is two hops from every known dotted file of a directory it imports |
| Graph.QueuePush | internal/graph/graph.go:391-408 | adding an unseen node one layer further keeps the queue sorted by distance, over two layers at most |
| Graph.NearerIsDone | internal/graph/graph.go:351-373 | whatever is nearer than the head of the queue has been dequeued |
| PathSearch.EnqueueNeighbors | internal/graph/graph.go:391-408 | scanning the neighbours keeps every label exact and every parent link a graph edge, and stops exactly when the target is labelled |
| PathSearch.Reconstruct | internal/graph/graph.go:410-434 | following parent links back yields a repetition-free edge path from source to target whose length is the target's distance |
| PathSearch.PathIsShortest | internal/graph/graph.go:410-434 | no walk in the graph is shorter than the reconstructed path |
| PathSearch.NoWalk | internal/graph/graph.go:351-373 | being outside the searched region means no walk of at most that many edges exists |
| PathSearch.DoneWithin | internal/graph/graph.go:359-362 | all visited nodes lie within the depth, so exceeding the visit budget proves the region larger than it |
| PathSearch.Bfs | internal/graph/graph.go:351-373 | found: a shortest path within the depth; neither found nor truncated: the target is out of reach; truncated only when more nodes are in reach than may be visited |
| PathSearch.ShortestPath | internal/graph/graph.go:306-344 | a reported path is shortest in the graph it claims; an undirected answer that was not truncated, and a miss, mean no directed path within the depth; if the region fits the budget, the directed search decides reachability, and the undirected one in its graph; a node is reached from itself; limits the caller set are the limits |
| PathSearch.TwoHopsWithin | internal/graph/graph.go:306-344 | so such a file is within reach at any depth of at least 2 |
| WalkSearch.BfsWalk | internal/graph/graph.go:490-545 | always sound; complete when not truncated; truncated only if the edge cap was filled or more nodes lie in reach than may be visited |
| WalkSearch.Neighborhood | internal/graph/graph.go:448-488 | the same with defaults filled in and the seeds chosen: the one named, with all depths exact even when truncated, or the hubs, with the exact condition for a seed's depth when not truncated; limits the caller set are the limits |
| WalkSearch.HubSeeds | internal/graph/graph.go:572-595 | at most n distinct sources, most targets first, none left out that lists more |
| WalkSearch.SeedDepthIff | internal/graph/graph.go:524-530 | a seed's depth is 0 or 1; 1 only if an earlier seed has an edge to it, and exactly then when nothing was cut |
| WalkSearch.AllExactIff | internal/graph/graph.go:490-545 | untruncated, every depth is the distance exactly when no seed is targeted by an earlier one |
| WalkSearch.HubTargetsHub | internal/graph/graph.go:524-530 | a graph of two hubs in which the second, a seed, gets depth 1 |
| WalkSearch.SingleSeedExact | internal/graph/graph.go:511-530 | for one seed every listed node carries its distance |
| WalkSearch.WalkIsSound | internal/graph/graph.go:490-545 | listed nodes are in reach with exact depths (seed exception spelled out); edges are distinct, capped, real, leave nodes nearer than the bound and join listed nodes |
| WalkSearch.WalkIsComplete | internal/graph/graph.go:490-545 | untruncated, the nodes are exactly those within the depth and the edges exactly those leaving nodes nearer than it |
| WalkSearch.HitIffTarget | internal/graph/graph.go:527-530 | exactly when a waiting seed already carries a depth: an earlier seed has a recorded edge to it |
| WalkSearch.AlreadySeen | internal/graph/graph.go:520-532 | until the cap is hit, an edge key seen before means that very edge is recorded and its target seen |
| WalkSearch.VisitedWithin | internal/graph/graph.go:506-510 | exceeding the visit budget proves the region larger than it |
| WalkSearch.ScanNeighbors | internal/graph/graph.go:517-542 | one node's edges keep labels, cap and completeness, whatever their order |
| Impact.FindDirectCallers | internal/codeintel/callers.go:186-201 | each file importing one of the directories, once |
| Impact.CollectTransitiveCallers | internal/codeintel/callers.go:204-222 | importers of the direct callers, without those callers and the file itself |
| Impact.Callers | internal/codeintel/callers.go:63-71 | direct: the importers; transitive: the files whose shortest importer chain has exactly two links |
| Impact.ExpandImpactLevel | internal/codeintel/impact.go:90-110 | one level adds exactly the files one link past the last and yields exactly their directories |
| Impact.ReverseDependencyClosure | internal/codeintel/impact.go:74-86 | from any seed directories: exactly the files some importer chain of at most maxDepth links leads to, each with its shortest chain length, the seed file left out |
| Impact.ImpactOf | internal/codeintel/impact.go:45-63 | the same from the file's own directories, at the depth asked for if that is 1 to 10, at 5 if it is less and at 10 if it is more |
| Impact.LevelGrows | internal/codeintel/impact.go:78-84 | a level-by-level labelling stays exact and fully expanded |
| Impact.NothingDeeper | internal/codeintel/impact.go:80-82 | stopping at a level without directories misses nothing at any depth |
| Impact.TwoLinks | internal/codeintel/callers.go:204-222 | union of importers less direct callers is distance two; a file importing itself changes nothing |
| Impact.TransitiveIsDepthTwo | internal/codeintel/callers.go:204-222 | the transitive callers are exactly the files the closure lists at depth 2, for any graph and any depth of at least 2 |
| Text.ValidSplit | internal/chunker/chunker.go:273-285 | cutting valid UTF-8 where a character starts leaves two valid texts |
| Text.BoundaryNear | internal/chunker/chunker.go:280-284 | in valid text a character starts at most three bytes back from any position |
| Text.TrimKeeps | internal/chunker/chunker.go:186-192 | trimming removes white space only |
| Text.BlankIffNoText | internal/chunker/chunker.go:186-192 | a text trims to nothing exactly when it holds no other character |
| Text.NonSpaceConcat | internal/chunker/chunker.go:207-229 | joining texts joins their characters, if no character straddles the seam |
| Text.ScalarIsRune | internal/chunker/chunker.go:280-284 | the encoding of a scalar value (section 3 of RFC 3629) is one character, and only its first byte starts one |
| Text.RuneIsScalar | internal/chunker/chunker.go:280-284 | every character is the encoding of a scalar value |
| Text.EncodedIsValid | internal/chunker/chunker.go:313-333 | what encodes scalar values is valid text |
| Text.ValidIsEncoded | internal/chunker/chunker.go:313-333 | and all valid text does |
| Text.SpaceIff | internal/chunker/chunker.go:186-192 | an encoded scalar value counts as white space exactly when it has the Unicode White_Space property |
| Text.SpaceIsScalar | internal/chunker/chunker.go:186-192 | and in any bytes nothing else does |
| Text.TrimIs | internal/chunker/chunker.go:186-192 | trimming takes white space only, off both ends, and leaves none at either |
| ProseChunks.ProseCutEnd | internal/chunker/chunker.go:273-285 | both scans end where the cut function says, which `CutIff` describes |
| ProseChunks.ProseNextStart | internal/chunker/chunker.go:289-298 | the overlap, snapped back, or the end when that would not advance; `OverlapIff` describes it |
| ProseChunks.ChunkText | internal/chunker/chunker.go:243-267 | whenever the loop ends at all: one trimmed chunk for short text, and otherwise one per window, numbered by the newlines before its first and last byte; windows are cut and overlap as described below |
| ProseChunks.CutIff | internal/chunker/chunker.go:273-285 | exactly one end of a window: past its last newline if that lies beyond the half, otherwise the last character start within the bound |
| ProseChunks.OverlapIff | internal/chunker/chunker.go:289-298 | exactly one next start: the last character start that leaves a tenth of the bound as overlap and lies past this window's start, or else this window's end |
| ProseChunks.WindowsAre | internal/chunker/chunker.go:252-266 | every window of the text is cut so, and each next one starts so |
| ProseChunks.ProseIs | internal/chunker/chunker.go:243-267 | the chunks are those of such windows, each trimmed, with the lines of its first and last byte |
| ProseChunks.CountIs | internal/chunker/chunker.go:301-309 | a line number is one more than the number of newlines before the offset |
| ProseChunks.StallsIff | internal/chunker/chunker.go:273-298 | exactly when a turn starts again where it started: no newline past the half and no character start in the window |
| ProseChunks.LeavesIffNoneStalls | internal/chunker/chunker.go:252-266 | on any bytes the loop leaves exactly when no turn it comes to stalls |
| ProseChunks.ValidLeavesIff | internal/chunker/chunker.go:252-266 | on valid UTF-8 longer than the bound the loop leaves exactly when no character is wider than the bound |
| ProseChunks.NoneWiderEnds | internal/chunker/chunker.go:252-266 | from any character boundary the loop ends if every character fits a window |
| ProseChunks.Trapped | internal/chunker/chunker.go:252-266 | no turn ever starts past a character wider than a window |
| ProseChunks.ValidTerminates | internal/chunker/chunker.go:243-267 | valid UTF-8 and a bound of at least 4 always terminate |
| ProseChunks.EurosNeverLeave | internal/chunker/chunker.go:252-266 | with a bound of 2 every turn on two euro signs starts at 0 again, however many there are |
| ProseChunks.ChunkPerWindow | internal/chunker/chunker.go:252-266 | chunk i is window i, trimmed |
| ProseChunks.WindowsCover | internal/chunker/chunker.go:252-266 | windows start at 0, end at the text's end, strictly advance, leave no gap and stay within the bound |
| ProseChunks.StepOk | internal/chunker/chunker.go:252-298 | both ends of a step are character boundaries, the ends advance, and newline cut, snap-back and overlap together leave a minimum stride |
| ProseChunks.WindowsValid | internal/chunker/chunker.go:252-266 | every window of valid text is valid UTF-8, and the window ends advance |
| ProseChunks.WindowOnBoundaries | internal/chunker/chunker.go:252-266 | on any valid text whose loop ends, every window begins and ends on a character boundary |
| ProseChunks.WindowsCount | internal/chunker/chunker.go:249-298 | at most 1 + len/(maxChars/2 - maxChars/10 - 1) chunks, for a bound of at least 20 |
| CodeChunks.SplitRunes | internal/chunker/chunker.go:313-333 | the loop yields the pieces, each cut as `CutPointIff` says |
| CodeChunks.CutPointIff | internal/chunker/chunker.go:315-328 | exactly one cut of a string over the bound: the last character start within it, or, without one past the front, the first beyond |
| CodeChunks.PiecesAre | internal/chunker/chunker.go:313-333 | the pieces are what such cuts leave, until the rest is within the bound |
| CodeChunks.PiecesConserve | internal/chunker/chunker.go:313-333 | any bytes: the pieces join to the line and hold exactly its characters |
| CodeChunks.PiecesBounded | internal/chunker/chunker.go:313-333 | valid text: each piece is within the bound and valid UTF-8 |
| CodeChunks.CodeAccumulator.Flush | internal/chunker/chunker.go:186-192 | non-empty pending text becomes one trimmed chunk, an empty one if it was blank, and nothing stays pending |
| CodeChunks.CodeAccumulator.Append | internal/chunker/chunker.go:207-229 | a line that does not fit flushes first; the line then joins with its newline |
| CodeChunks.CodeAccumulator.AppendOversizedLine | internal/chunker/chunker.go:234-241 | flushes, then one chunk for each piece that is not blank |
| CodeChunks.CodeAccumulator.Take | internal/chunker/chunker.go:146-163 | one turn of the line loop |
| CodeChunks.LinesConserve | internal/chunker/chunker.go:137-241 | whatever the bytes, the chunks hold exactly the lines' characters, in order |
| CodeChunks.LinesChunksOk | internal/chunker/chunker.go:137-241 | chunks are maximal runs of lines or pieces of oversized lines, with ascending, disjoint line ranges otherwise; a run adjoining the next could not have taken its first line |
| CodeChunks.ChunkFits | internal/chunker/chunker.go:207-241 | every chunk is within the bound when oversized lines are ASCII, or valid text and a character fits |
| CodeChunks.ScanLinesOk | internal/chunker/chunker.go:335-346 | the scanner's lines join to the input and hold its characters |
| CodeChunks.ScanLinesEnd | internal/chunker/chunker.go:335-346 | a line's newline is its last byte, and only the last line may lack it |
| CodeChunks.ScanLinesValid | internal/chunker/chunker.go:335-346 | they cut no character of valid text |
| CodeChunks.NoChunksIff | internal/chunker/chunker.go:146-170 | lines yield no chunk at all exactly when each is white space only and longer than the bound |
| CodeChunks.FallbackEndsIff | internal/chunker/chunker.go:167-170 | content that falls back to prose is white space only, and the fallback ends exactly when every character fits a window |
| CodeChunks.ChunkCode | internal/chunker/chunker.go:137-173 | conserves the content's characters, is the chunking of its lines or, exactly when those yield nothing, the prose chunking, and is bounded on valid text |
| CodeChunks.ProseOfBlank | internal/chunker/chunker.go:167-170 | the prose fallback sees only white space and emits only empty chunks |
| SymbolChunks.FindDocCommentStart | internal/chunker/chunker_ast.go:67-83 | the line from which on all lines down to the symbol are comments, the one above it, if not emitted yet, being none |
| SymbolChunks.DocStartIff | internal/chunker/chunker_ast.go:67-83 | there is exactly one such line |
| SymbolChunks.CommentIff | internal/chunker/chunker_ast.go:75-77 | the six openings that make a line a comment |
| SymbolChunks.CutSymbolPiece | internal/chunker/chunker_ast.go:186-208 | all that remains, or a prefix that fits and ends in an ASCII byte, or, without an ASCII byte in reach, maxChars bytes |
| SymbolChunks.PieceEndIff | internal/chunker/chunker_ast.go:186-218 | exactly one length of a piece: all that is left if it fits; otherwise up to the last ASCII byte before the last newline past half the space, or before the end of the space; or, without one, maxChars bytes |
| SymbolChunks.TrimRuneBoundary | internal/chunker/chunker_ast.go:212-218 | takes all trailing bytes outside ASCII, whole characters included |
| SymbolChunks.EurosOverrun | internal/chunker/chunker_ast.go:138-208 | a symbol of three euro signs whose chunk exceeds the bound |
| SymbolChunks.PieceOverrunsIff | internal/chunker/chunker_ast.go:186-218 | exactly when a piece exceeds its space: no ASCII byte in the candidate, whose end `LimitIff` describes |
| SymbolChunks.LimitIff | internal/chunker/chunker_ast.go:191-201 | the candidate ends at the last newline past half the space, or at the end of the space |
| SymbolChunks.TrimTailIff | internal/chunker/chunker_ast.go:212-218 | and what is left of it ends in its last ASCII byte |
| SymbolChunks.HeaderIff | internal/chunker/chunker_ast.go:111 | a header is an opening bracket, the kind, a closing bracket and a space, the name and a newline, and nothing else is one |
| SymbolChunks.BodyIsSplit | internal/chunker/chunker_ast.go:108-181 | a symbol that fits with its header is one chunk on its own lines; otherwise every chunk is the header and a piece cut as above, starting on the line after the chunk before; a header that leaves no room is split with the content |
| SymbolChunks.WithinIffWhole | internal/chunker/chunker_ast.go:136-164 | a symbol's chunks stay within its lines exactly when there is at most one |
| SymbolChunks.TwoLinesCross | internal/chunker/chunker_ast.go:136-164 | a symbol of two lines whose chunks run past its second line |
| SymbolChunks.SplitSymbolChunks | internal/chunker/chunker_ast.go:138-164 | one chunk per piece, each headed by the prefix, or the split of prefix and content when the prefix leaves no room |
| SymbolChunks.SymbolPiecesJoin | internal/chunker/chunker_ast.go:138-181 | the pieces join to the content byte for byte |
| SymbolChunks.UnprefixedPieces | internal/chunker/chunker_ast.go:138-164 | taking the prefix off the chunks gives the pieces back |
| SymbolChunks.AsciiPiecesFit | internal/chunker/chunker_ast.go:138-208 | for ASCII content and a prefix shorter than the bound every chunk is within it |
| SymbolChunks.SortByStart | internal/chunker/chunker_ast.go:36-40 | a permutation of the symbols, ascending by start line |
| SymbolChunks.ChunkLines | internal/chunker/chunker_ast.go:223-257 | the clipped line range, chunked like code |
| SymbolChunks.AstChunkFromSyms | internal/chunker/chunker_ast.go:34-134 | every slice is in range; the lines join to the content and each is handed to chunks that keep all of its stretch; every symbol has a stretch of the chunks, headed with its kind and name, that holds its lines from its doc comment to its clipped end; without symbols the chunks hold the content's text; for ASCII content and kinds and names at least five bytes short of the bound every chunk is within it |
| SymbolChunks.PlanCovers | internal/chunker/chunker_ast.go:48-62 | every line lies in some gap or body, however symbols nest or overlap |
| SymbolChunks.SegmentIsKept | internal/chunker/chunker_ast.go:87-134 | a gap keeps its characters and is chunked like code, or not at all if blank; a body is split under its header and keeps its bytes once that is taken off |
| SymbolChunks.AstLosesNothing | internal/chunker/chunker_ast.go:34-134 | every line of the file is handed to a stretch of the chunks that keeps all the text of its gap or all the bytes of its symbol, the symbol's stretch running from comment lines directly above it to its end in the file |
| SymbolChunks.AstKeepsSymbols | internal/chunker/chunker_ast.go:48-60 | every symbol given has such a stretch |
| SymbolChunks.PlanSymbols | internal/chunker/chunker_ast.go:50-60 | every body in the plan is a symbol of the list given, from comment lines directly above it to its last line in the file |
| SymbolChunks.LinesHoldContent | internal/chunker/chunker_ast.go:43-62 | the lines join to the content and hold its text, and without symbols so do the chunks |
| SymbolChunks.PlanFits | internal/chunker/chunker_ast.go:34-257 | ASCII files with short prefixes: every chunk is within the bound |
| Metrics.SortDescending | internal/eval/metrics.go:46-52 | the swap loop sorts: descending, and a permutation |
| Metrics.IdealGrades | internal/eval/metrics.go:40-52 | the ideal list is all judged grades, best first |
| Metrics.IdealUnique | internal/eval/metrics.go:40-52 | the order in which the map is iterated does not matter |
| Metrics.DiscountedGain | internal/eval/metrics.go:26-40 | the loop earns each judged file's discounted gain once, at its first rank: the sum of (2^grade - 1) / log2(rank + 2) |
| Metrics.GainDoubles | internal/eval/metrics.go:66 | the gain is 0 at grade 0 and one more than double with each grade, negative ones too, which makes it 2^grade - 1 |
| Metrics.GainIsTwoTo | internal/eval/metrics.go:66 | for judged grades it is one less than the integer power of two |
| Metrics.DcgIsDiscounted | internal/eval/metrics.go:26-60 | a discounted gain is the sum over ranks from 0 of terms t with t * log2(rank + 2) = 2^grade - 1 |
| Metrics.ScoreIsFormula | internal/eval/metrics.go:22-64 | the score times the sum for the best grades is the sum for the credited ones |
| Metrics.WrongWayRound | internal/eval/metrics.go:22-64 | grades 3 and 1 ranked in reverse at cutoff 2 score (1/log2 2 + 7/log2 3) / (7/log2 2 + 1/log2 3) |
| Metrics.EarnedIsHits | internal/eval/metrics.go:26-40 | duplicates earn nothing: the gains are those of distinct judged files |
| Metrics.TopSum | internal/eval/metrics.go:42-60 | no selection of m judged files gains more than the m best |
| Metrics.Abel | internal/eval/metrics.go:22-64 | a ranking behind in every prefix is behind after any decreasing discount, equal only if equal in every prefix |
| Metrics.DcgBound | internal/eval/metrics.go:22-64 | DCG is between 0 and IDCG, and equal to it exactly when the credited grades are the ideal ones rank by rank |
| Metrics.ScoreBounds | internal/eval/metrics.go:22-64 | the score lies in [0,1] and is 1 exactly for a perfect ranking |
| Metrics.BestFirstIsPerfect | internal/eval/metrics.go:22-64 | listing the positively graded files first in non-increasing grade order scores 1, also when there are more of them than k |
| Metrics.NDCG | internal/eval/metrics.go:22-64 | the method's score is that score, within [0,1], and 1 exactly for a perfect ranking |
| Metrics.CountHits | internal/eval/metrics.go:79-101 | counts distinct judged-positive files among the first ranks |
| Metrics.MRR | internal/eval/metrics.go:69-76 | the reciprocal of the first hit's rank: zero exactly without a hit, one exactly when the first file is one |
| Metrics.PrecisionAt | internal/eval/metrics.go:79-101 | in [0,1]; times the ranks looked at it is the number of distinct hits |
| Metrics.RecallAt | internal/eval/metrics.go:104-122 | in [0,1]; times the number of judged files it is the number of distinct hits |
| Metrics.GainIffHit | internal/eval/metrics.go:22-101 | DCG is positive exactly when precision counts a hit |
| Report.TallyRoutes | internal/eval/runner.go:113-116 | each non-empty route is counted as often as it was taken |
| Report.DiffRouteCounts | internal/eval/report.go:109-131 | the non-zero differences; none when either side has no route evidence |
| Report.PreviousRoutes | internal/eval/report.go:137-142 | the last non-empty route recorded for each key |
| Report.DiffRouteTransitions | internal/eval/report.go:133-157 | counts for each pair of routes the queries that moved from one to the other |
| Report.BeforeIff | internal/eval/report.go:137-164 | the route remembered for a name is that of the last answered query that goes by it: by its id, or, without one, by its text |
| Report.MovesAre | internal/eval/report.go:133-164 | the count of a transition is the number of candidate queries whose name was last answered by the one route and that took the other |
| Report.TakenAre | internal/eval/runner.go:113-116 | a route's tally is the number of queries it answered |
| Report.RouteConservation | internal/eval/report.go:109-157 | unique keys: a route's change in count is what moved in less what moved out, plus the queries only the candidate has, less those only the baseline has, which are none when the keys agree |
| Report.DeltaIsFlow | internal/eval/report.go:75-157 | the same for the reported delta, with both counts tallied from the queries |
| Report.SwapReverses | internal/eval/report.go:133-157 | comparing the other way round reverses every transition |
| Report.SwapNegates | internal/eval/report.go:109-131 | and negates every difference |
| Rtf.ControlWord | internal/extract/formats.go:352-365 | takes the letters, the parameter and one space, and no more |
| Rtf.Parser.Parse | internal/extract/formats.go:248-268 | always advances, reads to the end and leaves the fields where the scan function does, on any bytes; the rows below say what the scan function makes of each piece |
| Rtf.Parser.HandleEscape | internal/extract/formats.go:282-291 | one escape consumes and emits what its kind says; skipped words do nothing |
| Rtf.Parser.TryHexEscape | internal/extract/formats.go:325-334 | a hex pair emits what `HexIsByte`, `HexIsSigned` and `HexIsNothingIff` say, unless skipping |
| Rtf.HexIsByte | internal/extract/formats.go:325-334 | two hex digits, each in either case, emit the UTF-8 form of the Latin-1 character they number |
| Rtf.HexIsSigned | internal/extract/formats.go:325-334 | a sign in the first place is accepted: plus emits the digit's character, minus U+FFFD, or NUL for minus zero |
| Rtf.HexIsNothingIff | internal/extract/formats.go:325-334 | nothing is emitted exactly when the second byte is no digit or the first is neither digit nor sign |
| Rtf.ScanHex | internal/extract/formats.go:282-334 | wherever the scan meets a hex pair, it writes that character, or drops it while skipping, and goes on behind it |
| Rtf.ScanWord | internal/extract/formats.go:282-365 | wherever it meets a control word, with its parameter and space: five words write a line break, two a tab, seven start dropping the rest of the group, all others do nothing |
| Rtf.ScanPlain | internal/extract/formats.go:248-268 | text without braces, backslashes and line ends is written as it is |
| Rtf.Cafe | internal/extract/formats.go:239-365 | the document {\rtf1 caf\'e9} reads as caf and the UTF-8 form of U+00E9 |
| Rtf.LetterIff | internal/extract/formats.go:352-367 | which bytes are letters of a control word, and which of its parameter |
| Rtf.Parser.CloseGroup | internal/extract/formats.go:272-278 | leaving the group that started skipping ends it |
| Rtf.Parser.ApplyControlWord | internal/extract/formats.go:338-347 | a destination starts skipping at this depth; breaks emit |
| Rtf.Sync | internal/extract/formats.go:239-365 | scanning a printed list of elements takes the scanner from any state to the one the tree determines |
| Rtf.ScanIsEval | internal/extract/formats.go:239-365 | for every printed document the scanner emits what the tree evaluator says and ends at depth 0 |
| Rtf.ReadSound | internal/extract/formats.go:239-365 | whatever the recursive reader reads, printed back, is the input |
| Rtf.BalancedScan | internal/extract/formats.go:239-365 | on every input with balanced braces the scanner emits what reading and evaluating gives: a destination drops the rest of its own group and nothing else |
| ClassFile.ReadEncoded | internal/extract/classfile.go:77-99 | every entry reads back from its bytes |
| ClassFile.ReadIsEncoded | internal/extract/classfile.go:77-99 | whatever reads as an entry is an entry's bytes |
| ClassFile.EntryWidth | internal/extract/classfile.go:77-99 | for every tag of section 4.4 and every other one: the entry is read exactly if its bytes are there, takes just those, and is recorded as the text or name index in them |
| ClassFile.NextIndex | internal/extract/classfile.go:55-99 | an entry's index is one more than the one before, two after a Long or Double |
| ClassFile.BigEndian | internal/extract/classfile.go:163-180 | two- and four-byte numbers have their high byte first |
| ClassFile.PoolRoundTrip | internal/extract/classfile.go:55-72 | an encoded pool parses to its own tables with the cursor at its end |
| ClassFile.ParsedIsEncoded | internal/extract/classfile.go:55-72 | whatever parses is an encoded pool, so the parser accepts nothing else |
| ClassFile.TablesDescribe | internal/extract/classfile.go:55-72 | the tables hold exactly the Utf8 and Class entries under their own index, Long and Double taking two |
| ClassFile.Reader.U2 | internal/extract/classfile.go:163-170 | reads big-endian within the buffer, or latches the error and reads nothing |
| ClassFile.Reader.Need | internal/extract/classfile.go:146-152 | grants a read exactly if it fits and no error is latched |
| ClassFile.Reader.ReadConstEntry | internal/extract/classfile.go:77-99 | agrees with the entry format on every input, short and unknown ones included |
| ClassFile.Reader.ParseConstantPool | internal/extract/classfile.go:55-72 | succeeds without error exactly on a parsable pool, with its tables and what is left |
| ClassFile.ClassAPI | internal/extract/classfile.go:20-50 | computes the extraction function on arbitrary bytes, no read leaving the buffer |
| ClassFile.ApiRoundTrip | internal/extract/classfile.go:20-50 | an encoded class file yields its own tables and this_class |
| ClassFile.ApiIsEncoded | internal/extract/classfile.go:20-50 | whatever is accepted is a class file whose header, pool and fields were all in bounds |
| Breaker.CircuitBreaker.Allow | internal/embed/circuit.go:81-97 | grants, probe mark and remaining time, for every state |
| Breaker.CircuitBreaker.RecordSuccess | internal/embed/circuit.go:99-105 | closes the breaker |
| Breaker.CircuitBreaker.RecordFailure | internal/embed/circuit.go:107-115 | counts, ends the probe, reopens at or above the threshold |
| Breaker.Configure | internal/embed/circuit.go:64-75 | settings that are positive are kept; three failures and 30 seconds stand in for the others |
| Breaker.StateMeaning | internal/embed/circuit.go:81-115 | in every interleaving the fields are the failures since the last success, the unresolved probe and the cooldown since the last failure |
| Breaker.GrantedIff | internal/embed/circuit.go:81-97 | a call is granted exactly below the threshold, or after the cooldown with no probe unresolved |
| Breaker.AbandonedProbeBlocks | internal/embed/circuit.go:187-189 | a probe that is never resolved blocks every later call |
| Breaker.CancelledProbe | internal/embed/circuit.go:187-189 | a run of one failure and one cancelled probe after which no call is ever let through |
| Breaker.ProbesAreSeparated | internal/embed/circuit.go:81-115 | between two probes some call resolved |
| Breaker.ProbesAreSpaced | internal/embed/circuit.go:81-115 | without a success in between, probes are at least a cooldown apart |
| Breaker.ProbeRate | internal/embed/circuit.go:81-115 | at most 1 + T/cooldown probes in a window of length T |
| Breaker.RetryTransient | internal/embed/circuit.go:141-168 | every attempt but the last was transient and uncancelled; how the last one ended decides the result |
| Breaker.Embed | internal/embed/circuit.go:170-191 | a refused call changes nothing; a granted one ends as its attempts say, and success closes the breaker, failure counts once and ends the probe, cancellation records nothing, whatever other calls do in between |
| Breaker.Elsewhere | internal/embed/circuit.go:81-115 | any steps of other calls, made through the breaker's methods |
| Watcher.Debouncer.Debounce | internal/indexing/watcher.go:148-168 | stops the previous timer of the path and registers the new one |
| Watcher.Debouncer.Callback | internal/indexing/watcher.go:157-165 | goes on to re-index exactly when its timer is still the registered one |
| Watcher.Debouncer.CancelTimers | internal/indexing/watcher.go:85-91 | stops every registered pending timer and no other |
| Watcher.RunTidy | internal/indexing/watcher.go:85-168 | in every interleaving each path's registered timer is its newest, and only registered timers are pending |
| Watcher.SupersededGivesUp | internal/indexing/watcher.go:153-165 | once a newer timer for its path exists, a timer that has not gone on to re-index never does, whatever follows |
| Watcher.RunOwed | internal/indexing/watcher.go:148-168 | without cancellation a path has a live registered timer exactly while its last write is unserved |
| Watcher.LastWriteCommitsOnce | internal/indexing/watcher.go:148-168 | once all is settled, each path's last write was followed by exactly one commit to re-index |
| Watcher.LastWriteReindexed | internal/indexing/watcher.go:148-168 | and by one re-index of its own, beside those already committed when it came |
| Watcher.TwoAfterLastWrite | internal/indexing/watcher.go:148-168 | a run in which two re-indexes follow the last write |
| EnvFile.ParseEnvFile | internal/config/config.go:743-761 | the line loop computes the parse function |
| EnvFile.ParseLast | internal/config/config.go:743-761 | a key is read exactly if some line sets it, and has the value of the last one that does; a line sets what stands trimmed on the two sides of its first '=', unless it is a comment |
| EnvFile.ParseEntry | internal/config/config.go:667-669 | a printed entry parses to its key and trimmed value, unless the key makes it a comment |
| EnvFile.ParsePrint | internal/config/config.go:653-672 | printing and parsing any printable map keeps exactly the entries that are no comments, in whatever order they are printed |
| EnvFile.ParseIsParsed | internal/config/config.go:743-761 | every parsed map has trimmed one-line keys without '=' or leading '#', and trimmed values |
| EnvFile.ParseIsStable | internal/config/config.go:653-672 | whatever bytes the file held, what was read can be written back without loss |
| EnvFile.WriteUserEnv | internal/config/config.go:653-672 | writes the header and each entry once |
| EnvFile.Spelling | internal/config/config.go:667 | the bytes of the header, of '=' and of '#', as text |
| EnvFile.SetUserEnv | internal/config/config.go:623-637 | rejects exactly the stated keys and values; otherwise a load returns the old map updated, unless the key starts with '#' |
| EnvFile.SetSurvives | internal/config/config.go:623-637 | exactly when the new entry survives the round trip |
| EnvFile.HashKeyLost | internal/config/config.go:623-637 | the key #k is accepted, written and gone when read back |
| EnvFile.UnsetUserEnv | internal/config/config.go:641-651 | a load returns the old map without the key; an absent key leaves the file alone |
| Conversation.Conversation.AddUser | internal/agent/conversation.go:32-35 | appends a user message and trims to the last turns |
| Conversation.Conversation.AddTurnMessages | internal/agent/conversation.go:39-42 | appends the reply and trims to the last turns |
| Conversation.Conversation.Clear | internal/agent/conversation.go:45-47 | forgets everything |
| Conversation.Conversation.Trim | internal/agent/conversation.go:54-71 | keeps exactly the log from its maxTurns-th last user message on |
| Conversation.KeptIff | internal/agent/conversation.go:54-71 | exactly which messages a cut keeps: those fewer than maxTurns users follow |
| Conversation.KeptAppend | internal/agent/conversation.go:54-71 | trimming early loses nothing that trimming late would keep |
| Conversation.RunIsOneCut | internal/agent/conversation.go:32-71 | after any run the retained messages are one cut of the log that was never trimmed |
| Conversation.TurnsHeld | internal/agent/conversation.go:52-71 | the number of turns held is the smaller of maxTurns and those there were |
| Conversation.SameTurnKept | internal/agent/conversation.go:10-13 | a retained message keeps every earlier message of its turn |
| Conversation.NeverOrphaned | internal/agent/conversation.go:10-13 | no bound ever separates a result from its call exactly when each result of the untrimmed log has an earlier call in its turn, or no second turn has opened up to it |
| Conversation.RepliesNeverOrphaned | internal/agent/conversation.go:10-13 | in particular when each reply brings results with their calls |
| Conversation.PairedStays | internal/agent/conversation.go:10-13 | results that share a turn with their calls do so after every run |
| Conversation.LateResultOrphaned | internal/agent/conversation.go:10-13 | a concrete run in which a late result loses its call |

## Left out

- Node identifiers as text: `path.Clean`, `..` segments and trimming of identifiers; import sources are taken to be files.
- The sorted order of neighbours, result nodes, result edges, caller lists and printed settings; results hold for any order.
- WalkSearch.BfsWalk: asks for distinct seeds and a positive budget, which `neighborhood` guarantees.
- WalkSearch.Neighborhood: the kind, label and degrees of a listed node are not part of the answer; hubs of equal degree come in any order, where the source breaks ties by name.
- The text rules of `DependencyDirsForFile` and `normalizeDependencyDir`; they are parameters, about which nothing is assumed.
- ProseChunks.ChunkText: asks that the loop ends, which is exactly what the source needs to return; negative bounds are not modelled.
- CodeChunks.ChunkCode: asks the same where the prose fallback is reached, and a positive bound. The scanner's limit on the length of a line is outside the model.
- SymbolChunks.AstChunkFromSyms: symbols must start inside the file with start at or before end; the symbol extractors are not modelled. The library sort is modelled by an insertion sort proved against the same specification.
- Metrics.NDCG: real arithmetic, so rounding is not modelled; grades below zero are computed but the bounds are claimed for judged grades of zero or more.
- `median`, `percentile`, latency and the rest of the benchmark runner's loop, and the contract checks of `Compare` (plain comparisons).
- Report.DiffRouteTransitions: a transition is a pair of routes; two pairs whose joined names coincide would share a key in the source.
- `normalizeText`, applied to the scanner's output, and the header test of `extractRTF`.
- `renderClassSymbols` and the filter for readable symbols.
- Breaker.Embed: stands for the calls that retry; `ModelInfo` and `ListModels` differ in having one attempt, and in `ModelInfo` an unknown model records nothing, which in a run is a grant without a resolution. Which errors are transient is a parameter, and cancellation is taken to be known when an attempt or a wait ends.
- The duration of the debounce window and what a re-index does; direct create, remove and rename events do not pass through the debouncer.
- EnvFile.WriteUserEnv: file permissions, directories and write errors are not modelled; a missing file reads as no bytes.
- Message contents in the conversation log beyond roles and the ids of tool calls and results.
- HTTP, database, subprocess, command-line and model-provider code, tree-sitter and regular-expression extractors, and the dependency catalogue.
