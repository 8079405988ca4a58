/** The blank-line chunker for code: codeAccumulator, splitRunes and chunkCode
    (internal/chunker/chunker.go). Lines longer than a scanner token are not cut here. */
module CodeChunks {
  import opened Basics
  import opened Text
  import opened ProseChunks

  // -------- splitRunes

  function SnapForward(s: Bytes, p: nat): (q: nat)
    requires p <= |s|
    ensures p <= q <= |s| && Boundary(s, q)
    decreases |s| - p
  {
    if p < |s| && !RuneStart(s[p]) then SnapForward(s, p + 1) else p
  }

  function CutPoint(s: Bytes, maxBytes: nat): (end: nat)
    requires 0 < maxBytes < |s|
    ensures 0 < end <= |s| && Boundary(s, end)
  {
    var back := SnapBack(s, 0, maxBytes);
    if back > 0 then back else SnapForward(s, maxBytes)
  }

  function Pieces(s: Bytes, maxBytes: nat): seq<Bytes>
    requires maxBytes > 0
    decreases |s|
  {
    if |s| > maxBytes then
      var end := CutPoint(s, maxBytes);
      [s[..end]] + Pieces(s[end..], maxBytes)
    else if |s| > 0 then [s]
    else []
  }

  /** The last character start within the bound, or, if only the first byte starts one there, the next start after it. */
  ghost predicate IsPieceCut(s: Bytes, maxBytes: nat, end: nat)
    requires maxBytes < |s|
  {
    if exists i :: 0 < i <= maxBytes && RuneStart(s[i]) then
      0 < end <= maxBytes && RuneStart(s[end]) && forall i :: end < i <= maxBytes ==> !RuneStart(s[i])
    else
      maxBytes < end <= |s| && (end < |s| ==> RuneStart(s[end])) && forall i :: maxBytes < i < end ==> !RuneStart(s[i])
  }

  /** There is exactly one such offset. */
  lemma CutPointIff(s: Bytes, maxBytes: nat, end: nat)
    requires 0 < maxBytes < |s|
    ensures IsPieceCut(s, maxBytes, end) <==> end == CutPoint(s, maxBytes)
  {
    var back := SnapBack(s, 0, maxBytes);
    hide SnapBack, RuneStart;
    if back == 0 {
      FirstAfter(s, maxBytes);
    }
  }

  lemma {:induction false} FirstAfter(s: Bytes, p: nat)
    requires p <= |s|
    ensures forall i :: p <= i < SnapForward(s, p) ==> !RuneStart(s[i])
    ensures SnapForward(s, p) < |s| ==> RuneStart(s[SnapForward(s, p)])
    decreases |s| - p
  {
    if p < |s| && !RuneStart(s[p]) { FirstAfter(s, p + 1); }
  }

  /** The pieces of a string: cut after cut until what is left is within the bound. */
  ghost predicate ArePieces(s: Bytes, maxBytes: nat, pieces: seq<Bytes>)
    decreases |s|
  {
    if |s| <= maxBytes then pieces == if s == [] then [] else [s]
    else
      && pieces != [] && 0 < |pieces[0]| && pieces[0] <= s && IsPieceCut(s, maxBytes, |pieces[0]|)
      && ArePieces(s[|pieces[0]|..], maxBytes, pieces[1..])
  }

  lemma {:induction false} PiecesAre(s: Bytes, maxBytes: nat)
    requires maxBytes > 0
    ensures ArePieces(s, maxBytes, Pieces(s, maxBytes))
    decreases |s|
  {
    if |s| > maxBytes {
      var end := CutPoint(s, maxBytes);
      CutPointIff(s, maxBytes, end);
      hide CutPoint, IsPieceCut;
      PiecesAre(s[end..], maxBytes);
      assert ([s[..end]] + Pieces(s[end..], maxBytes))[1..] == Pieces(s[end..], maxBytes);
    }
  }

  method SplitRunes(line: Bytes, maxBytes: nat) returns (out: seq<Bytes>)
    requires maxBytes > 0
    ensures out == Pieces(line, maxBytes)
    ensures ArePieces(line, maxBytes, out)
  {
    hide Pieces, ArePieces;
    PiecesAre(line, maxBytes);
    out := [];
    var s := line;
    assert [] + Pieces(s, maxBytes) == Pieces(s, maxBytes);
    while |s| > maxBytes
      invariant Pieces(line, maxBytes) == out + Pieces(s, maxBytes)
      decreases |s|
    {
      PiecesStep(s, maxBytes, out);
      var end := maxBytes;
      while end > 0 && !RuneStart(s[end])
        invariant 0 <= end < |s| && SnapBack(s, 0, end) == SnapBack(s, 0, maxBytes)
      {
        end := end - 1;
      }
      if end == 0 {
        end := maxBytes;
        while end < |s| && !RuneStart(s[end])
          invariant maxBytes <= end <= |s| && SnapForward(s, end) == SnapForward(s, maxBytes)
        {
          end := end + 1;
        }
      }
      out := out + [s[..end]];
      s := s[end..];
    }
    PiecesStep(s, maxBytes, out);
    if |s| > 0 {
      out := out + [s];
    }
  }

  lemma PiecesStep(s: Bytes, maxBytes: nat, out: seq<Bytes>)
    requires maxBytes > 0
    ensures |s| > maxBytes ==>
      var end := CutPoint(s, maxBytes);
      out + Pieces(s, maxBytes) == (out + [s[..end]]) + Pieces(s[end..], maxBytes)
    ensures |s| <= maxBytes ==> out + Pieces(s, maxBytes) == if |s| > 0 then out + [s] else out
  {}

  function Concat(parts: seq<Bytes>): Bytes {
    if parts == [] then [] else parts[0] + Concat(parts[1..])
  }

  /** The text of several pieces, white space aside, in order. */
  function TextOf(parts: seq<Bytes>): Bytes {
    if parts == [] then [] else NonSpace(parts[0]) + TextOf(parts[1..])
  }

  /** Any bytes: the pieces join to the line, and together hold exactly its text. */
  lemma {:induction false} PiecesConserve(s: Bytes, maxBytes: nat)
    requires maxBytes > 0
    ensures Concat(Pieces(s, maxBytes)) == s && TextOf(Pieces(s, maxBytes)) == NonSpace(s)
    decreases |s|
  {
    if |s| > maxBytes {
      var end := CutPoint(s, maxBytes);
      assert Pieces(s, maxBytes) == [s[..end]] + Pieces(s[end..], maxBytes);
      assert ([s[..end]] + Pieces(s[end..], maxBytes))[1..] == Pieces(s[end..], maxBytes);
      hide Pieces, NonSpace;
      PiecesConserve(s[end..], maxBytes);
      Rejoin(s, end);
      NonSpaceConcat(s[..end], s[end..]);
    } else if |s| > 0 {
      assert Pieces(s, maxBytes)[1..] == [] && s + [] == s && NonSpace(s) + [] == NonSpace(s);
    }
  }

  /** Valid text, room for a character: every piece is within the bound and cuts no character. */
  lemma {:induction false} PiecesBounded(s: Bytes, maxBytes: nat)
    requires maxBytes >= 4 && ValidUtf8(s)
    ensures forall i :: 0 <= i < |Pieces(s, maxBytes)| ==> |Pieces(s, maxBytes)[i]| <= maxBytes && ValidUtf8(Pieces(s, maxBytes)[i])
    decreases |s|
  {
    if |s| > maxBytes {
      var q := BoundaryNear(s, maxBytes);
      var end := CutPoint(s, maxBytes);
      assert end <= maxBytes;
      ValidSplit(s, end);
      PiecesBounded(s[end..], maxBytes);
    }
  }

  /** ASCII fits any bound. */
  lemma {:induction false} AsciiPiecesBounded(s: Bytes, maxBytes: nat)
    requires maxBytes > 0 && Ascii(s)
    ensures forall i :: 0 <= i < |Pieces(s, maxBytes)| ==> |Pieces(s, maxBytes)[i]| <= maxBytes
    decreases |s|
  {
    if |s| > maxBytes {
      assert CutPoint(s, maxBytes) == maxBytes;
      hide CutPoint;
      AsciiPiecesBounded(s[maxBytes..], maxBytes);
    }
  }

  // -------- the accumulator, as a function of its state

  datatype Acc = Acc(chunks: seq<Chunk>, current: Bytes, curStart: int, curEnd: int)

  const EMPTY := Acc([], [], 0, 0)

  function Flushed(a: Acc): Acc {
    if a.current == [] then a
    else a.(chunks := a.chunks + [Chunk(Trim(a.current), a.curStart, a.curEnd)], current := [])
  }

  function Appended(a: Acc, line: Bytes, lineNum: int, maxChars: nat): Acc {
    var b := if |a.current| + |line| + 1 > maxChars && |a.current| > 0 then Flushed(a) else a;
    b.(curStart := if b.current == [] then lineNum else b.curStart, curEnd := lineNum, current := b.current + line + [NEWLINE])
  }

  /** The non-blank pieces of an oversized line, each a chunk of its own. */
  function PieceChunks(pieces: seq<Bytes>, lineNum: int): seq<Chunk> {
    if pieces == [] then []
    else (if Trim(pieces[0]) == [] then [] else [Chunk(Trim(pieces[0]), lineNum, lineNum)]) + PieceChunks(pieces[1..], lineNum)
  }

  lemma PieceStep(chunks: seq<Chunk>, pieces: seq<Bytes>, lineNum: int)
    ensures pieces == [] ==> chunks + PieceChunks(pieces, lineNum) == chunks
    ensures pieces != [] ==>
      chunks + PieceChunks(pieces, lineNum) ==
        (if Trim(pieces[0]) == [] then chunks else chunks + [Chunk(Trim(pieces[0]), lineNum, lineNum)]) + PieceChunks(pieces[1..], lineNum)
  {
    hide Trim;
  }

  function Oversized(a: Acc, line: Bytes, lineNum: int, maxChars: nat): Acc
    requires maxChars > 0
  {
    var b := Flushed(a);
    b.(chunks := b.chunks + PieceChunks(Pieces(line, maxChars), lineNum))
  }

  function TakeLine(a: Acc, line: Bytes, lineNum: int, maxChars: nat): Acc
    requires maxChars > 0
  {
    if Trim(line) == [] && |a.current| > 0 then Flushed(a)
    else if |line| > maxChars then Oversized(a, line, lineNum, maxChars)
    else Appended(a, line, lineNum, maxChars)
  }

  function TakeLines(a: Acc, lines: seq<Bytes>, lineNum: int, maxChars: nat): Acc
    requires maxChars > 0
    decreases |lines|
  {
    if lines == [] then a else TakeLines(TakeLine(a, lines[0], lineNum, maxChars), lines[1..], lineNum + 1, maxChars)
  }

  /** The chunks of a run of lines, numbered from lineNum. */
  function ChunksOfLines(lines: seq<Bytes>, lineNum: int, maxChars: nat): seq<Chunk>
    requires maxChars > 0
  {
    Flushed(TakeLines(EMPTY, lines, lineNum, maxChars)).chunks
  }

  // -------- the accumulator as the source writes it

  class CodeAccumulator {
    var chunks: seq<Chunk>
    var current: Bytes
    var curStart: int
    var curEnd: int
    const maxChars: nat

    constructor (maxChars: nat)
      ensures this.maxChars == maxChars && View() == EMPTY
    {
      this.maxChars := maxChars;
      chunks, current, curStart, curEnd := [], [], 0, 0;
    }

    ghost function View(): Acc
      reads this
    {
      Acc(chunks, current, curStart, curEnd)
    }

    method Flush()
      modifies this
      ensures View() == Flushed(old(View()))
    {
      if |current| == 0 { return; }
      chunks := chunks + [Chunk(Trim(current), curStart, curEnd)];
      current := [];
    }

    method Append(line: Bytes, lineNum: int)
      modifies this
      ensures View() == Appended(old(View()), line, lineNum, maxChars)
    {
      if |current| + |line| + 1 > maxChars && |current| > 0 {
        Flush();
      }
      if |current| == 0 {
        curStart := lineNum;
      }
      curEnd := lineNum;
      current := current + line;
      current := current + [NEWLINE];
    }

    method AppendOversizedLine(line: Bytes, lineNum: int)
      requires maxChars > 0
      modifies this
      ensures View() == Oversized(old(View()), line, lineNum, maxChars)
    {
      hide PieceChunks, Trim;
      Flush();
      var pieces := SplitRunes(line, maxChars);
      ghost var all, rest := chunks + PieceChunks(pieces, lineNum), pieces;
      for i := 0 to |pieces|
        invariant View() == Flushed(old(View())).(chunks := chunks)
        invariant rest == pieces[i..] && all == chunks + PieceChunks(rest, lineNum)
      {
        PieceStep(chunks, rest, lineNum);
        var p := Trim(pieces[i]);
        rest := rest[1..];
        if p != [] {
          chunks := chunks + [Chunk(p, lineNum, lineNum)];
        }
      }
      PieceStep(chunks, rest, lineNum);
    }

    /** One line of chunkCode's, or chunkLines', loop. */
    method Take(line: Bytes, lineNum: int)
      requires maxChars > 0
      modifies this
      ensures View() == TakeLine(old(View()), line, lineNum, maxChars)
    {
      if |Trim(line)| == 0 && |current| > 0 {
        Flush();
      } else if |line| > maxChars {
        AppendOversizedLine(line, lineNum);
      } else {
        Append(line, lineNum);
      }
    }
  }

  // -------- conservation

  /** The text of the chunks, white space aside, in order. */
  function TextIn(chunks: seq<Chunk>): Bytes {
    if chunks == [] then [] else TextIn(chunks[..|chunks| - 1]) + NonSpace(chunks[|chunks| - 1].content)
  }

  function AccText(a: Acc): Bytes {
    TextIn(a.chunks) + NonSpace(a.current)
  }

  /** Lines end in a newline here, so whatever follows starts a character. */
  ghost predicate Closed(current: Bytes) {
    current == [] || current[|current| - 1] == NEWLINE
  }

  lemma ChunkTextSnoc(chunks: seq<Chunk>, c: Chunk)
    ensures TextIn(chunks + [c]) == TextIn(chunks) + NonSpace(c.content)
  {
    assert (chunks + [c])[..|chunks|] == chunks;
  }

  lemma NonSpaceNewline(s: Bytes)
    ensures NonSpace(s + [NEWLINE]) == NonSpace(s)
  {
    NonSpaceConcat(s, [NEWLINE]);
    assert [NEWLINE][1..] == [] && NonSpace(s) + [] == NonSpace(s);
  }

  /** After a newline any bytes may follow. */
  lemma NonSpaceClosed(current: Bytes, s: Bytes)
    requires Closed(current)
    ensures NonSpace(current + s) == NonSpace(current) + NonSpace(s)
  {
    if current == [] {
      assert current + s == s && NonSpace(current) == [];
    } else {
      hide NonSpace;
      var front := current[..|current| - 1];
      assert current == front + [NEWLINE];
      Assoc(front, [NEWLINE], s);
      NonSpaceConcat(front, [NEWLINE] + s);
      NewlineFirst(s);
      NonSpaceNewline(front);
    }
  }

  lemma NewlineFirst(s: Bytes)
    ensures NonSpace([NEWLINE] + s) == NonSpace(s)
  {
    assert ([NEWLINE] + s)[1..] == s;
  }

  lemma FlushKeeps(a: Acc)
    ensures AccText(Flushed(a)) == AccText(a) && Flushed(a).current == []
  {
    if a.current != [] {
      ChunkTextSnoc(a.chunks, Chunk(Trim(a.current), a.curStart, a.curEnd));
      TrimKeeps(a.current);
      assert AccText(a) + [] == AccText(a);
    }
  }

  lemma AppendKeeps(a: Acc, line: Bytes, lineNum: int, maxChars: nat)
    requires Closed(a.current)
    ensures AccText(Appended(a, line, lineNum, maxChars)) == AccText(a) + NonSpace(line)
    ensures Closed(Appended(a, line, lineNum, maxChars).current)
  {
    FlushKeeps(a);
    var b := if |a.current| + |line| + 1 > maxChars && |a.current| > 0 then Flushed(a) else a;
    hide NonSpace, TextIn, Trim;
    NonSpaceClosed(b.current, line);
    NonSpaceNewline(b.current + line);
    Assoc(TextIn(b.chunks), NonSpace(b.current), NonSpace(line));
  }

  lemma {:induction false} PieceChunksText(chunks: seq<Chunk>, pieces: seq<Bytes>, lineNum: int)
    ensures TextIn(chunks + PieceChunks(pieces, lineNum)) == TextIn(chunks) + TextOf(pieces)
    decreases |pieces|
  {
    PieceStep(chunks, pieces, lineNum);
    if pieces == [] {
      assert TextIn(chunks) + [] == TextIn(chunks);
    } else {
      var p := Trim(pieces[0]);
      TrimKeeps(pieces[0]);
      assert p == [] ==> NonSpace(p) == [];
      var more := if p == [] then chunks else chunks + [Chunk(p, lineNum, lineNum)];
      ChunkTextSnoc(chunks, Chunk(p, lineNum, lineNum));
      assert TextIn(more) == TextIn(chunks) + NonSpace(pieces[0]);
      PieceChunksText(more, pieces[1..], lineNum);
      hide NonSpace, PieceChunks, Trim;
      Assoc(TextIn(chunks), NonSpace(pieces[0]), TextOf(pieces[1..]));
    }
  }

  lemma TakeKeeps(a: Acc, line: Bytes, lineNum: int, maxChars: nat)
    requires maxChars > 0 && Closed(a.current)
    ensures AccText(TakeLine(a, line, lineNum, maxChars)) == AccText(a) + NonSpace(line)
    ensures Closed(TakeLine(a, line, lineNum, maxChars).current)
  {
    BlankIffNoText(line);
    FlushKeeps(a);
    AppendKeeps(a, line, lineNum, maxChars);
    PiecesConserve(line, maxChars);
    PieceChunksText(Flushed(a).chunks, Pieces(line, maxChars), lineNum);
    hide NonSpace, TextIn, Trim, Pieces, TextOf, PieceChunks, Appended;
    assert AccText(a) + [] == AccText(a);
    assert NonSpace([]) == [] by { NothingHasNoText(); }
    assert TextIn(Flushed(a).chunks) + [] == TextIn(Flushed(a).chunks);
    assert (TextIn(Flushed(a).chunks) + NonSpace(line)) + [] == TextIn(Flushed(a).chunks) + NonSpace(line);
  }

  lemma NothingHasNoText()
    ensures NonSpace([]) == []
  {}

  lemma {:induction false} TakeLinesKeep(a: Acc, lines: seq<Bytes>, lineNum: int, maxChars: nat)
    requires maxChars > 0 && Closed(a.current)
    ensures AccText(TakeLines(a, lines, lineNum, maxChars)) == AccText(a) + TextOf(lines)
    decreases |lines|
  {
    if lines == [] {
      assert AccText(a) + [] == AccText(a);
    } else {
      TakeKeeps(a, lines[0], lineNum, maxChars);
      TakeLinesKeep(TakeLine(a, lines[0], lineNum, maxChars), lines[1..], lineNum + 1, maxChars);
      Assoc(AccText(a), NonSpace(lines[0]), TextOf(lines[1..]));
    }
  }

  lemma EmptyClosed()
    ensures Closed([])
  {}

  /** Chunking a run of lines loses no text and adds none, whatever the bytes. */
  lemma LinesConserve(lines: seq<Bytes>, lineNum: int, maxChars: nat)
    requires maxChars > 0
    ensures TextIn(ChunksOfLines(lines, lineNum, maxChars)) == TextOf(lines)
  {
    assert NonSpace([]) == [];
    hide TakeLines, Flushed, TextOf, NonSpace, Closed;
    assert Closed(EMPTY.current) by { EmptyClosed(); }
    TakeLinesKeep(EMPTY, lines, lineNum, maxChars);
    FlushKeeps(TakeLines(EMPTY, lines, lineNum, maxChars));
    assert AccText(EMPTY) == [] && [] + TextOf(lines) == TextOf(lines);
    var done := Flushed(TakeLines(EMPTY, lines, lineNum, maxChars));
    assert TextIn(done.chunks) + [] == TextIn(done.chunks);
  }

  // -------- which lines a chunk holds

  /** Lines lo to hi, each with the newline the accumulator adds. */
  function Body(lines: seq<Bytes>, lo: nat, hi: nat): Bytes
    requires lo <= hi <= |lines|
    decreases hi
  {
    if lo == hi then [] else Body(lines, lo, hi - 1) + lines[hi - 1] + [NEWLINE]
  }

  /** A window of lines lo to hi that may be one chunk: no blank line after the first, and
      within the bound, a single line counted without its newline. */
  ghost predicate RunOk(lines: seq<Bytes>, lo: nat, hi: nat, maxChars: nat)
    requires lo < hi <= |lines|
  {
    && (forall n :: lo < n < hi ==> Trim(lines[n]) != [])
    && (if hi == lo + 1 then |lines[lo]| <= maxChars else |Body(lines, lo, hi)| <= maxChars)
  }

  ghost predicate InLines(lines: seq<Bytes>, base: int, c: Chunk) {
    base <= c.startLine <= c.endLine < base + |lines|
  }

  ghost predicate IsRun(lines: seq<Bytes>, base: int, maxChars: nat, c: Chunk) {
    && InLines(lines, base, c)
    && RunOk(lines, c.startLine - base, c.endLine - base + 1, maxChars)
    && c.content == Trim(Body(lines, c.startLine - base, c.endLine - base + 1))
  }

  ghost predicate IsPiece(lines: seq<Bytes>, base: int, maxChars: nat, c: Chunk)
    requires maxChars > 0
  {
    && InLines(lines, base, c) && c.startLine == c.endLine
    && |lines[c.startLine - base]| > maxChars
    && exists p :: p in Pieces(lines[c.startLine - base], maxChars) && c.content == Trim(p)
  }

  /** b comes after a: on later lines, or both are pieces of one oversized line. A run that starts
      right after another run starts there because its first line would not have fit. */
  ghost predicate Follows(lines: seq<Bytes>, base: int, maxChars: nat, a: Chunk, b: Chunk)
    requires InLines(lines, base, a) && InLines(lines, base, b)
  {
    || (a.endLine < b.startLine && (a.endLine + 1 == b.startLine ==> Overflows(lines, a.startLine - base, b.startLine - base, maxChars)))
    || (a.startLine == a.endLine == b.startLine == b.endLine && |lines[a.startLine - base]| > maxChars)
  }

  /** Lines lo to next, and line next too, do not fit one chunk, or one of them is oversized. */
  ghost predicate Overflows(lines: seq<Bytes>, lo: nat, next: nat, maxChars: nat)
    requires lo < next < |lines|
  {
    || |lines[lo]| > maxChars || |lines[next]| > maxChars
    || |Body(lines, lo, next)| + |lines[next]| + 1 > maxChars
  }

  ghost predicate ChunksOk(lines: seq<Bytes>, base: int, maxChars: nat, chunks: seq<Chunk>)
    requires maxChars > 0
  {
    && (forall i :: 0 <= i < |chunks| ==> IsRun(lines, base, maxChars, chunks[i]) || IsPiece(lines, base, maxChars, chunks[i]))
    && (forall i, j :: 0 <= i && i + 1 == j < |chunks| ==> Follows(lines, base, maxChars, chunks[i], chunks[j]))
  }

  /** `current`, when not empty, is the run of lines curStart up to line k. */
  ghost predicate CurrentOk(lines: seq<Bytes>, base: int, maxChars: nat, k: nat, a: Acc)
    requires k <= |lines|
  {
    a.current != [] ==>
      && base <= a.curStart <= a.curEnd == base + k - 1
      && a.current == Body(lines, a.curStart - base, k)
      && RunOk(lines, a.curStart - base, k, maxChars)
  }

  /** The last finished chunk lies before what is being built, and ended there for a reason. */
  ghost predicate LastOk(lines: seq<Bytes>, base: int, maxChars: nat, k: nat, a: Acc) {
    a.chunks != [] ==>
      var last := a.chunks[|a.chunks| - 1];
      && InLines(lines, base, last)
      && (if a.current == [] then
            last.endLine < base + k && (last.endLine + 1 == base + k ==> |lines[last.startLine - base]| > maxChars)
          else
            && last.endLine < a.curStart < base + |lines|
            && (last.endLine + 1 == a.curStart ==> Overflows(lines, last.startLine - base, a.curStart - base, maxChars)))
  }

  ghost predicate AccOk(lines: seq<Bytes>, base: int, maxChars: nat, k: nat, a: Acc)
    requires maxChars > 0 && k <= |lines|
  {
    && ChunksOk(lines, base, maxChars, a.chunks)
    && CurrentOk(lines, base, maxChars, k, a)
    && LastOk(lines, base, maxChars, k, a)
  }

  lemma ChunksPush(lines: seq<Bytes>, base: int, maxChars: nat, chunks: seq<Chunk>, c: Chunk)
    requires maxChars > 0 && ChunksOk(lines, base, maxChars, chunks)
    requires IsRun(lines, base, maxChars, c) || IsPiece(lines, base, maxChars, c)
    requires chunks != [] ==> Follows(lines, base, maxChars, chunks[|chunks| - 1], c)
    ensures ChunksOk(lines, base, maxChars, chunks + [c])
  {
    hide IsRun, IsPiece, Follows;
  }

  function Pending(a: Acc): Chunk {
    Chunk(Trim(a.current), a.curStart, a.curEnd)
  }

  lemma PendingIsRun(lines: seq<Bytes>, base: int, maxChars: nat, k: nat, a: Acc)
    requires k <= |lines| && a.current != [] && CurrentOk(lines, base, maxChars, k, a)
    ensures IsRun(lines, base, maxChars, Pending(a)) && InLines(lines, base, Pending(a))
    ensures LastOk(lines, base, maxChars, k, a) && a.chunks != [] ==>
      InLines(lines, base, a.chunks[|a.chunks| - 1]) && Follows(lines, base, maxChars, a.chunks[|a.chunks| - 1], Pending(a))
  {
    hide Trim, Body, Overflows;
  }

  lemma FlushOk(lines: seq<Bytes>, base: int, maxChars: nat, k: nat, a: Acc)
    requires maxChars > 0 && k <= |lines| && AccOk(lines, base, maxChars, k, a)
    ensures ChunksOk(lines, base, maxChars, Flushed(a).chunks)
  {
    hide ChunksOk, CurrentOk, LastOk, IsRun, IsPiece, Follows, InLines, Trim;
    if a.current != [] {
      PendingIsRun(lines, base, maxChars, k, a);
      ChunksPush(lines, base, maxChars, a.chunks, Pending(a));
    }
  }

  lemma BodyOne(lines: seq<Bytes>, k: nat)
    requires k < |lines|
    ensures Body(lines, k, k + 1) == lines[k] + [NEWLINE]
  {
    assert Body(lines, k, k) == [];
    assert [] + lines[k] == lines[k];
  }

  /** The line joins the current run. */
  lemma ExtendRun(lines: seq<Bytes>, base: int, maxChars: nat, k: nat, a: Acc)
    requires maxChars > 0 && k < |lines| && CurrentOk(lines, base, maxChars, k, a) && LastOk(lines, base, maxChars, k, a)
    requires a.current != [] && |a.current| + |lines[k]| + 1 <= maxChars && Trim(lines[k]) != []
    ensures CurrentOk(lines, base, maxChars, k + 1, Appended(a, lines[k], base + k, maxChars))
    ensures LastOk(lines, base, maxChars, k + 1, Appended(a, lines[k], base + k, maxChars))
  {
    hide Trim, Overflows;
    assert Body(lines, a.curStart - base, k + 1) == a.current + lines[k] + [NEWLINE];
    hide Body;
  }

  /** The line starts a run of its own, after b's chunks. */
  lemma FreshRun(lines: seq<Bytes>, base: int, maxChars: nat, k: nat, b: Acc)
    requires maxChars > 0 && k < |lines| && b.current == [] && |lines[k]| <= maxChars
    requires b.chunks != [] ==>
      var last := b.chunks[|b.chunks| - 1];
      InLines(lines, base, last) && last.endLine < base + k &&
      (last.endLine + 1 == base + k ==> Overflows(lines, last.startLine - base, k, maxChars))
    ensures CurrentOk(lines, base, maxChars, k + 1, Appended(b, lines[k], base + k, maxChars))
    ensures LastOk(lines, base, maxChars, k + 1, Appended(b, lines[k], base + k, maxChars))
  {
    BodyOne(lines, k);
    assert [] + lines[k] == lines[k];
    hide Trim, Overflows, Body;
  }

  lemma LastBeforeFresh(lines: seq<Bytes>, base: int, maxChars: nat, k: nat, a: Acc)
    requires k < |lines| && CurrentOk(lines, base, maxChars, k, a) && LastOk(lines, base, maxChars, k, a)
    requires a.current == [] || |a.current| + |lines[k]| + 1 > maxChars
    ensures
      var chunks := Flushed(a).chunks;
      chunks != [] ==>
        var last := chunks[|chunks| - 1];
        InLines(lines, base, last) && last.endLine < base + k &&
        (last.endLine + 1 == base + k ==> Overflows(lines, last.startLine - base, k, maxChars))
  {
    hide Trim, Body, RunOk;
  }

  /** A line that does not fit starts the next run; one that fits extends the current run. */
  lemma AppendOk(lines: seq<Bytes>, base: int, maxChars: nat, k: nat, a: Acc)
    requires maxChars > 0 && k < |lines| && AccOk(lines, base, maxChars, k, a)
    requires |lines[k]| <= maxChars && (a.current != [] ==> Trim(lines[k]) != [])
    ensures AccOk(lines, base, maxChars, k + 1, Appended(a, lines[k], base + k, maxChars))
  {
    hide ChunksOk, CurrentOk, LastOk, Overflows, Trim;
    if a.current == [] || |a.current| + |lines[k]| + 1 > maxChars {
      FlushOk(lines, base, maxChars, k, a);
      LastBeforeFresh(lines, base, maxChars, k, a);
      FreshRun(lines, base, maxChars, k, Flushed(a));
      assert Appended(a, lines[k], base + k, maxChars) == Appended(Flushed(a), lines[k], base + k, maxChars);
    } else {
      ExtendRun(lines, base, maxChars, k, a);
    }
  }

  lemma BlankOk(lines: seq<Bytes>, base: int, maxChars: nat, k: nat, a: Acc)
    requires maxChars > 0 && k < |lines| && AccOk(lines, base, maxChars, k, a) && a.current != []
    ensures AccOk(lines, base, maxChars, k + 1, Flushed(a))
  {
    FlushOk(lines, base, maxChars, k, a);
    hide Trim, ChunksOk, Body, Overflows;
  }

  /** The last chunk lies before line k, or is a piece of it. */
  ghost predicate UpToLine(lines: seq<Bytes>, base: int, k: nat, chunks: seq<Chunk>) {
    chunks != [] ==>
      var last := chunks[|chunks| - 1];
      InLines(lines, base, last) && (last.endLine < base + k || last.startLine == base + k == last.endLine)
  }

  lemma PieceFollows(lines: seq<Bytes>, base: int, maxChars: nat, k: nat, chunks: seq<Chunk>, piece: Bytes)
    requires maxChars > 0 && k < |lines| && |lines[k]| > maxChars && piece in Pieces(lines[k], maxChars)
    requires ChunksOk(lines, base, maxChars, chunks) && UpToLine(lines, base, k, chunks)
    ensures
      var chunks' := chunks + [Chunk(Trim(piece), base + k, base + k)];
      ChunksOk(lines, base, maxChars, chunks') && UpToLine(lines, base, k, chunks')
  {
    hide Trim, Pieces, Body, ChunksOk;
    var c := Chunk(Trim(piece), base + k, base + k);
    assert IsPiece(lines, base, maxChars, c);
    assert chunks != [] ==> Follows(lines, base, maxChars, chunks[|chunks| - 1], c);
    hide IsPiece, Follows;
    ChunksPush(lines, base, maxChars, chunks, c);
  }

  lemma {:induction false} PiecesOk(lines: seq<Bytes>, base: int, maxChars: nat, k: nat, chunks: seq<Chunk>, pieces: seq<Bytes>)
    requires maxChars > 0 && k < |lines| && |lines[k]| > maxChars
    requires forall p :: p in pieces ==> p in Pieces(lines[k], maxChars)
    requires ChunksOk(lines, base, maxChars, chunks) && UpToLine(lines, base, k, chunks)
    ensures ChunksOk(lines, base, maxChars, chunks + PieceChunks(pieces, base + k))
    ensures UpToLine(lines, base, k, chunks + PieceChunks(pieces, base + k))
    decreases |pieces|
  {
    hide *;
    PieceStep(chunks, pieces, base + k);
    if pieces != [] {
      var more := if Trim(pieces[0]) == [] then chunks else chunks + [Chunk(Trim(pieces[0]), base + k, base + k)];
      assert pieces[0] in pieces && forall p :: p in pieces[1..] ==> p in pieces;
      PieceFollows(lines, base, maxChars, k, chunks, pieces[0]);
      PiecesOk(lines, base, maxChars, k, more, pieces[1..]);
    }
  }

  lemma FlushedUpToLine(lines: seq<Bytes>, base: int, maxChars: nat, k: nat, a: Acc)
    requires k < |lines| && CurrentOk(lines, base, maxChars, k, a) && LastOk(lines, base, maxChars, k, a)
    ensures UpToLine(lines, base, k, Flushed(a).chunks)
  {
    hide Trim, Body, RunOk, Overflows;
  }

  lemma OversizedOk(lines: seq<Bytes>, base: int, maxChars: nat, k: nat, a: Acc)
    requires maxChars > 0 && k < |lines| && AccOk(lines, base, maxChars, k, a) && |lines[k]| > maxChars
    ensures AccOk(lines, base, maxChars, k + 1, Oversized(a, lines[k], base + k, maxChars))
  {
    FlushOk(lines, base, maxChars, k, a);
    FlushedUpToLine(lines, base, maxChars, k, a);
    hide Trim, Pieces, PieceChunks, ChunksOk, UpToLine;
    PiecesOk(lines, base, maxChars, k, Flushed(a).chunks, Pieces(lines[k], maxChars));
    AfterOversized(lines, base, maxChars, k, Oversized(a, lines[k], base + k, maxChars));
  }

  lemma AfterOversized(lines: seq<Bytes>, base: int, maxChars: nat, k: nat, a: Acc)
    requires k < |lines| && |lines[k]| > maxChars && a.current == [] && UpToLine(lines, base, k, a.chunks)
    ensures CurrentOk(lines, base, maxChars, k + 1, a) && LastOk(lines, base, maxChars, k + 1, a)
  {
    hide Overflows, RunOk, Body;
  }

  lemma TakeLineOk(lines: seq<Bytes>, base: int, maxChars: nat, k: nat, a: Acc)
    requires maxChars > 0 && k < |lines| && AccOk(lines, base, maxChars, k, a)
    ensures AccOk(lines, base, maxChars, k + 1, TakeLine(a, lines[k], base + k, maxChars))
  {
    hide AccOk, Flushed, Appended, Oversized;
    if Trim(lines[k]) == [] && |a.current| > 0 { BlankOk(lines, base, maxChars, k, a); }
    else if |lines[k]| > maxChars { OversizedOk(lines, base, maxChars, k, a); }
    else { AppendOk(lines, base, maxChars, k, a); }
  }

  lemma {:induction false} TakeLinesOk(lines: seq<Bytes>, base: int, maxChars: nat, k: nat, a: Acc)
    requires maxChars > 0 && k <= |lines| && AccOk(lines, base, maxChars, k, a)
    ensures AccOk(lines, base, maxChars, |lines|, TakeLines(a, lines[k..], base + k, maxChars))
    decreases |lines| - k
  {
    hide AccOk, TakeLine;
    if k < |lines| {
      assert lines[k..][1..] == lines[k + 1..] && lines[k..][0] == lines[k];
      TakeLineOk(lines, base, maxChars, k, a);
      TakeLinesOk(lines, base, maxChars, k + 1, TakeLine(a, lines[k], base + k, maxChars));
    }
  }

  /** The chunks of a run of lines: runs of whole lines broken at blank lines or where the bound
      forces it, and pieces of oversized lines, in ascending order. */
  lemma LinesChunksOk(lines: seq<Bytes>, base: int, maxChars: nat)
    requires maxChars > 0
    ensures ChunksOk(lines, base, maxChars, ChunksOfLines(lines, base, maxChars))
  {
    NothingYetOk(lines, base, maxChars);
    hide AccOk, ChunksOk, TakeLines, Flushed;
    assert lines[0..] == lines;
    TakeLinesOk(lines, base, maxChars, 0, EMPTY);
    FlushOk(lines, base, maxChars, |lines|, TakeLines(EMPTY, lines, base, maxChars));
  }

  lemma NothingYetOk(lines: seq<Bytes>, base: int, maxChars: nat)
    requires maxChars > 0
    ensures AccOk(lines, base, maxChars, 0, EMPTY)
  {}

  /** Every chunk fits the bound when the oversized lines are valid text and a character fits, or are ASCII. */
  lemma ChunkFits(lines: seq<Bytes>, base: int, maxChars: nat, chunks: seq<Chunk>, i: nat)
    requires maxChars > 0 && ChunksOk(lines, base, maxChars, chunks) && i < |chunks|
    requires forall n :: 0 <= n < |lines| && |lines[n]| > maxChars ==> (maxChars >= 4 && ValidUtf8(lines[n])) || Ascii(lines[n])
    ensures |chunks[i].content| <= maxChars
  {
    hide Pieces, ValidUtf8, Ascii, Trim;
    var c := chunks[i];
    if IsRun(lines, base, maxChars, c) {
      var lo, hi := c.startLine - base, c.endLine - base + 1;
      if hi == lo + 1 {
        assert Body(lines, lo, lo) == [] && Body(lines, lo, hi) == [] + lines[lo] + [NEWLINE] == lines[lo] + [NEWLINE];
        TrimDropsNewline(lines[lo]);
      }
    } else {
      var line := lines[c.startLine - base];
      if Ascii(line) { AsciiPiecesBounded(line, maxChars); } else { PiecesBounded(line, maxChars); }
    }
  }

  // -------- chunkCode

  /** The scanner's lines: each keeps its newline. */
  function ScanLines(s: Bytes): seq<Bytes>
    decreases |s|
  {
    if s == [] then []
    else
      var j := FirstNewline(s, 0);
      if j < |s| then [s[..j + 1]] + ScanLines(s[j + 1..]) else [s]
  }

  /** The first scanned line ends in the first newline; the rest are those of what follows. */
  lemma ScanFirst(s: Bytes) returns (front: Bytes, rest: Bytes)
    requires s != []
    ensures s == front + rest && front != [] && ScanLines(s) == [front] + ScanLines(rest)
    ensures rest != [] ==> front[|front| - 1] == NEWLINE
  {
    var j := FirstNewline(s, 0);
    if j < |s| {
      front, rest := s[..j + 1], s[j + 1..];
      Rejoin(s, j + 1);
    } else {
      front, rest := s, [];
    }
  }

  /** Scanned lines join to the text and hold its characters. */
  lemma {:induction false} ScanLinesOk(s: Bytes)
    ensures Concat(ScanLines(s)) == s && TextOf(ScanLines(s)) == NonSpace(s)
    decreases |s|
  {
    if s == [] {
      NothingHasNoText();
    } else {
      var front, rest := ScanFirst(s);
      hide ScanLines, NonSpace;
      ScanLinesOk(rest);
      assert ([front] + ScanLines(rest))[1..] == ScanLines(rest);
      if rest == [] {
        NothingHasNoText();
        assert front + [] == front && NonSpace(front) + [] == NonSpace(front);
      } else {
        NonSpaceClosed(front, rest);
      }
    }
  }

  /** A scanned line's newline is its last byte, and only the last line may lack it. */
  lemma {:induction false} ScanLinesEnd(s: Bytes)
    ensures forall i :: 0 <= i < |ScanLines(s)| ==> ScanLines(s)[i] != [] && NEWLINE !in ScanLines(s)[i][..|ScanLines(s)[i]| - 1]
    ensures forall i :: 0 <= i < |ScanLines(s)| - 1 ==> ScanLines(s)[i] != [] && ScanLines(s)[i][|ScanLines(s)[i]| - 1] == NEWLINE
    decreases |s|
  {
    if s != [] {
      var j := FirstNewline(s, 0);
      if j < |s| {
        var line := s[..j + 1];
        assert line[..|line| - 1] == s[..j];
        ScanLinesEnd(s[j + 1..]);
      }
    }
  }

  /** Scanning cuts no character. */
  lemma {:induction false} ScanLinesValid(s: Bytes)
    requires ValidUtf8(s)
    ensures forall i :: 0 <= i < |ScanLines(s)| ==> ValidUtf8(ScanLines(s)[i])
    decreases |s|
  {
    if s != [] {
      var front, rest := ScanFirst(s);
      hide ScanLines, ValidUtf8, RuneWidth;
      if rest != [] {
        AfterAscii(s, |front| - 1);
        ValidSplit(s, |front|);
        assert s[..|front|] == front && s[|front|..] == rest;
        ScanLinesValid(rest);
      } else {
        NoLines();
        assert front == s;
      }
    }
  }

  lemma NoLines()
    ensures ScanLines([]) == []
  {}

  method CollectLines(lines: seq<Bytes>, lineNum: int, maxChars: nat) returns (chunks: seq<Chunk>)
    requires maxChars > 0
    ensures chunks == ChunksOfLines(lines, lineNum, maxChars)
  {
    hide TakeLine;
    var acc := new CodeAccumulator(maxChars);
    ghost var rest := lines;
    for i := 0 to |lines|
      invariant acc.maxChars == maxChars && rest == lines[i..]
      invariant TakeLines(EMPTY, lines, lineNum, maxChars) == TakeLines(acc.View(), rest, lineNum + i, maxChars)
    {
      acc.Take(lines[i], lineNum + i);
      rest := rest[1..];
    }
    acc.Flush();
    chunks := acc.chunks;
  }

  /** Every line is white space only, and longer than a chunk. */
  ghost predicate AllWideBlank(lines: seq<Bytes>, maxChars: nat) {
    forall i :: 0 <= i < |lines| ==> |lines[i]| > maxChars && Trim(lines[i]) == []
  }

  predicate Nothing(a: Acc) {
    a.chunks == [] && a.current == []
  }

  lemma {:induction false} PiecesBlankIff(pieces: seq<Bytes>, lineNum: int)
    ensures PieceChunks(pieces, lineNum) == [] <==> TextOf(pieces) == []
    decreases |pieces|
  {
    if pieces != [] {
      BlankIffNoText(pieces[0]);
      PiecesBlankIff(pieces[1..], lineNum);
      hide Trim, NonSpace;
    }
  }

  /** A line leaves nothing behind exactly if nothing waited and it is wide and blank. */
  lemma NothingTakenIff(a: Acc, line: Bytes, lineNum: int, maxChars: nat)
    requires maxChars > 0
    ensures Nothing(TakeLine(a, line, lineNum, maxChars)) <==> Nothing(a) && |line| > maxChars && Trim(line) == []
  {
    BlankIffNoText(line);
    PiecesConserve(line, maxChars);
    PiecesBlankIff(Pieces(line, maxChars), lineNum);
    hide Trim, NonSpace, Pieces, PieceChunks, TextOf;
  }

  lemma {:induction false} NothingTakenOverall(a: Acc, lines: seq<Bytes>, lineNum: int, maxChars: nat)
    requires maxChars > 0
    ensures Nothing(TakeLines(a, lines, lineNum, maxChars)) <==> Nothing(a) && AllWideBlank(lines, maxChars)
    decreases |lines|
  {
    hide TakeLine, Nothing, Trim;
    if lines != [] {
      NothingTakenIff(a, lines[0], lineNum, maxChars);
      NothingTakenOverall(TakeLine(a, lines[0], lineNum, maxChars), lines[1..], lineNum + 1, maxChars);
      assert AllWideBlank(lines, maxChars) <==> |lines[0]| > maxChars && Trim(lines[0]) == [] && AllWideBlank(lines[1..], maxChars);
    }
  }

  /** Lines yield no chunk at all exactly when each is white space only and longer than a chunk. */
  lemma NoChunksIff(lines: seq<Bytes>, lineNum: int, maxChars: nat)
    requires maxChars > 0
    ensures ChunksOfLines(lines, lineNum, maxChars) == [] <==> AllWideBlank(lines, maxChars)
  {
    NothingTakenOverall(EMPTY, lines, lineNum, maxChars);
    hide TakeLines, Trim;
  }

  /** When chunkCode hands the content on to chunkText. */
  ghost predicate FallsBack(content: Bytes, maxChars: nat) {
    content != [] && AllWideBlank(ScanLines(content), maxChars)
  }

  /** Such content is white space only, longer than a chunk, and the fallback ends exactly if each character fits a window. */
  lemma FallbackEndsIff(content: Bytes, maxChars: nat)
    requires maxChars > 0 && FallsBack(content, maxChars)
    ensures NonSpace(content) == [] && |content| > maxChars
    ensures Terminates(content, maxChars) <==> NoneWider(content, maxChars)
  {
    hide Trim, NonSpace, NoneWider;
    NoChunksIff(ScanLines(content), 1, maxChars);
    LinesConserve(ScanLines(content), 1, maxChars);
    ScanLinesOk(content);
    NoTextIsValid(content);
    assert |ScanLines(content)[0]| <= |content|;
    ValidLeavesIff(content, maxChars);
  }

  /** The one demand: content that falls back to prose must end there. */
  method ChunkCode(content: Bytes, maxChars: nat) returns (chunks: seq<Chunk>)
    requires maxChars > 0 && (FallsBack(content, maxChars) ==> Terminates(content, maxChars))
    ensures TextIn(chunks) == NonSpace(content)
    ensures FallsBack(content, maxChars) ==> chunks == Prose(content, maxChars)
    ensures !FallsBack(content, maxChars) ==>
      chunks == ChunksOfLines(ScanLines(content), 1, maxChars) && ChunksOk(ScanLines(content), 1, maxChars, chunks)
    ensures ValidUtf8(content) && maxChars >= 4 ==> forall i :: 0 <= i < |chunks| ==> |chunks[i].content| <= maxChars
  {
    hide ChunksOfLines, ScanLines, NonSpace, ValidUtf8, ChunksOk, Trim, Terminates, Prose, AllWideBlank;
    var lines := ScanLines(content);
    chunks := CollectLines(lines, 1, maxChars);
    LinesConserve(lines, 1, maxChars);
    LinesChunksOk(lines, 1, maxChars);
    ScanLinesOk(content);
    NoChunksIff(lines, 1, maxChars);
    if |chunks| == 0 && |content| > 0 {
      chunks := ChunkText(content, maxChars);
      ProseOfBlank(content, maxChars);
    } else if ValidUtf8(content) && maxChars >= 4 {
      ScanLinesValid(content);
      forall i | 0 <= i < |chunks|
        ensures |chunks[i].content| <= maxChars
      {
        ChunkFits(lines, 1, maxChars, chunks, i);
      }
    }
  }

  lemma {:induction false} BlankChunks(chunks: seq<Chunk>)
    requires forall i :: 0 <= i < |chunks| ==> chunks[i].content == []
    ensures TextIn(chunks) == []
    decreases |chunks|
  {
    if chunks != [] {
      BlankChunks(chunks[..|chunks| - 1]);
      NothingHasNoText();
    }
  }

  /** The prose fallback is reached only for white space, and emits only empty chunks. */
  lemma ProseOfBlank(text: Bytes, maxChars: nat)
    requires NonSpace(text) == [] && Terminates(text, maxChars)
    ensures TextIn(Prose(text, maxChars)) == []
    ensures forall i :: 0 <= i < |Prose(text, maxChars)| ==> Prose(text, maxChars)[i].content == []
  {
    NoTextIsValid(text);
    var chunks := Prose(text, maxChars);
    forall i | 0 <= i < |chunks|
      ensures chunks[i].content == []
    {
      if |text| <= maxChars {
        BlankIffNoText(text);
      } else {
        LeavesIffNoneStalls(text, 0, maxChars);
        var ws := Windows(text, 0, maxChars);
        ChunkPerWindow(text, 0, maxChars);
        assert Boundary(text, 0) by { NoTextStart(text); }
        WindowOnBoundaries(text, 0, maxChars, i);
        assert OnBoundaries(text, ws[i]);
        BlankSlice(text, ws[i].start, ws[i].end);
        BlankIffNoText(text[ws[i].start..ws[i].end]);
      }
    }
    BlankChunks(chunks);
  }

  lemma NoTextStart(text: Bytes)
    requires NonSpace(text) == []
    ensures Boundary(text, 0)
  {}
}
