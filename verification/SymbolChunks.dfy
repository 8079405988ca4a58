/** Chunking on symbol boundaries, astChunkFromSyms (internal/chunker/chunker_ast.go).
    The symbol list is an arbitrary input: symbols may nest, overlap or repeat. */
module SymbolChunks {
  import opened Basics
  import opened Text
  import opened ProseChunks
  import opened CodeChunks

  datatype Symbol = Symbol(name: Bytes, kind: Bytes, startLine: int, endLine: int)

  /** What the chunker needs of a symbol: a line range that starts inside the file. */
  ghost predicate InFile(sym: Symbol, lineCount: nat) {
    1 <= sym.startLine <= sym.endLine && sym.startLine <= lineCount
  }

  // -------- lines

  /** Joining adds only newlines to the text of the lines. */
  lemma {:induction false} JoinText(lines: seq<Bytes>)
    ensures NonSpace(Join(lines)) == TextOf(lines)
    decreases |lines|
  {
    if lines == [] {
      NothingHasNoText();
    } else if |lines| == 1 {
      assert lines[1..] == [] && NonSpace(lines[0]) + [] == NonSpace(lines[0]);
    } else {
      JoinText(lines[1..]);
      hide NonSpace;
      NonSpaceClosed(lines[0] + [NEWLINE], Join(lines[1..]));
      NonSpaceNewline(lines[0]);
    }
  }

  // -------- splitting one symbol

  predicate HasPrefix(s: Bytes, p: Bytes) {
    |p| <= |s| && s[..|p|] == p
  }

  predicate IsComment(line: Bytes) {
    || HasPrefix(line, [47, 47]) || HasPrefix(line, [35]) || HasPrefix(line, [47, 42]) || HasPrefix(line, [42])
    || HasPrefix(line, [39, 39, 39]) || HasPrefix(line, [34, 34, 34])
  }

  /** The openings of a comment, as text. */
  lemma CommentIff(line: Bytes)
    ensures IsComment(line) <==>
      || FromAscii("//") <= line || FromAscii("#") <= line || FromAscii("/*") <= line || FromAscii("*") <= line
      || FromAscii("\'\'\'") <= line || FromAscii("\"\"\"") <= line
  {
    assert FromAscii("//") == [47, 47] && FromAscii("#") == [35] && FromAscii("/*") == [47, 42] && FromAscii("*") == [42];
    assert FromAscii("\'\'\'") == [39, 39, 39] && FromAscii("\"\"\"") == [34, 34, 34];
  }

  /** The first of the comment lines directly above `from`, not before `stop`. */
  function DocStart(lines: seq<Bytes>, stop: nat, from: nat): (d: nat)
    requires from <= |lines|
    ensures d <= from && (stop <= from ==> stop <= d) && (from <= stop ==> d == from)
    decreases from
  {
    if from > stop && Trim(lines[from - 1]) != [] && IsComment(Trim(lines[from - 1])) then DocStart(lines, stop, from - 1) else from
  }

  ghost predicate AllComments(lines: seq<Bytes>, lo: nat, hi: nat)
    requires hi <= |lines|
  {
    forall k :: lo <= k < hi ==> IsComment(Trim(lines[k]))
  }

  /** All lines from d on up to `from` are comments, and the one above d, if still after `stop`, is not. */
  ghost predicate IsDocStart(lines: seq<Bytes>, stop: nat, from: nat, d: nat)
    requires from <= |lines|
  {
    && d <= from && (d < from ==> stop <= d)
    && AllComments(lines, d, from)
    && (d > stop ==> !IsComment(Trim(lines[d - 1])))
  }

  /** That determines the line, and DocStart is it. */
  lemma {:induction false} DocStartIff(lines: seq<Bytes>, stop: nat, from: nat, d: nat)
    requires from <= |lines|
    ensures IsDocStart(lines, stop, from, d) <==> d == DocStart(lines, stop, from)
    decreases from
  {
    hide Trim;
    if from > stop && IsComment(Trim(lines[from - 1])) {
      DocStartIff(lines, stop, from - 1, d);
    }
  }

  lemma DocStartTurn(lines: seq<Bytes>, stop: nat, from: nat)
    requires from <= |lines|
    ensures from > stop && Trim(lines[from - 1]) != [] && IsComment(Trim(lines[from - 1])) ==>
      DocStart(lines, stop, from) == DocStart(lines, stop, from - 1)
    ensures !(from > stop && Trim(lines[from - 1]) != [] && IsComment(Trim(lines[from - 1]))) ==> DocStart(lines, stop, from) == from
  {}

  method FindDocCommentStart(lines: seq<Bytes>, lastLine: nat, zeroBasedStart: nat) returns (docStart: nat)
    requires zeroBasedStart <= |lines|
    ensures docStart == DocStart(lines, lastLine, zeroBasedStart)
    ensures IsDocStart(lines, lastLine, zeroBasedStart, docStart)
  {
    hide Trim, IsComment, IsDocStart;
    DocStartIff(lines, lastLine, zeroBasedStart, DocStart(lines, lastLine, zeroBasedStart));
    docStart := zeroBasedStart;
    var i: int := zeroBasedStart - 1;
    DocStartTurn(lines, lastLine, zeroBasedStart);
    while i >= lastLine
      invariant -1 <= i < |lines| && docStart == i + 1
      invariant DocStart(lines, lastLine, docStart) == DocStart(lines, lastLine, zeroBasedStart)
    {
      DocStartTurn(lines, lastLine, docStart);
      var line := Trim(lines[i]);
      if line == [] { break; }
      if IsComment(line) {
        docStart := i;
      } else {
        break;
      }
      i := i - 1;
    }
  }

  /** trimRuneBoundary: trailing bytes outside ASCII go, whole characters included. */
  function TrimTail(piece: Bytes): (r: Bytes)
    ensures r <= piece
    ensures r == [] <==> forall i :: 0 <= i < |piece| ==> piece[i] >= 0x80
    decreases |piece|
  {
    if |piece| > 0 && piece[|piece| - 1] >= 0x80 then TrimTail(piece[..|piece| - 1]) else piece
  }

  /** The candidate before trimming: the space left, cut back to a newline past its half. */
  function Candidate(remaining: Bytes, spaceLeft: nat): (r: Bytes)
    requires spaceLeft < |remaining|
    ensures r <= remaining && |r| <= spaceLeft && (spaceLeft > 0 ==> |r| > 0)
  {
    var nl := LastNewline(remaining, 0, spaceLeft);
    if nl > spaceLeft / 2 then remaining[..nl] else remaining[..spaceLeft]
  }

  function CutPiece(remaining: Bytes, spaceLeft: nat, maxChars: nat): (piece: Bytes)
    requires |remaining| > 0 && spaceLeft > 0 && maxChars > 0
    ensures piece <= remaining && |piece| > 0
  {
    if spaceLeft >= |remaining| then remaining
    else
      var piece := TrimTail(Candidate(remaining, spaceLeft));
      if piece != [] then piece
      else if |remaining| > maxChars then remaining[..maxChars] else remaining
  }

  /** A piece overruns the space it was given exactly when every byte of the candidate is outside ASCII. */
  lemma PieceOverrunsIff(remaining: Bytes, spaceLeft: nat, maxChars: nat)
    requires |remaining| > 0 && 0 < spaceLeft < maxChars
    ensures |CutPiece(remaining, spaceLeft, maxChars)| > spaceLeft <==>
      && spaceLeft < |remaining|
      && forall i :: 0 <= i < |Candidate(remaining, spaceLeft)| ==> Candidate(remaining, spaceLeft)[i] >= 0x80
  {}

  /** The first n bytes of the remaining ones: all of them if they fit, otherwise cut before a limit. */
  ghost predicate IsPieceEnd(remaining: Bytes, space: nat, maxChars: nat, n: nat) {
    if space >= |remaining| then n == |remaining|
    else exists limit: nat :: IsLimit(remaining, space, limit) && IsCutBefore(remaining, limit, maxChars, n)
  }

  /** Up to the last ASCII byte before the limit; without one, maxChars bytes or all that is left. */
  ghost predicate IsCutBefore(remaining: Bytes, limit: nat, maxChars: nat, n: nat)
    requires limit <= |remaining|
  {
    if exists i :: 0 <= i < limit && remaining[i] < 0x80 then
      0 < n <= limit && remaining[n - 1] < 0x80 && forall i :: n <= i < limit ==> remaining[i] >= 0x80
    else n == if |remaining| > maxChars then maxChars else |remaining|
  }

  /** The last newline past half the space, or else the end of the space. */
  ghost predicate IsLimit(remaining: Bytes, space: nat, limit: nat)
    requires space < |remaining|
    ensures IsLimit(remaining, space, limit) ==> limit <= space
  {
    if exists i :: space / 2 < i < space && remaining[i] == NEWLINE then
      space / 2 < limit < space && remaining[limit] == NEWLINE && forall i :: limit < i < space ==> remaining[i] != NEWLINE
    else limit == space
  }

  lemma LimitIff(remaining: Bytes, space: nat, limit: nat)
    requires space < |remaining|
    ensures IsLimit(remaining, space, limit) <==> limit == |Candidate(remaining, space)|
  {
    var nl := LastNewline(remaining, 0, space);
    hide LastNewline;
  }

  lemma {:induction false} TrimTailIff(piece: Bytes, n: nat)
    ensures n == |TrimTail(piece)| <==>
      n <= |piece| && (n > 0 ==> piece[n - 1] < 0x80) && forall i :: n <= i < |piece| ==> piece[i] >= 0x80
    decreases |piece|
  {
    if |piece| > 0 && piece[|piece| - 1] >= 0x80 {
      TrimTailIff(piece[..|piece| - 1], n);
    }
  }

  /** There is exactly one such piece. */
  lemma PieceEndIff(remaining: Bytes, space: nat, maxChars: nat, n: nat)
    requires |remaining| > 0 && space > 0 && maxChars > 0
    ensures IsPieceEnd(remaining, space, maxChars, n) <==> n == |CutPiece(remaining, space, maxChars)|
  {
    hide IsLimit, Candidate, TrimTail;
    if space < |remaining| {
      var c := Candidate(remaining, space);
      LimitIff(remaining, space, |c|);
      forall limit: nat
        ensures IsLimit(remaining, space, limit) ==> limit == |c|
      {
        LimitIff(remaining, space, limit);
      }
      TrimTailIff(c, n);
      assert forall i :: 0 <= i < |c| ==> c[i] == remaining[i];
    }
  }

  lemma CutPieceEnds(remaining: Bytes, spaceLeft: nat, maxChars: nat)
    requires |remaining| > 0 && spaceLeft > 0 && maxChars > 0
    ensures
      var piece := CutPiece(remaining, spaceLeft, maxChars);
      || piece == remaining || (|piece| <= spaceLeft && piece[|piece| - 1] < 0x80)
      || (|piece| == maxChars && spaceLeft < |remaining| && forall i :: 0 <= i < |Candidate(remaining, spaceLeft)| ==> remaining[i] >= 0x80)
  {
    if spaceLeft < |remaining| {
      var c := Candidate(remaining, spaceLeft);
      TrimTailEnds(c);
      assert forall i :: 0 <= i < |c| ==> c[i] == remaining[i];
    }
  }

  lemma {:induction false} TrimTailEnds(piece: Bytes)
    ensures TrimTail(piece) != [] ==> TrimTail(piece)[|TrimTail(piece)| - 1] < 0x80
    decreases |piece|
  {
    if |piece| > 0 && piece[|piece| - 1] >= 0x80 { TrimTailEnds(piece[..|piece| - 1]); }
  }

  method TrimRuneBoundary(piece: Bytes) returns (trimmed: Bytes)
    ensures trimmed == TrimTail(piece)
  {
    trimmed := piece;
    while |trimmed| > 0 && trimmed[|trimmed| - 1] != NEWLINE && trimmed[|trimmed| - 1] >= 0x80
      invariant TrimTail(trimmed) == TrimTail(piece)
    {
      trimmed := trimmed[..|trimmed| - 1];
    }
  }

  method CutSymbolPiece(remaining: Bytes, spaceLeft: nat, maxChars: nat) returns (piece: Bytes)
    requires |remaining| > 0 && spaceLeft > 0 && maxChars > 0
    ensures piece == CutPiece(remaining, spaceLeft, maxChars)
    // All that is left, or a start of it that ends in ASCII and fits, or maxChars bytes when no ASCII byte was in reach.
    ensures piece <= remaining && piece != []
    ensures piece == remaining || (|piece| <= spaceLeft && piece[|piece| - 1] < 0x80) ||
      (|piece| == maxChars && forall i :: 0 <= i < |Candidate(remaining, spaceLeft)| ==> remaining[i] >= 0x80)
  {
    hide CutPiece, TrimTail, Candidate;
    CutPieceEnds(remaining, spaceLeft, maxChars);
    CutPieceCases(remaining, spaceLeft, maxChars);
    var end := if spaceLeft > |remaining| then |remaining| else spaceLeft;
    piece := remaining[..end];
    if end >= |remaining| { return; }
    var nl := FindLastNewline(remaining, 0, end);
    CandidateIs(remaining, spaceLeft, nl);
    if nl > spaceLeft / 2 {
      piece := piece[..nl];
    }
    piece := TrimRuneBoundary(piece);
    if piece == [] {
      piece := remaining;
      if |piece| > maxChars {
        piece := piece[..maxChars];
      }
    }
  }

  lemma CutPieceCases(remaining: Bytes, spaceLeft: nat, maxChars: nat)
    requires |remaining| > 0 && spaceLeft > 0 && maxChars > 0
    ensures spaceLeft >= |remaining| ==> CutPiece(remaining, spaceLeft, maxChars) == remaining
    ensures spaceLeft < |remaining| ==>
      var piece := TrimTail(Candidate(remaining, spaceLeft));
      CutPiece(remaining, spaceLeft, maxChars) ==
        if piece != [] then piece else if |remaining| > maxChars then remaining[..maxChars] else remaining
  {}

  lemma CandidateIs(remaining: Bytes, spaceLeft: nat, nl: int)
    requires spaceLeft < |remaining| && nl == LastNewline(remaining, 0, spaceLeft)
    ensures Candidate(remaining, spaceLeft) == if nl > spaceLeft / 2 then remaining[..spaceLeft][..nl] else remaining[..spaceLeft]
  {}

  function LineChunks(pieces: seq<Bytes>, prefix: Bytes, line: int): seq<Chunk> {
    if pieces == [] then []
    else
      var n := CountNewlines(pieces[0]) + 1;
      [Chunk(prefix + pieces[0], line, line + n - 1)] + LineChunks(pieces[1..], prefix, line + n)
  }

  /** The pieces of a symbol's content; a prefix that leaves no room is split with the content. */
  function SymbolPieces(remaining: Bytes, prefix: Bytes, maxChars: nat): (pieces: seq<Bytes>)
    requires maxChars > 0
    decreases |remaining|
  {
    if remaining == [] then []
    else if |prefix| >= maxChars then Pieces(prefix + remaining, maxChars)
    else
      var piece := CutPiece(remaining, maxChars - |prefix|, maxChars);
      [piece] + SymbolPieces(remaining[|piece|..], prefix, maxChars)
  }

  /** What each chunk of a split symbol starts with. */
  function PiecePrefix(prefix: Bytes, maxChars: nat): Bytes {
    if |prefix| >= maxChars then [] else prefix
  }

  method SplitOversizedPrefix(remaining: Bytes, prefix: Bytes, currentLine: int, maxChars: nat) returns (chunks: seq<Chunk>)
    requires maxChars > 0
    ensures chunks == LineChunks(Pieces(prefix + remaining, maxChars), [], currentLine)
  {
    hide LineChunks, CountNewlines, Pieces;
    chunks := [];
    var pieces := SplitRunes(prefix + remaining, maxChars);
    var line := currentLine;
    ghost var rest := pieces;
    for i := 0 to |pieces|
      invariant rest == pieces[i..]
      invariant LineChunks(pieces, [], currentLine) == chunks + LineChunks(rest, [], line)
    {
      LineChunksStep(chunks, rest, [], line);
      var n := CountNewlines(pieces[i]) + 1;
      assert [] + pieces[i] == pieces[i];
      chunks := chunks + [Chunk(pieces[i], line, line + n - 1)];
      line := line + n;
      rest := rest[1..];
    }
    NoLineChunks([], line);
  }

  lemma LineChunksStep(chunks: seq<Chunk>, pieces: seq<Bytes>, prefix: Bytes, line: int)
    requires pieces != []
    ensures
      var n := CountNewlines(pieces[0]) + 1;
      chunks + LineChunks(pieces, prefix, line) ==
        (chunks + [Chunk(prefix + pieces[0], line, line + n - 1)]) + LineChunks(pieces[1..], prefix, line + n)
  {}

  method SplitSymbolChunks(content: Bytes, prefix: Bytes, startLine: int, maxChars: nat) returns (chunks: seq<Chunk>)
    requires maxChars > 0
    ensures chunks == LineChunks(SymbolPieces(content, prefix, maxChars), PiecePrefix(prefix, maxChars), startLine)
  {
    hide LineChunks, CutPiece, CountNewlines, SymbolPieces;
    chunks := [];
    var remaining := content;
    var currentLine := startLine;
    while |remaining| > 0
      invariant LineChunks(SymbolPieces(content, prefix, maxChars), PiecePrefix(prefix, maxChars), startLine) ==
                chunks + LineChunks(SymbolPieces(remaining, prefix, maxChars), PiecePrefix(prefix, maxChars), currentLine)
      decreases |remaining|
    {
      SymbolPiecesStep(remaining, prefix, maxChars);
      if |prefix| >= maxChars {
        var rest := SplitOversizedPrefix(remaining, prefix, currentLine, maxChars);
        return chunks + rest;
      }
      var piece := CutSymbolPiece(remaining, maxChars - |prefix|, maxChars);
      LineChunksStep(chunks, SymbolPieces(remaining, prefix, maxChars), prefix, currentLine);
      var pieceLines := CountNewlines(piece) + 1;
      chunks := chunks + [Chunk(prefix + piece, currentLine, currentLine + pieceLines - 1)];
      currentLine := currentLine + pieceLines;
      remaining := remaining[|piece|..];
    }
    SymbolPiecesStep(remaining, prefix, maxChars);
    NoLineChunks(PiecePrefix(prefix, maxChars), currentLine);
    assert chunks + [] == chunks;
  }

  lemma SymbolPiecesStep(remaining: Bytes, prefix: Bytes, maxChars: nat)
    requires maxChars > 0
    ensures remaining == [] ==> SymbolPieces(remaining, prefix, maxChars) == []
    ensures remaining != [] && |prefix| >= maxChars ==> SymbolPieces(remaining, prefix, maxChars) == Pieces(prefix + remaining, maxChars)
    ensures remaining != [] && |prefix| < maxChars ==>
      var piece := CutPiece(remaining, maxChars - |prefix|, maxChars);
      var pieces := SymbolPieces(remaining, prefix, maxChars);
      |pieces| > 0 && pieces[0] == piece && pieces[1..] == SymbolPieces(remaining[|piece|..], prefix, maxChars)
  {
    hide CutPiece, Pieces;
  }

  lemma NoLineChunks(prefix: Bytes, line: int)
    ensures LineChunks([], prefix, line) == []
  {}

  /** Taking the prefix off every chunk gives the pieces back. */
  function Unprefixed(chunks: seq<Chunk>, prefix: Bytes): seq<Bytes> {
    if chunks == [] then []
    else [if HasPrefix(chunks[0].content, prefix) then chunks[0].content[|prefix|..] else chunks[0].content] + Unprefixed(chunks[1..], prefix)
  }

  lemma {:induction false} UnprefixedPieces(pieces: seq<Bytes>, prefix: Bytes, line: int)
    ensures Unprefixed(LineChunks(pieces, prefix, line), prefix) == pieces
    decreases |pieces|
  {
    if pieces != [] {
      var n := CountNewlines(pieces[0]) + 1;
      var c, rest := Chunk(prefix + pieces[0], line, line + n - 1), LineChunks(pieces[1..], prefix, line + n);
      assert LineChunks(pieces, prefix, line) == [c] + rest;
      assert ([c] + rest)[1..] == rest && ([c] + rest)[0] == c;
      hide LineChunks;
      UnprefixedPieces(pieces[1..], prefix, line + n);
      assert (prefix + pieces[0])[..|prefix|] == prefix && (prefix + pieces[0])[|prefix|..] == pieces[0];
    }
  }

  /** The pieces of a symbol's content: cut after cut, each for the space left beside the header. */
  ghost predicate AreSymbolPieces(remaining: Bytes, space: nat, maxChars: nat, pieces: seq<Bytes>)
    decreases |remaining|
  {
    if remaining == [] then pieces == []
    else
      && pieces != [] && 0 < |pieces[0]| && pieces[0] <= remaining && IsPieceEnd(remaining, space, maxChars, |pieces[0]|)
      && AreSymbolPieces(remaining[|pieces[0]|..], space, maxChars, pieces[1..])
  }

  lemma {:induction false} SymbolPiecesAre(remaining: Bytes, prefix: Bytes, maxChars: nat)
    requires |prefix| < maxChars
    ensures AreSymbolPieces(remaining, maxChars - |prefix|, maxChars, SymbolPieces(remaining, prefix, maxChars))
    decreases |remaining|
  {
    hide IsPieceEnd, CutPiece, Pieces;
    if remaining != [] {
      var piece := CutPiece(remaining, maxChars - |prefix|, maxChars);
      var rest := remaining[|piece|..];
      assert SymbolPieces(remaining, prefix, maxChars) == [piece] + SymbolPieces(rest, prefix, maxChars);
      SymbolPiecesAre(rest, prefix, maxChars);
      hide *;
      FirstPiece(remaining, maxChars - |prefix|, maxChars, piece, SymbolPieces(rest, prefix, maxChars));
    }
  }

  lemma FirstPiece(remaining: Bytes, space: nat, maxChars: nat, piece: Bytes, rest: seq<Bytes>)
    requires remaining != [] && space > 0 && maxChars > 0 && piece == CutPiece(remaining, space, maxChars)
    requires AreSymbolPieces(remaining[|piece|..], space, maxChars, rest)
    ensures AreSymbolPieces(remaining, space, maxChars, [piece] + rest)
  {
    PieceEndIff(remaining, space, maxChars, |piece|);
    hide IsPieceEnd, CutPiece;
    assert ([piece] + rest)[1..] == rest;
  }

  /** Chunk i holds the header and piece i, and starts on the line after chunk i - 1; a newline in the piece is a line more. */
  ghost predicate AreHeaded(pieces: seq<Bytes>, header: Bytes, line: int, chunks: seq<Chunk>) {
    && |chunks| == |pieces|
    && (forall i :: 0 <= i < |chunks| ==>
          && chunks[i].content == header + pieces[i]
          && chunks[i].endLine == chunks[i].startLine + |NewlinesBefore(pieces[i], |pieces[i]|)|)
    && (chunks != [] ==> chunks[0].startLine == line)
    && (forall i, j :: 0 <= i && i + 1 == j < |chunks| ==> chunks[j].startLine == chunks[i].endLine + 1)
  }

  lemma {:induction false} LineChunksAre(pieces: seq<Bytes>, prefix: Bytes, line: int)
    ensures AreHeaded(pieces, prefix, line, LineChunks(pieces, prefix, line))
    decreases |pieces|
  {
    if pieces != [] {
      var p := pieces[0];
      CountIs(p, |p|);
      assert p[..|p|] == p;
      hide NewlinesBefore, CountNewlines, AreHeaded;
      var n := CountNewlines(p) + 1;
      LineChunksAre(pieces[1..], prefix, line + n);
      HeadedStep(pieces, prefix, line, Chunk(prefix + p, line, line + n - 1), LineChunks(pieces[1..], prefix, line + n));
    } else {
      hide NewlinesBefore, CountNewlines;
    }
  }

  lemma HeadedStep(pieces: seq<Bytes>, header: Bytes, line: int, first: Chunk, rest: seq<Chunk>)
    requires pieces != [] && AreHeaded(pieces[1..], header, first.endLine + 1, rest)
    requires first.content == header + pieces[0] && first.startLine == line
    requires first.endLine == line + |NewlinesBefore(pieces[0], |pieces[0]|)|
    ensures AreHeaded(pieces, header, line, [first] + rest)
  {
    hide NewlinesBefore;
    var all := [first] + rest;
    assert forall i :: 0 < i < |all| ==> all[i] == rest[i - 1] && pieces[i] == pieces[1..][i - 1];
  }

  /** How a symbol's content becomes chunks: whole if it fits with its header, else in headed pieces;
      a header that leaves no room is split with the content. */
  ghost predicate IsSymbolSplit(content: Bytes, header: Bytes, startLine: int, endLine: int, maxChars: nat, chunks: seq<Chunk>) {
    if |header| + |content| <= maxChars then chunks == [Chunk(header + content, startLine, endLine)]
    else if content == [] then chunks == []
    else if |header| < maxChars then
      exists pieces :: AreSymbolPieces(content, maxChars - |header|, maxChars, pieces) && AreHeaded(pieces, header, startLine, chunks)
    else
      exists pieces :: ArePieces(header + content, maxChars, pieces) && AreHeaded(pieces, [], startLine, chunks)
  }

  /** The pieces join to the content, or, when the prefix leaves no room, to prefix and content. */
  lemma {:induction false} SymbolPiecesJoin(remaining: Bytes, prefix: Bytes, maxChars: nat)
    requires maxChars > 0
    ensures Concat(SymbolPieces(remaining, prefix, maxChars)) ==
            if remaining != [] && |prefix| >= maxChars then prefix + remaining else remaining
    decreases |remaining|
  {
    if remaining == [] {
    } else if |prefix| >= maxChars {
      PiecesConserve(prefix + remaining, maxChars);
    } else {
      var piece := CutPiece(remaining, maxChars - |prefix|, maxChars);
      var left := remaining[|piece|..];
      assert SymbolPieces(remaining, prefix, maxChars) == [piece] + SymbolPieces(left, prefix, maxChars);
      hide CutPiece, SymbolPieces;
      SymbolPiecesJoin(left, prefix, maxChars);
      assert ([piece] + SymbolPieces(left, prefix, maxChars))[1..] == SymbolPieces(left, prefix, maxChars);
      assert piece == remaining[..|piece|];
      Rejoin(remaining, |piece|);
    }
  }

  lemma AsciiCutFits(remaining: Bytes, space: nat, maxChars: nat)
    requires Ascii(remaining) && remaining != [] && 0 < space && maxChars > 0
    ensures |CutPiece(remaining, space, maxChars)| <= space
  {
    if space < |remaining| {
      var c := Candidate(remaining, space);
      assert c[0] == remaining[0];
    }
  }

  lemma {:induction false} AsciiPiecesFit(remaining: Bytes, prefix: Bytes, maxChars: nat, i: nat)
    requires |prefix| < maxChars && Ascii(remaining) && i < |SymbolPieces(remaining, prefix, maxChars)|
    ensures |prefix| + |SymbolPieces(remaining, prefix, maxChars)[i]| <= maxChars
    decreases |remaining|
  {
    var piece := CutPiece(remaining, maxChars - |prefix|, maxChars);
    AsciiCutFits(remaining, maxChars - |prefix|, maxChars);
    hide CutPiece;
    if i > 0 {
      assert Ascii(remaining[|piece|..]);
      AsciiPiecesFit(remaining[|piece|..], prefix, maxChars, i - 1);
    }
  }

  lemma {:induction false} LineChunkAt(pieces: seq<Bytes>, prefix: Bytes, line: int, i: nat)
    ensures |LineChunks(pieces, prefix, line)| == |pieces|
    ensures i < |pieces| ==> LineChunks(pieces, prefix, line)[i].content == prefix + pieces[i]
    decreases |pieces|
  {
    if pieces != [] {
      LineChunkAt(pieces[1..], prefix, line + CountNewlines(pieces[0]) + 1, if i == 0 then 0 else i - 1);
    }
  }

  // -------- the segments of a file

  /** The header put before a symbol's chunks: "[kind] name" and a newline. */
  function Prefix(sym: Symbol): Bytes {
    [91] + sym.kind + [93, 32] + sym.name + [NEWLINE]
  }

  /** p reads, from front to end: an opening bracket, the kind, a closing bracket and a space, the name, a newline. */
  ghost predicate IsHeader(p: Bytes, sym: Symbol) {
    var k, n := |sym.kind|, |sym.name|;
    && |p| == k + n + 4
    && p[..1] == FromAscii("[") && p[1..k + 1] == sym.kind && p[k + 1..k + 3] == FromAscii("] ")
    && p[k + 3..k + n + 3] == sym.name && p[k + n + 3..] == FromAscii("\n")
  }

  lemma HeaderIff(p: Bytes, sym: Symbol)
    ensures IsHeader(p, sym) <==> p == Prefix(sym)
  {
    var k, n := |sym.kind|, |sym.name|;
    if IsHeader(p, sym) {
      assert p == p[..1] + p[1..k + 1] + p[k + 1..k + 3] + p[k + 3..k + n + 3] + p[k + n + 3..];
    }
  }

  datatype Segment = Gap(lo: nat, hi: nat) | Body(sym: Symbol, lo: nat, hi: nat)

  ghost predicate InRange(seg: Segment, lineCount: nat) {
    seg.lo <= seg.hi <= lineCount
  }

  ghost predicate AllInRange(plan: seq<Segment>, lineCount: nat) {
    forall i :: 0 <= i < |plan| ==> InRange(plan[i], lineCount)
  }

  function SymbolEnd(sym: Symbol, lineCount: nat): int {
    if sym.endLine > lineCount then lineCount else sym.endLine
  }

  ghost predicate AllInFile(syms: seq<Symbol>, lineCount: nat) {
    forall sym :: sym in syms ==> InFile(sym, lineCount)
  }

  /** Lines between symbols, and each symbol from its doc comment to its end, in source order. */
  function Plan(lines: seq<Bytes>, syms: seq<Symbol>, lastLine: nat): (plan: seq<Segment>)
    requires lastLine <= |lines| && AllInFile(syms, |lines|)
    ensures AllInRange(plan, |lines|)
    decreases |syms|
  {
    if syms == [] then
      if lastLine < |lines| then [Gap(lastLine, |lines|)] else []
    else
      assert InFile(syms[0], |lines|);
      var start := DocStart(lines, lastLine, syms[0].startLine - 1);
      var end := SymbolEnd(syms[0], |lines|);
      (if start > lastLine then [Gap(lastLine, start)] else []) + [Body(syms[0], start, end)] + Plan(lines, syms[1..], end)
  }

  function GapChunks(lines: seq<Bytes>, maxChars: nat, base: int): seq<Chunk>
    requires maxChars > 0
  {
    if Trim(Join(lines)) == [] then [] else ChunksOfLines(lines, base, maxChars)
  }

  function BodyChunks(content: Bytes, prefix: Bytes, startLine: int, endLine: int, maxChars: nat): seq<Chunk>
    requires maxChars > 0
  {
    if |prefix| + |content| <= maxChars then [Chunk(prefix + content, startLine, endLine)]
    else LineChunks(SymbolPieces(content, prefix, maxChars), PiecePrefix(prefix, maxChars), startLine)
  }

  lemma BodyIsSplit(content: Bytes, prefix: Bytes, startLine: int, endLine: int, maxChars: nat)
    requires maxChars > 0
    ensures IsSymbolSplit(content, prefix, startLine, endLine, maxChars, BodyChunks(content, prefix, startLine, endLine, maxChars))
  {
    if |prefix| + |content| > maxChars {
      var pieces := SymbolPieces(content, prefix, maxChars);
      LineChunksAre(pieces, PiecePrefix(prefix, maxChars), startLine);
      if content == [] {
        NoLineChunks(PiecePrefix(prefix, maxChars), startLine);
      } else if |prefix| < maxChars {
        SymbolPiecesAre(content, prefix, maxChars);
        hide SymbolPieces, LineChunks, AreHeaded, ArePieces, AreSymbolPieces;
        HeadedSplit(content, prefix, startLine, endLine, maxChars, LineChunks(pieces, prefix, startLine), pieces);
      } else {
        PiecesAre(prefix + content, maxChars);
        hide SymbolPieces, LineChunks, AreHeaded, ArePieces, AreSymbolPieces;
        HeadedSplit(content, prefix, startLine, endLine, maxChars, LineChunks(pieces, [], startLine), pieces);
      }
    }
  }

  lemma HeadedSplit(content: Bytes, header: Bytes, startLine: int, endLine: int, maxChars: nat, chunks: seq<Chunk>, pieces: seq<Bytes>)
    requires |header| + |content| > maxChars > 0 && content != []
    requires if |header| < maxChars then AreSymbolPieces(content, maxChars - |header|, maxChars, pieces) else ArePieces(header + content, maxChars, pieces)
    requires AreHeaded(pieces, PiecePrefix(header, maxChars), startLine, chunks)
    ensures IsSymbolSplit(content, header, startLine, endLine, maxChars, chunks)
  {
    hide AreSymbolPieces, ArePieces, AreHeaded;
  }

  /** A symbol of three euro signs, its header one byte short of the bound: its first chunk has 13 bytes, not 7. */
  lemma EurosOverrun(sym: Symbol)
    requires sym == Symbol([110], [107], 1, 1)
    ensures
      var euros: Bytes := [0xE2, 0x82, 0xAC, 0xE2, 0x82, 0xAC, 0xE2, 0x82, 0xAC];
      var chunks := BodyChunks(euros, Prefix(sym), 1, 1, 7);
      ValidUtf8(euros) && |Prefix(sym)| == 6 && |chunks| > 0 && |chunks[0].content| == 13
  {
    var euros: Bytes := [0xE2, 0x82, 0xAC, 0xE2, 0x82, 0xAC, 0xE2, 0x82, 0xAC];
    assert RuneWidth(euros) == 3 && euros[3..] == [0xE2, 0x82, 0xAC, 0xE2, 0x82, 0xAC];
    assert euros[3..][3..] == [0xE2, 0x82, 0xAC] && euros[3..][3..][3..] == [];
    var prefix := Prefix(sym);
    PieceOverrunsIff(euros, 1, 7);
    assert Candidate(euros, 1) == [0xE2];
    assert CutPiece(euros, 1, 7) == euros[..7];
    var pieces := SymbolPieces(euros, prefix, 7);
    assert pieces[0] == euros[..7];
    hide ValidUtf8, SymbolPieces, LineChunks, CutPiece;
    LineChunkAt(pieces, prefix, 1, 0);
  }

  function SegmentChunks(lines: seq<Bytes>, seg: Segment, maxChars: nat): seq<Chunk>
    requires maxChars > 0 && InRange(seg, |lines|)
  {
    match seg
    case Gap(lo, hi) => GapChunks(lines[lo..hi], maxChars, lo + 1)
    case Body(sym, lo, hi) => BodyChunks(Join(lines[lo..hi]), Prefix(sym), lo + 1, hi, maxChars)
  }

  function PlanChunks(lines: seq<Bytes>, plan: seq<Segment>, maxChars: nat): seq<Chunk>
    requires maxChars > 0 && AllInRange(plan, |lines|)
  {
    if plan == [] then [] else SegmentChunks(lines, plan[0], maxChars) + PlanChunks(lines, plan[1..], maxChars)
  }

  /** Every line of the file lies in some segment, however the symbols nest or overlap. */
  lemma {:induction false} PlanCovers(lines: seq<Bytes>, syms: seq<Symbol>, lastLine: nat, n: nat)
    requires lastLine <= n < |lines| && AllInFile(syms, |lines|)
    ensures exists i :: 0 <= i < |Plan(lines, syms, lastLine)| && Plan(lines, syms, lastLine)[i].lo <= n < Plan(lines, syms, lastLine)[i].hi
    decreases |syms|
  {
    var plan := Plan(lines, syms, lastLine);
    if syms == [] {
      assert plan[0].lo <= n < plan[0].hi;
    } else {
      PlanUnfold(lines, syms, lastLine);
      hide Plan, DocStart;
      var start, end := DocStart(lines, lastLine, syms[0].startLine - 1), SymbolEnd(syms[0], |lines|);
      var k := if start > lastLine then 1 else 0;
      assert plan[k] == Body(syms[0], start, end);
      if n < start {
        assert plan[0].lo <= n < plan[0].hi;
      } else if n < end {
        assert plan[k].lo <= n < plan[k].hi;
      } else {
        PlanCovers(lines, syms[1..], end, n);
        var rest := Plan(lines, syms[1..], end);
        var i :| 0 <= i < |rest| && rest[i].lo <= n < rest[i].hi;
        assert plan[k + 1 + i] == rest[i];
      }
    }
  }

  /** A symbol's lines: from the first of the comment lines directly above it to its last line in the file. */
  ghost predicate SpansSymbol(lines: seq<Bytes>, sym: Symbol, lo: nat, hi: nat) {
    && InFile(sym, |lines|) && lo < sym.startLine <= hi <= |lines|
    && (hi == sym.endLine || hi == |lines| < sym.endLine)
    && AllComments(lines, lo, sym.startLine - 1)
  }

  /** A symbol's segment names a symbol of the list, and spans it. */
  ghost predicate AllSpan(lines: seq<Bytes>, syms: seq<Symbol>, plan: seq<Segment>) {
    forall k :: 0 <= k < |plan| && plan[k].Body? ==> plan[k].sym in syms && SpansSymbol(lines, plan[k].sym, plan[k].lo, plan[k].hi)
  }

  lemma {:induction false} PlanSymbols(lines: seq<Bytes>, syms: seq<Symbol>, lastLine: nat)
    requires lastLine <= |lines| && AllInFile(syms, |lines|)
    ensures AllSpan(lines, syms, Plan(lines, syms, lastLine))
    decreases |syms|
  {
    hide Plan, DocStart, SpansSymbol, AllSpan;
    if syms == [] {
      NoBodies(lines, lastLine);
    } else {
      PlanUnfold(lines, syms, lastLine);
      BodySpans(lines, syms[0], lastLine, syms[0].startLine - 1);
      var start, end := DocStart(lines, lastLine, syms[0].startLine - 1), SymbolEnd(syms[0], |lines|);
      PlanSymbols(lines, syms[1..], end);
      var gap := if start > lastLine then [Gap(lastLine, start)] else [];
      var rest := Plan(lines, syms[1..], end);
      AllSpanJoin(lines, syms, gap, Body(syms[0], start, end), rest);
    }
  }

  lemma NoBodies(lines: seq<Bytes>, lastLine: nat)
    requires lastLine <= |lines|
    ensures AllSpan(lines, [], Plan(lines, [], lastLine))
  {}

  lemma AllSpanJoin(lines: seq<Bytes>, syms: seq<Symbol>, gap: seq<Segment>, body: Segment, rest: seq<Segment>)
    requires (forall k :: 0 <= k < |gap| ==> gap[k].Gap?) && syms != []
    requires body.Body? && body.sym == syms[0] && SpansSymbol(lines, body.sym, body.lo, body.hi)
    requires AllSpan(lines, syms[1..], rest)
    ensures AllSpan(lines, syms, gap + ([body] + rest))
  {
    hide SpansSymbol;
    var plan := gap + ([body] + rest);
    forall k | 0 <= k < |plan| && plan[k].Body?
      ensures plan[k].sym in syms && SpansSymbol(lines, plan[k].sym, plan[k].lo, plan[k].hi)
    {
      if k > |gap| { assert plan[k] == rest[k - |gap| - 1]; }
    }
  }

  lemma BodySpans(lines: seq<Bytes>, sym: Symbol, stop: nat, from: nat)
    requires InFile(sym, |lines|) && from == sym.startLine - 1
    ensures SpansSymbol(lines, sym, DocStart(lines, stop, from), SymbolEnd(sym, |lines|))
  {
    hide AllComments, IsComment, Trim, DocStart;
    DocStartIff(lines, stop, from, DocStart(lines, stop, from));
  }

  /** The chunks of a segment stand together among those of the plan. */
  lemma {:induction false} SegmentSpan(lines: seq<Bytes>, plan: seq<Segment>, maxChars: nat, i: nat) returns (a: nat)
    requires maxChars > 0 && AllInRange(plan, |lines|) && i < |plan|
    ensures
      var chunks, part := PlanChunks(lines, plan, maxChars), SegmentChunks(lines, plan[i], maxChars);
      a + |part| <= |chunks| && chunks[a..a + |part|] == part
    decreases |plan|
  {
    hide SegmentChunks;
    var first, rest := SegmentChunks(lines, plan[0], maxChars), PlanChunks(lines, plan[1..], maxChars);
    if i == 0 {
      a := 0;
    } else {
      a := SegmentSpan(lines, plan[1..], maxChars, i - 1);
      var part := SegmentChunks(lines, plan[i], maxChars);
      assert (first + rest)[|first| + a..|first| + a + |part|] == rest[a..a + |part|];
      a := |first| + a;
    }
  }

  /** The chunks of a segment, and that nothing of it is lost: a gap keeps its text, a symbol its bytes. */
  ghost predicate Keeps(lines: seq<Bytes>, seg: Segment, maxChars: nat, chunks: seq<Chunk>)
    requires maxChars > 0 && InRange(seg, |lines|)
  {
    match seg
    case Gap(lo, hi) => KeepsGap(lines[lo..hi], lo + 1, maxChars, chunks)
    case Body(sym, lo, hi) => exists header :: IsHeader(header, sym) && KeepsBody(Join(lines[lo..hi]), header, lo + 1, hi, maxChars, chunks)
  }

  ghost predicate KeepsGap(part: seq<Bytes>, base: int, maxChars: nat, chunks: seq<Chunk>)
    requires maxChars > 0
  {
    TextIn(chunks) == TextOf(part) && ChunksOk(part, base, maxChars, chunks) && (TextOf(part) == [] ==> chunks == [])
  }

  ghost predicate KeepsBody(content: Bytes, header: Bytes, startLine: int, endLine: int, maxChars: nat, chunks: seq<Chunk>) {
    && IsSymbolSplit(content, header, startLine, endLine, maxChars, chunks)
    && (content != [] ==>
          Concat(Unprefixed(chunks, PiecePrefix(header, maxChars))) == if |header| >= maxChars then header + content else content)
  }

  lemma SegmentIsKept(lines: seq<Bytes>, seg: Segment, maxChars: nat)
    requires maxChars > 0 && InRange(seg, |lines|)
    ensures Keeps(lines, seg, maxChars, SegmentChunks(lines, seg, maxChars))
  {
    var part := lines[seg.lo..seg.hi];
    hide ChunksOk, NonSpace, Trim, ChunksOfLines, BodyChunks, IsSymbolSplit, IsHeader, Prefix, Join;
    match seg
    case Gap(lo, hi) =>
      JoinText(part);
      BlankIffNoText(Join(part));
      LinesConserve(part, lo + 1, maxChars);
      LinesChunksOk(part, lo + 1, maxChars);
      NoChunksOk(part, lo + 1, maxChars);
    case Body(sym, lo, hi) =>
      HeaderIff(Prefix(sym), sym);
      BodyIsSplit(Join(part), Prefix(sym), lo + 1, hi, maxChars);
      if Join(part) != [] { BodyKept(Join(part), Prefix(sym), lo + 1, hi, maxChars); }
  }

  lemma NoChunksOk(part: seq<Bytes>, base: int, maxChars: nat)
    requires maxChars > 0
    ensures ChunksOk(part, base, maxChars, [])
  {}

  lemma BodyKept(content: Bytes, prefix: Bytes, startLine: int, endLine: int, maxChars: nat)
    requires maxChars > 0 && content != []
    ensures Concat(Unprefixed(BodyChunks(content, prefix, startLine, endLine, maxChars), PiecePrefix(prefix, maxChars))) ==
            if |prefix| >= maxChars then prefix + content else content
  {
    var chunks := BodyChunks(content, prefix, startLine, endLine, maxChars);
    if |prefix| + |content| <= maxChars {
      assert chunks[1..] == [] && (prefix + content)[..|prefix|] == prefix && (prefix + content)[|prefix|..] == content;
    } else {
      UnprefixedPieces(SymbolPieces(content, prefix, maxChars), PiecePrefix(prefix, maxChars), startLine);
      SymbolPiecesJoin(content, prefix, maxChars);
    }
  }

  /** A stretch of the chunks keeps all of a run of lines, line n among them, that is a symbol's or lies between symbols. */
  ghost predicate LineKept(lines: seq<Bytes>, syms: seq<Symbol>, maxChars: nat, chunks: seq<Chunk>, n: nat)
    requires maxChars > 0
  {
    exists seg, a, b :: 0 <= a <= b <= |chunks| && InRange(seg, |lines|) && seg.lo <= n < seg.hi
      && (seg.Body? ==> seg.sym in syms && SpansSymbol(lines, seg.sym, seg.lo, seg.hi)) && Keeps(lines, seg, maxChars, chunks[a..b])
  }

  /** A stretch of the chunks is the symbol's. */
  ghost predicate SymbolKept(lines: seq<Bytes>, sym: Symbol, maxChars: nat, chunks: seq<Chunk>)
    requires maxChars > 0
  {
    exists seg: Segment, a, b :: 0 <= a <= b <= |chunks| && seg.Body? && seg.sym == sym && InRange(seg, |lines|)
      && SpansSymbol(lines, sym, seg.lo, seg.hi) && Keeps(lines, seg, maxChars, chunks[a..b])
  }

  /** Every line of the file is handed to chunks that lose nothing of it. */
  lemma AstLosesNothing(lines: seq<Bytes>, syms: seq<Symbol>, maxChars: nat, n: nat)
    requires maxChars > 0 && n < |lines| && AllInFile(syms, |lines|)
    ensures LineKept(lines, syms, maxChars, PlanChunks(lines, Plan(lines, syms, 0), maxChars), n)
  {
    hide Plan, PlanChunks, SegmentChunks, Keeps, LineKept, InFile;
    var plan := Plan(lines, syms, 0);
    PlanCovers(lines, syms, 0, n);
    PlanSymbols(lines, syms, 0);
    var i :| 0 <= i < |plan| && plan[i].lo <= n < plan[i].hi;
    SegmentIsKept(lines, plan[i], maxChars);
    var a := SegmentSpan(lines, plan, maxChars, i);
    KeptBy(lines, syms, maxChars, PlanChunks(lines, plan, maxChars), n, plan[i], a, a + |SegmentChunks(lines, plan[i], maxChars)|);
  }

  lemma KeptBy(lines: seq<Bytes>, syms: seq<Symbol>, maxChars: nat, chunks: seq<Chunk>, n: nat, seg: Segment, a: nat, b: nat)
    requires maxChars > 0 && a <= b <= |chunks| && InRange(seg, |lines|) && seg.lo <= n < seg.hi
    requires (seg.Body? ==> seg.sym in syms && SpansSymbol(lines, seg.sym, seg.lo, seg.hi)) && Keeps(lines, seg, maxChars, chunks[a..b])
    ensures LineKept(lines, syms, maxChars, chunks, n)
  {
    hide Keeps, SpansSymbol;
  }

  /** Every symbol has its own stretch of the chunks. */
  lemma AstKeepsSymbols(lines: seq<Bytes>, syms: seq<Symbol>, maxChars: nat, sym: Symbol)
    requires maxChars > 0 && sym in syms && AllInFile(syms, |lines|)
    ensures SymbolKept(lines, sym, maxChars, PlanChunks(lines, Plan(lines, syms, 0), maxChars))
  {
    hide Plan, PlanChunks, SegmentChunks, Keeps, InFile, SpansSymbol;
    var plan := Plan(lines, syms, 0);
    PlanSymbols(lines, syms, 0);
    var i := PlanOf(lines, syms, 0, sym);
    SegmentIsKept(lines, plan[i], maxChars);
    var a := SegmentSpan(lines, plan, maxChars, i);
  }

  lemma {:induction false} PlanOf(lines: seq<Bytes>, syms: seq<Symbol>, lastLine: nat, sym: Symbol) returns (i: nat)
    requires lastLine <= |lines| && AllInFile(syms, |lines|) && sym in syms
    ensures i < |Plan(lines, syms, lastLine)| && Plan(lines, syms, lastLine)[i].Body? && Plan(lines, syms, lastLine)[i].sym == sym
    decreases |syms|
  {
    PlanUnfold(lines, syms, lastLine);
    hide Plan, DocStart;
    var start := DocStart(lines, lastLine, syms[0].startLine - 1);
    i := if start > lastLine then 1 else 0;
    if syms[0] != sym {
      var j := PlanOf(lines, syms[1..], SymbolEnd(syms[0], |lines|), sym);
      i := i + 1 + j;
    }
  }

  /** The lines join to the content, and hold its text; without symbols so do the chunks. */
  lemma LinesHoldContent(content: Bytes, maxChars: nat)
    requires maxChars > 0
    ensures Join(SplitLines(content)) == content && TextOf(SplitLines(content)) == NonSpace(content)
    ensures TextIn(PlanChunks(SplitLines(content), Plan(SplitLines(content), [], 0), maxChars)) == NonSpace(content)
  {
    var lines := SplitLines(content);
    SplitJoin(content);
    JoinText(lines);
    hide SplitLines, SegmentChunks, NonSpace;
    SegmentIsKept(lines, Gap(0, |lines|), maxChars);
    LastGap([], lines, 0, maxChars);
    assert lines[0..|lines|] == lines;
    var chunks := SegmentChunks(lines, Gap(0, |lines|), maxChars);
    assert [] + PlanChunks(lines, Plan(lines, [], 0), maxChars) == PlanChunks(lines, Plan(lines, [], 0), maxChars);
    assert [] + chunks == chunks;
  }

  // -------- the line ranges of a symbol's chunks

  lemma {:induction false} CountConcat(a: Bytes, b: Bytes)
    ensures CountNewlines(a + b) == CountNewlines(a) + CountNewlines(b)
    decreases |b|
  {
    if b == [] {
      assert a + b == a;
    } else {
      assert (a + b)[..|a + b| - 1] == a + b[..|b| - 1];
      CountConcat(a, b[..|b| - 1]);
    }
  }

  lemma {:induction false} NoneCounted(line: Bytes)
    requires NEWLINE !in line
    ensures CountNewlines(line) == 0
    decreases |line|
  {
    if line != [] { NoneCounted(line[..|line| - 1]); }
  }

  lemma {:induction false} JoinCount(lines: seq<Bytes>)
    requires lines != [] && forall n :: 0 <= n < |lines| ==> NEWLINE !in lines[n]
    ensures CountNewlines(Join(lines)) == |lines| - 1
    decreases |lines|
  {
    NoneCounted(lines[0]);
    if |lines| > 1 {
      JoinCount(lines[1..]);
      CountConcat(lines[0] + [NEWLINE], Join(lines[1..]));
      CountConcat(lines[0], [NEWLINE]);
      assert [NEWLINE][..0] == [];
    }
  }

  /** Every chunk's lines are among lo to hi. */
  ghost predicate WithinLines(chunks: seq<Chunk>, lo: int, hi: int) {
    forall i :: 0 <= i < |chunks| ==> lo <= chunks[i].startLine <= chunks[i].endLine <= hi
  }

  /** A cut counts as a line: m pieces end m - 1 lines past the last line they hold. */
  lemma {:induction false} LastLine(pieces: seq<Bytes>, prefix: Bytes, line: int)
    requires pieces != []
    ensures
      var chunks := LineChunks(pieces, prefix, line);
      && |chunks| == |pieces|
      && chunks[|chunks| - 1].endLine == line + CountNewlines(Concat(pieces)) + |pieces| - 1
      && WithinLines(chunks, line, chunks[|chunks| - 1].endLine)
    decreases |pieces|
  {
    hide CountNewlines;
    var n := CountNewlines(pieces[0]) + 1;
    var first, rest := Chunk(prefix + pieces[0], line, line + n - 1), LineChunks(pieces[1..], prefix, line + n);
    assert LineChunks(pieces, prefix, line) == [first] + rest;
    CountConcat(pieces[0], Concat(pieces[1..]));
    hide LineChunks;
    if |pieces| == 1 {
      NoLineChunks(prefix, line + n);
      assert pieces[1..] == [] && pieces[0] + [] == pieces[0];
    } else {
      LastLine(pieces[1..], prefix, line + n);
      FirstWithin(first, rest, line);
    }
  }

  lemma FirstWithin(first: Chunk, rest: seq<Chunk>, line: int)
    requires rest != [] && first.startLine == line <= first.endLine && WithinLines(rest, first.endLine + 1, rest[|rest| - 1].endLine)
    ensures WithinLines([first] + rest, line, rest[|rest| - 1].endLine)
  {
    assert rest[|rest| - 1].endLine >= first.endLine;
  }

  /** A header that leaves no room is cut inside: its closing bracket is within reach, or next to be found. */
  lemma HeaderIsCut(sym: Symbol, content: Bytes, maxChars: nat)
    requires 0 < maxChars <= |Prefix(sym)| && content != []
    ensures |Pieces(Prefix(sym) + content, maxChars)| >= 2
  {
    var s := Prefix(sym) + content;
    var k := |sym.kind| + 1;
    assert 0 < k < |s| && s[k] == 93 && RuneStart(s[k]);
    var end := CutPoint(s, maxChars);
    CutPointIff(s, maxChars, end);
    hide CutPoint, Prefix;
    assert end < |s|;
    var rest := s[end..];
    assert Pieces(s, maxChars) == [s[..end]] + Pieces(rest, maxChars);
    PiecesConserve(rest, maxChars);
    assert Pieces(rest, maxChars) != [];
  }

  lemma BodyWithinIff(content: Bytes, sym: Symbol, startLine: int, endLine: int, maxChars: nat)
    requires maxChars > 0 && endLine == startLine + CountNewlines(content)
    ensures
      var chunks := BodyChunks(content, Prefix(sym), startLine, endLine, maxChars);
      WithinLines(chunks, startLine, endLine) <==> |chunks| <= 1
  {
    var prefix := Prefix(sym);
    var pieces := SymbolPieces(content, prefix, maxChars);
    if |prefix| + |content| > maxChars {
      SymbolPiecesJoin(content, prefix, maxChars);
      if content == [] {
        NoLineChunks(PiecePrefix(prefix, maxChars), startLine);
      } else {
        if |prefix| >= maxChars {
          HeaderIsCut(sym, content, maxChars);
          CountConcat(prefix, content);
          CountConcat(prefix[..|prefix| - 1], [NEWLINE]);
        }
        LastLine(pieces, PiecePrefix(prefix, maxChars), startLine);
      }
    }
  }

  /** The comment above splitSymbolChunks has it that pieces never cross the symbol's line range:
      they do so exactly when there are two or more. */
  lemma WithinIffWhole(lines: seq<Bytes>, sym: Symbol, lo: nat, hi: nat, maxChars: nat)
    requires maxChars > 0 && lo < hi <= |lines| && forall n :: 0 <= n < |lines| ==> NEWLINE !in lines[n]
    ensures
      var chunks := SegmentChunks(lines, Body(sym, lo, hi), maxChars);
      WithinLines(chunks, lo + 1, hi) <==> |chunks| <= 1
  {
    var part := lines[lo..hi];
    assert |part| == hi - lo && forall n :: 0 <= n < |part| ==> part[n] == lines[lo + n];
    JoinCount(part);
    hide BodyChunks, Prefix, CountNewlines, Join, WithinLines;
    BodyWithinIff(Join(part), sym, lo + 1, hi, maxChars);
  }

  /** Two lines of four bytes under a header of six, at bound 12: the chunks run past line 2. */
  lemma TwoLinesCross(sym: Symbol)
    requires sym == Symbol([110], [107], 1, 2)
    ensures
      var chunks := SegmentChunks([[97, 97, 97, 97], [98, 98, 98, 98]], Body(sym, 0, 2), 12);
      chunks != [] && chunks[|chunks| - 1].endLine > 2
  {
    var lines: seq<Bytes> := [[97, 97, 97, 97], [98, 98, 98, 98]];
    var content: Bytes := [97, 97, 97, 97, 10, 98, 98, 98, 98];
    assert lines[0..2] == lines && lines[1..] == [[98, 98, 98, 98]] && Join(lines) == content;
    var prefix := Prefix(sym);
    assert |prefix| == 6;
    JoinCount(lines);
    SixOfNine(content);
    hide Prefix, CutPiece, SymbolPieces, LineChunks, CountNewlines, Join;
    var piece, pieces := CutPiece(content, 6, 12), SymbolPieces(content, prefix, 12);
    SymbolPiecesStep(content, prefix, 12);
    SymbolPiecesStep(content[|piece|..], prefix, 12);
    assert pieces[1..] != [];
    SymbolPiecesJoin(content, prefix, 12);
    LastLine(pieces, prefix, 1);
  }

  lemma SixOfNine(content: Bytes)
    requires |content| == 9 && content[0] < 0x80
    ensures |CutPiece(content, 6, 12)| <= 6
  {
    hide Candidate, TrimTail;
    assert Candidate(content, 6)[0] == content[0];
  }

  // -------- sizes, for ASCII content

  lemma {:induction false} SplitLinesAscii(s: Bytes)
    requires Ascii(s)
    ensures forall i :: 0 <= i < |SplitLines(s)| ==> Ascii(SplitLines(s)[i])
    decreases |s|
  {
    var j := FirstNewline(s, 0);
    if j < |s| { SplitLinesAscii(s[j + 1..]); }
  }

  lemma {:induction false} JoinAscii(lines: seq<Bytes>)
    requires forall i :: 0 <= i < |lines| ==> Ascii(lines[i])
    ensures Ascii(Join(lines))
    decreases |lines|
  {
    if |lines| > 1 { JoinAscii(lines[1..]); }
  }

  lemma GapFits(part: seq<Bytes>, base: int, maxChars: nat, i: nat)
    requires maxChars > 0 && forall n :: 0 <= n < |part| ==> Ascii(part[n])
    requires i < |GapChunks(part, maxChars, base)|
    ensures |GapChunks(part, maxChars, base)[i].content| <= maxChars
  {
    LinesChunksOk(part, base, maxChars);
    hide ChunksOfLines, ChunksOk, Trim, ValidUtf8, Ascii;
    ChunkFits(part, base, maxChars, ChunksOfLines(part, base, maxChars), i);
  }

  lemma BodyFits(content: Bytes, prefix: Bytes, startLine: int, endLine: int, maxChars: nat, i: nat)
    requires Ascii(content) && |prefix| < maxChars && i < |BodyChunks(content, prefix, startLine, endLine, maxChars)|
    ensures |BodyChunks(content, prefix, startLine, endLine, maxChars)[i].content| <= maxChars
  {
    if |prefix| + |content| > maxChars {
      hide LineChunks, SymbolPieces;
      LineChunkAt(SymbolPieces(content, prefix, maxChars), prefix, startLine, i);
      AsciiPiecesFit(content, prefix, maxChars, i);
    }
  }

  lemma SegmentFits(lines: seq<Bytes>, seg: Segment, maxChars: nat, i: nat)
    requires maxChars > 0 && InRange(seg, |lines|) && i < |SegmentChunks(lines, seg, maxChars)|
    requires forall n :: 0 <= n < |lines| ==> Ascii(lines[n])
    requires seg.Body? ==> |Prefix(seg.sym)| < maxChars
    ensures |SegmentChunks(lines, seg, maxChars)[i].content| <= maxChars
  {
    hide GapChunks, BodyChunks, Prefix, Ascii;
    var part := lines[seg.lo..seg.hi];
    match seg
    case Gap(lo, hi) =>
      GapFits(part, lo + 1, maxChars, i);
    case Body(sym, lo, hi) =>
      JoinAscii(part);
      BodyFits(Join(part), Prefix(sym), lo + 1, hi, maxChars, i);
  }

  lemma {:induction false} PlanFits(lines: seq<Bytes>, plan: seq<Segment>, maxChars: nat)
    requires maxChars > 0 && AllInRange(plan, |lines|)
    requires forall n :: 0 <= n < |lines| ==> Ascii(lines[n])
    requires forall k :: 0 <= k < |plan| && plan[k].Body? ==> |Prefix(plan[k].sym)| < maxChars
    ensures forall i :: 0 <= i < |PlanChunks(lines, plan, maxChars)| ==> |PlanChunks(lines, plan, maxChars)[i].content| <= maxChars
    decreases |plan|
  {
    hide SegmentChunks, Prefix, Ascii;
    if plan != [] {
      var first := SegmentChunks(lines, plan[0], maxChars);
      forall i | 0 <= i < |first|
        ensures |first[i].content| <= maxChars
      {
        SegmentFits(lines, plan[0], maxChars, i);
      }
      PlanFits(lines, plan[1..], maxChars);
    }
  }

  // -------- the chunker as the source writes it

  ghost predicate SortedFrom(sorted: seq<Symbol>, syms: seq<Symbol>) {
    multiset(sorted) == multiset(syms) && Ascending(sorted)
  }

  ghost predicate Ascending(s: seq<Symbol>) {
    forall i, j :: 0 <= i < j < |s| ==> s[i].startLine <= s[j].startLine
  }

  lemma InsertAscending(sorted: seq<Symbol>, at: nat, sym: Symbol)
    requires Ascending(sorted) && at <= |sorted|
    requires at > 0 ==> sorted[at - 1].startLine <= sym.startLine
    requires forall k :: at <= k < |sorted| ==> sorted[k].startLine > sym.startLine
    ensures Ascending(sorted[..at] + ([sym] + sorted[at..]))
  {
    var front, back := sorted[..at], sorted[at..];
    assert forall k :: 0 <= k < |front| ==> front[k] == sorted[k] && front[k].startLine <= sorted[at - 1].startLine;
    assert forall k :: 0 <= k < |back| ==> back[k] == sorted[at + k];
    assert Ascending(front) && Ascending(back) && Ascending([sym]);
    hide Ascending;
    AscendingJoin([sym], back);
    AscendingJoin(front, [sym] + back);
  }

  lemma AscendingJoin(a: seq<Symbol>, b: seq<Symbol>)
    requires Ascending(a) && Ascending(b)
    requires forall i, j :: 0 <= i < |a| && 0 <= j < |b| ==> a[i].startLine <= b[j].startLine
    ensures Ascending(a + b)
  {}

  lemma InsertSame(sorted: seq<Symbol>, at: nat, sym: Symbol)
    requires at <= |sorted|
    ensures multiset(sorted[..at] + ([sym] + sorted[at..])) == multiset(sorted + [sym])
  {
    assert sorted == sorted[..at] + sorted[at..];
  }

  lemma InsertSorted(sorted: seq<Symbol>, syms: seq<Symbol>, at: nat, sym: Symbol)
    requires SortedFrom(sorted, syms) && at <= |sorted|
    requires at > 0 ==> sorted[at - 1].startLine <= sym.startLine
    requires forall k :: at <= k < |sorted| ==> sorted[k].startLine > sym.startLine
    ensures SortedFrom(sorted[..at] + ([sym] + sorted[at..]), syms + [sym])
  {
    InsertAscending(sorted, at, sym);
    InsertSame(sorted, at, sym);
    hide Ascending;
  }

  lemma TakeOneMore(syms: seq<Symbol>, i: nat)
    requires i < |syms|
    ensures syms[..i + 1] == syms[..i] + [syms[i]]
  {}

  method SortByStart(syms: seq<Symbol>) returns (sorted: seq<Symbol>)
    ensures SortedFrom(sorted, syms)
  {
    sorted := [];
    assert SortedFrom([], []) && syms[..0] == [];
    hide *;
    for i := 0 to |syms|
      invariant SortedFrom(sorted, syms[..i])
    {
      var at := |sorted|;
      ghost var placed := syms[..i];
      while at > 0 && sorted[at - 1].startLine > syms[i].startLine
        invariant 0 <= at <= |sorted|
        invariant forall k :: at <= k < |sorted| ==> sorted[k].startLine > syms[i].startLine
      {
        at := at - 1;
      }
      InsertSorted(sorted, placed, at, syms[i]);
      TakeOneMore(syms, i);
      sorted := sorted[..at] + ([syms[i]] + sorted[at..]);
    }
    assert syms[..|syms|] == syms;
  }

  method ChunkLines(lines: seq<Bytes>, startLine: int, endLine: int, maxChars: nat) returns (chunks: seq<Chunk>)
    requires maxChars > 0
    ensures
      var s, e := if startLine < 1 then 1 else startLine, if endLine > |lines| then |lines| else endLine;
      chunks == if s > e then [] else ChunksOfLines(lines[s - 1..e], s, maxChars)
  {
    var s, e := if startLine < 1 then 1 else startLine, if endLine > |lines| then |lines| else endLine;
    if s > e { return []; }
    chunks := CollectLines(lines[s - 1..e], s, maxChars);
  }

  method AppendSymbolChunks(chunks: seq<Chunk>, lines: seq<Bytes>, sym: Symbol, docStart: nat, symEnd: nat, maxChars: nat)
    returns (chunks': seq<Chunk>)
    requires maxChars > 0 && docStart <= symEnd <= |lines|
    ensures chunks' == chunks + SegmentChunks(lines, Body(sym, docStart, symEnd), maxChars)
  {
    var symContent := Join(lines[docStart..symEnd]);
    var prefix := Prefix(sym);
    if |prefix| + |symContent| <= maxChars {
      return chunks + [Chunk(prefix + symContent, docStart + 1, symEnd)];
    }
    var pieces := SplitSymbolChunks(symContent, prefix, docStart + 1, maxChars);
    chunks' := chunks + pieces;
  }

  method AppendGapChunks(chunks: seq<Chunk>, lines: seq<Bytes>, lo: nat, hi: nat, maxChars: nat) returns (chunks': seq<Chunk>)
    requires maxChars > 0 && lo < hi <= |lines|
    ensures chunks' == chunks + SegmentChunks(lines, Gap(lo, hi), maxChars)
  {
    if Trim(Join(lines[lo..hi])) != [] {
      var more := ChunkLines(lines, lo + 1, hi, maxChars);
      return chunks + more;
    }
    assert chunks + [] == chunks;
    return chunks;
  }

  lemma PlanUnfold(lines: seq<Bytes>, syms: seq<Symbol>, lastLine: nat)
    requires lastLine <= |lines| && AllInFile(syms, |lines|) && syms != []
    ensures InFile(syms[0], |lines|)
    ensures
      var start := DocStart(lines, lastLine, syms[0].startLine - 1);
      var end := SymbolEnd(syms[0], |lines|);
      var gap := if start > lastLine then [Gap(lastLine, start)] else [];
      Plan(lines, syms, lastLine) == gap + ([Body(syms[0], start, end)] + Plan(lines, syms[1..], end))
  {
    assert InFile(syms[0], |lines|);
    hide DocStart;
    var start := DocStart(lines, lastLine, syms[0].startLine - 1);
    var end := SymbolEnd(syms[0], |lines|);
    var gap := if start > lastLine then [Gap(lastLine, start)] else [];
    assert (gap + [Body(syms[0], start, end)]) + Plan(lines, syms[1..], end) == gap + ([Body(syms[0], start, end)] + Plan(lines, syms[1..], end));
  }

  /** The plan's first symbol: its chunks, and the gap before it, go first. */
  lemma PlanStep(chunks: seq<Chunk>, lines: seq<Bytes>, syms: seq<Symbol>, lastLine: nat, maxChars: nat)
    requires maxChars > 0 && lastLine <= |lines| && AllInFile(syms, |lines|) && syms != []
    ensures InFile(syms[0], |lines|)
    ensures
      var start := DocStart(lines, lastLine, syms[0].startLine - 1);
      var end := SymbolEnd(syms[0], |lines|);
      var gap := if start > lastLine then SegmentChunks(lines, Gap(lastLine, start), maxChars) else [];
      chunks + PlanChunks(lines, Plan(lines, syms, lastLine), maxChars) ==
        ((chunks + gap) + SegmentChunks(lines, Body(syms[0], start, end), maxChars)) + PlanChunks(lines, Plan(lines, syms[1..], end), maxChars)
  {
    PlanUnfold(lines, syms, lastLine);
    hide Plan, PlanChunks, SegmentChunks, DocStart;
    var start := DocStart(lines, lastLine, syms[0].startLine - 1);
    var end := SymbolEnd(syms[0], |lines|);
    FirstSegments(chunks, lines, lastLine, start, Body(syms[0], start, end), Plan(lines, syms[1..], end), maxChars);
  }

  lemma FirstSegments(chunks: seq<Chunk>, lines: seq<Bytes>, lastLine: nat, start: nat, body: Segment, rest: seq<Segment>, maxChars: nat)
    requires maxChars > 0 && lastLine <= |lines| && start <= |lines|
    requires InRange(body, |lines|) && AllInRange(rest, |lines|) && AllInRange([body] + rest, |lines|)
    requires AllInRange((if start > lastLine then [Gap(lastLine, start)] else []) + ([body] + rest), |lines|)
    ensures
      var segs := if start > lastLine then [Gap(lastLine, start)] else [];
      var gap := if start > lastLine then SegmentChunks(lines, Gap(lastLine, start), maxChars) else [];
      chunks + PlanChunks(lines, segs + ([body] + rest), maxChars) ==
        ((chunks + gap) + SegmentChunks(lines, body, maxChars)) + PlanChunks(lines, rest, maxChars)
  {
    var gap := if start > lastLine then SegmentChunks(lines, Gap(lastLine, start), maxChars) else [];
    var b, r := SegmentChunks(lines, body, maxChars), PlanChunks(lines, rest, maxChars);
    PlanCons(lines, body, rest, maxChars);
    if start > lastLine {
      PlanCons(lines, Gap(lastLine, start), [body] + rest, maxChars);
    } else {
      assert [] + ([body] + rest) == [body] + rest && [] + (b + r) == b + r;
    }
    hide *;
    Assoc(chunks, gap, b + r);
    Assoc(chunks + gap, b, r);
  }

  lemma PlanCons(lines: seq<Bytes>, seg: Segment, rest: seq<Segment>, maxChars: nat)
    requires maxChars > 0 && InRange(seg, |lines|) && AllInRange(rest, |lines|) && AllInRange([seg] + rest, |lines|)
    ensures PlanChunks(lines, [seg] + rest, maxChars) == SegmentChunks(lines, seg, maxChars) + PlanChunks(lines, rest, maxChars)
  {
    assert ([seg] + rest)[1..] == rest;
  }

  lemma SameSymbols(sorted: seq<Symbol>, syms: seq<Symbol>)
    requires SortedFrom(sorted, syms)
    ensures forall sym :: sym in sorted <==> sym in syms
    ensures syms == [] ==> sorted == []
  {
    hide Ascending;
    assert |multiset(sorted)| == |multiset(syms)|;
    forall sym
      ensures sym in sorted <==> sym in syms
    {
      assert sym in sorted <==> sym in multiset(sorted);
      assert sym in syms <==> sym in multiset(syms);
    }
  }

  lemma LineKeptAlso(lines: seq<Bytes>, sorted: seq<Symbol>, syms: seq<Symbol>, maxChars: nat, chunks: seq<Chunk>, n: nat)
    requires maxChars > 0 && LineKept(lines, sorted, maxChars, chunks, n) && forall sym :: sym in sorted ==> sym in syms
    ensures LineKept(lines, syms, maxChars, chunks, n)
  {
    hide Keeps, SpansSymbol;
  }

  /** What the chunks of a sorted symbol list's plan promise of the content: nothing is lost. */
  lemma PlanKeeps(lines: seq<Bytes>, syms: seq<Symbol>, sorted: seq<Symbol>, maxChars: nat)
    requires maxChars > 0 && SortedFrom(sorted, syms) && AllInFile(sorted, |lines|)
    ensures forall n :: 0 <= n < |lines| ==> LineKept(lines, syms, maxChars, PlanChunks(lines, Plan(lines, sorted, 0), maxChars), n)
    ensures forall sym :: sym in syms ==> SymbolKept(lines, sym, maxChars, PlanChunks(lines, Plan(lines, sorted, 0), maxChars))
  {
    SameSymbols(sorted, syms);
    hide Plan, PlanChunks, SortedFrom, LineKept, SymbolKept, AllInFile;
    var chunks := PlanChunks(lines, Plan(lines, sorted, 0), maxChars);
    forall n | 0 <= n < |lines|
      ensures LineKept(lines, syms, maxChars, chunks, n)
    {
      AstLosesNothing(lines, sorted, maxChars, n);
      LineKeptAlso(lines, sorted, syms, maxChars, chunks, n);
    }
    forall sym | sym in syms
      ensures SymbolKept(lines, sym, maxChars, chunks)
    {
      AstKeepsSymbols(lines, sorted, maxChars, sym);
    }
  }

  lemma PlanSizes(content: Bytes, syms: seq<Symbol>, sorted: seq<Symbol>, maxChars: nat)
    requires maxChars > 0 && SortedFrom(sorted, syms) && AllInFile(sorted, |SplitLines(content)|)
    requires Ascii(content) && forall sym :: sym in syms ==> |sym.kind| + |sym.name| + 4 < maxChars
    ensures
      var chunks := PlanChunks(SplitLines(content), Plan(SplitLines(content), sorted, 0), maxChars);
      forall i :: 0 <= i < |chunks| ==> |chunks[i].content| <= maxChars
  {
    SameSymbols(sorted, syms);
    hide Plan, PlanChunks, SplitLines, SortedFrom, Ascii, AllInFile, SpansSymbol;
    SplitLinesAscii(content);
    PlanSymbols(SplitLines(content), sorted, 0);
    PlanFits(SplitLines(content), Plan(SplitLines(content), sorted, 0), maxChars);
  }

  method AstChunkFromSyms(content: Bytes, maxChars: nat, syms: seq<Symbol>) returns (chunks: seq<Chunk>)
    requires maxChars > 0 && AllInFile(syms, |SplitLines(content)|)
    ensures exists sorted ::
      && SortedFrom(sorted, syms) && AllInFile(sorted, |SplitLines(content)|)
      && chunks == PlanChunks(SplitLines(content), Plan(SplitLines(content), sorted, 0), maxChars)
    // The lines hold the content, and no line is lost, however symbols nest or overlap.
    ensures Join(SplitLines(content)) == content
    ensures forall n :: 0 <= n < |SplitLines(content)| ==> LineKept(SplitLines(content), syms, maxChars, chunks, n)
    // Each symbol has a stretch of the chunks of its own: its lines, under its header.
    ensures forall sym :: sym in syms ==> SymbolKept(SplitLines(content), sym, maxChars, chunks)
    ensures syms == [] ==> TextIn(chunks) == NonSpace(content)
    // ASCII content, and headers shorter than a chunk: every chunk is within the bound.
    ensures Ascii(content) && (forall sym :: sym in syms ==> |sym.kind| + |sym.name| + 4 < maxChars) ==>
      forall i :: 0 <= i < |chunks| ==> |chunks[i].content| <= maxChars
  {
    hide Plan, PlanChunks, SegmentChunks, SplitLines, Ascending, DocStart, LineKept, SymbolKept, TextIn, NonSpace, Ascii, Prefix, Join;
    var order := SortByStart(syms);
    assert AllInFile(order, |SplitLines(content)|) by {
      assert forall sym :: sym in order ==> sym in multiset(order) && sym in multiset(syms);
    }
    var lines := SplitLines(content);
    chunks := [];
    var lastLine := 0;
    ghost var rest := order;
    assert [] + PlanChunks(lines, Plan(lines, order, 0), maxChars) == PlanChunks(lines, Plan(lines, order, 0), maxChars);
    for k := 0 to |order|
      invariant rest == order[k..] && 0 <= lastLine <= |lines| && AllInFile(rest, |lines|)
      invariant PlanChunks(lines, Plan(lines, order, 0), maxChars) == chunks + PlanChunks(lines, Plan(lines, rest, lastLine), maxChars)
    {
      PlanStep(chunks, lines, rest, lastLine, maxChars);
      var sym := order[k];
      var docStart := FindDocCommentStart(lines, lastLine, sym.startLine - 1);
      if docStart > lastLine {
        chunks := AppendGapChunks(chunks, lines, lastLine, docStart, maxChars);
      } else {
        assert chunks + [] == chunks;
      }
      var symEnd := SymbolEnd(sym, |lines|);
      chunks := AppendSymbolChunks(chunks, lines, sym, docStart, symEnd, maxChars);
      lastLine := symEnd;
      rest := rest[1..];
    }
    LastGap(chunks, lines, lastLine, maxChars);
    if lastLine < |lines| {
      chunks := AppendGapChunks(chunks, lines, lastLine, |lines|, maxChars);
    }
    LinesHoldContent(content, maxChars);
    SameSymbols(order, syms);
    PlanKeeps(lines, syms, order, maxChars);
    if Ascii(content) && forall sym :: sym in syms ==> |sym.kind| + |sym.name| + 4 < maxChars {
      PlanSizes(content, syms, order, maxChars);
    }
  }

  lemma LastGap(chunks: seq<Chunk>, lines: seq<Bytes>, lastLine: nat, maxChars: nat)
    requires maxChars > 0 && lastLine <= |lines|
    ensures chunks + PlanChunks(lines, Plan(lines, [], lastLine), maxChars) ==
      if lastLine < |lines| then chunks + SegmentChunks(lines, Gap(lastLine, |lines|), maxChars) else chunks
  {
    hide SegmentChunks;
    var plan := Plan(lines, [], lastLine);
    if lastLine < |lines| {
      assert plan[1..] == [];
      var c := SegmentChunks(lines, Gap(lastLine, |lines|), maxChars);
      assert c + [] == c;
    } else {
      assert chunks + [] == chunks;
    }
  }
}
