/** The sliding-window chunker for prose, chunkText (internal/chunker/chunker.go). */
module ProseChunks {
  import opened Basics
  import opened Text

  datatype Chunk = Chunk(content: Bytes, startLine: int, endLine: int)

  function CountNewlines(s: Bytes): nat {
    if s == [] then 0 else (if s[|s| - 1] == NEWLINE then 1 else 0) + CountNewlines(s[..|s| - 1])
  }

  /** The 1-based line of a byte offset. */
  function LineOf(text: Bytes, offset: int): int {
    var o := if offset > |text| then |text| else if offset < 0 then 0 else offset;
    1 + CountNewlines(text[..o])
  }

  // -------- where a window ends and where the next one starts

  /** The last newline in text[lo..hi], or lo - 1. */
  function LastNewline(text: Bytes, lo: nat, hi: nat): (nl: int)
    requires lo <= hi <= |text|
    ensures lo - 1 <= nl < hi && (nl >= lo ==> text[nl] == NEWLINE)
    ensures forall i :: nl < i < hi ==> text[i] != NEWLINE
    decreases hi
  {
    if hi == lo then lo - 1
    else if text[hi - 1] == NEWLINE then hi - 1
    else LastNewline(text, lo, hi - 1)
  }

  /** The nearest character start at or before p, but not before lo. */
  function SnapBack(text: Bytes, lo: nat, p: nat): (q: nat)
    requires lo <= p <= |text|
    ensures lo <= q <= p && (q > lo && q < |text| ==> RuneStart(text[q]))
    ensures forall i :: q < i <= p && i < |text| ==> !RuneStart(text[i])
    decreases p
  {
    if p > lo && p < |text| && !RuneStart(text[p]) then SnapBack(text, lo, p - 1) else p
  }

  function CutEnd(text: Bytes, start: nat, maxChars: nat): (end: nat)
    requires start <= |text|
    ensures start <= end <= |text| && end <= start + maxChars
  {
    if start + maxChars >= |text| then |text|
    else
      var nl := LastNewline(text, start, start + maxChars);
      if nl - start > maxChars / 2 then nl + 1 else SnapBack(text, start, start + maxChars)
  }

  function NextStart(text: Bytes, start: nat, end: nat, overlap: nat): (next: nat)
    requires start <= end <= |text|
    ensures start <= next <= end
  {
    if end - overlap <= start then end
    else
      var next := SnapBack(text, start, end - overlap);
      if next <= start then end else next
  }

  // -------- when the loop leaves

  /** Where the next turn starts; |text| stands for having left the loop. */
  function Turn(text: Bytes, start: nat, maxChars: nat): (next: nat)
    requires start <= |text|
    ensures start <= next <= |text|
  {
    var end := CutEnd(text, start, maxChars);
    if end >= |text| then |text| else NextStart(text, start, end, maxChars / 10)
  }

  /** The loop's trajectory: where turn k starts. */
  function StartAfter(text: Bytes, start: nat, maxChars: nat, k: nat): (s: nat)
    requires start <= |text|
    ensures s <= |text|
    decreases k
  {
    if k == 0 then start else StartAfter(text, Turn(text, start, maxChars), maxChars, k - 1)
  }

  predicate Leaves(text: Bytes, start: nat, maxChars: nat, k: nat)
    requires start <= |text|
  {
    StartAfter(text, start, maxChars, k) == |text|
  }

  /** No late newline helps and no character starts in the window. */
  ghost predicate Stalls(text: Bytes, start: nat, maxChars: nat) {
    && start + maxChars < |text|
    && (forall i :: start + maxChars / 2 < i < start + maxChars ==> text[i] != NEWLINE)
    && (forall i :: start < i <= start + maxChars ==> !RuneStart(text[i]))
  }

  /** Exactly then the next turn starts where this one did. */
  lemma StallsIff(text: Bytes, start: nat, maxChars: nat)
    requires start < |text|
    ensures Turn(text, start, maxChars) == start <==> CutEnd(text, start, maxChars) == start
    ensures Turn(text, start, maxChars) == start <==> Stalls(text, start, maxChars)
  {
    if start + maxChars < |text| {
      var nl := LastNewline(text, start, start + maxChars);
      var q := SnapBack(text, start, start + maxChars);
    }
  }

  /** Every turn from `start` on moves forward, up to the end of the text. */
  predicate Ends(text: Bytes, start: nat, maxChars: nat)
    requires start <= |text|
    decreases |text| - start
  {
    start == |text| || (Turn(text, start, maxChars) > start && Ends(text, Turn(text, start, maxChars), maxChars))
  }

  lemma {:induction false} EndsLeaves(text: Bytes, start: nat, maxChars: nat) returns (k: nat)
    requires start <= |text| && Ends(text, start, maxChars)
    ensures Leaves(text, start, maxChars, k)
    decreases |text| - start
  {
    if start == |text| {
      k := 0;
    } else {
      k := EndsLeaves(text, Turn(text, start, maxChars), maxChars);
      k := k + 1;
    }
  }

  lemma {:induction false} LeavesEnds(text: Bytes, start: nat, maxChars: nat, k: nat)
    requires start <= |text| && Leaves(text, start, maxChars, k)
    ensures Ends(text, start, maxChars)
    decreases k
  {
    hide Turn;
    if k > 0 { LeavesEnds(text, Turn(text, start, maxChars), maxChars, k - 1); }
  }

  lemma {:induction false} EndsNeverStalls(text: Bytes, start: nat, maxChars: nat, k: nat)
    requires start <= |text| && Ends(text, start, maxChars) && StartAfter(text, start, maxChars, k) < |text|
    ensures !Stalls(text, StartAfter(text, start, maxChars, k), maxChars)
    decreases k
  {
    hide Turn, Stalls;
    if k == 0 {
      StallsIff(text, start, maxChars);
    } else if start == |text| {
      EndsNeverStalls(text, start, maxChars, k - 1);
    } else {
      EndsNeverStalls(text, Turn(text, start, maxChars), maxChars, k - 1);
    }
  }

  lemma {:induction false} StallReached(text: Bytes, start: nat, maxChars: nat) returns (k: nat)
    requires start <= |text| && !Ends(text, start, maxChars)
    ensures StartAfter(text, start, maxChars, k) < |text| && Stalls(text, StartAfter(text, start, maxChars, k), maxChars)
    decreases |text| - start
  {
    hide Turn, Stalls;
    var next := Turn(text, start, maxChars);
    if next == start {
      StallsIff(text, start, maxChars);
      k := 0;
    } else {
      k := StallReached(text, next, maxChars);
      k := k + 1;
    }
  }

  /** On any bytes the loop leaves exactly when no turn it comes to stalls. */
  lemma LeavesIffNoneStalls(text: Bytes, start: nat, maxChars: nat)
    requires start <= |text|
    ensures (exists k :: Leaves(text, start, maxChars, k)) <==> Ends(text, start, maxChars)
    ensures (exists k :: Leaves(text, start, maxChars, k)) <==>
      forall k :: StartAfter(text, start, maxChars, k) < |text| ==> !Stalls(text, StartAfter(text, start, maxChars, k), maxChars)
  {
    hide StartAfter, Ends, Stalls;
    if Ends(text, start, maxChars) {
      var k := EndsLeaves(text, start, maxChars);
      forall k | StartAfter(text, start, maxChars, k) < |text|
        ensures !Stalls(text, StartAfter(text, start, maxChars, k), maxChars)
      {
        EndsNeverStalls(text, start, maxChars, k);
      }
    } else {
      var k := StallReached(text, start, maxChars);
      forall k | Leaves(text, start, maxChars, k)
        ensures false
      {
        LeavesEnds(text, start, maxChars, k);
      }
    }
  }

  /** No character of the text is wider than a window. */
  ghost predicate NoneWider(text: Bytes, maxChars: nat) {
    forall p {:trigger RuneStart(text[p])} :: 0 <= p < |text| && RuneStart(text[p]) ==> RuneWidth(text[p..]) <= maxChars
  }

  /** A character starts right after an ASCII byte. */
  lemma {:induction false} AfterAscii(s: Bytes, p: nat)
    requires ValidUtf8(s) && p < |s| && s[p] < 0x80
    ensures Boundary(s, p + 1)
    decreases |s|
  {
    var w := RuneWidth(s);
    if p >= w {
      AfterAscii(s[w..], p - w);
    } else {
      assert p == 0 && w == 1;
      if |s| > 1 { assert RuneWidth(s[1..]) > 0 && s[1..][0] == s[1]; }
    }
  }

  /** In valid text, a turn goes from boundary to boundary. */
  lemma StepOnBoundaries(text: Bytes, start: nat, maxChars: nat)
    requires ValidUtf8(text) && start < |text| && Boundary(text, start)
    ensures Boundary(text, CutEnd(text, start, maxChars)) && Boundary(text, Turn(text, start, maxChars))
  {
    hide ValidUtf8, RuneWidth;
    var limit := start + maxChars;
    if limit < |text| {
      var nl := LastNewline(text, start, limit);
      if nl - start > maxChars / 2 { AfterAscii(text, nl); }
    }
  }

  /** The character at a boundary, and the boundary after it. */
  lemma CharacterAt(text: Bytes, p: nat) returns (w: nat)
    requires ValidUtf8(text) && p < |text| && RuneStart(text[p])
    ensures w == RuneWidth(text[p..]) > 0 && p + w <= |text| && Boundary(text, p + w)
    ensures forall i :: p < i < p + w ==> !RuneStart(text[i])
  {
    ValidSplit(text, p);
    var s := text[p..];
    w := RuneWidth(s);
    forall i | p < i < p + w
      ensures !RuneStart(text[i])
    {
      assert text[i] == s[i - p];
    }
    assert s[w..] == [] || RuneWidth(s[w..]) > 0;
    assert p + w < |text| ==> s[w..][0] == text[p + w];
  }

  lemma {:induction false} NoneWiderEnds(text: Bytes, start: nat, maxChars: nat)
    requires ValidUtf8(text) && start <= |text| && Boundary(text, start) && NoneWider(text, maxChars)
    ensures Ends(text, start, maxChars)
    decreases |text| - start
  {
    if start < |text| {
      var w := CharacterAt(text, start);
      StepOnBoundaries(text, start, maxChars);
      StallsIff(text, start, maxChars);
      assert RuneStart(text[start]) && w <= maxChars;
      assert !Stalls(text, start, maxChars) by {
        if start + maxChars < |text| { assert RuneStart(text[start + w]); }
      }
      hide NoneWider, Turn, Stalls, ValidUtf8, Boundary;
      NoneWiderEnds(text, Turn(text, start, maxChars), maxChars);
    }
  }

  /** A turn that starts at or before a character wider than the window does not get past it. */
  lemma TurnTrapped(text: Bytes, start: nat, maxChars: nat, p: nat)
    requires ValidUtf8(text) && start <= p < |text| && Boundary(text, start)
    requires RuneStart(text[p]) && RuneWidth(text[p..]) > maxChars
    ensures Turn(text, start, maxChars) <= p && Boundary(text, Turn(text, start, maxChars))
  {
    var w := CharacterAt(text, p);
    StepOnBoundaries(text, start, maxChars);
    hide ValidUtf8, RuneWidth;
    var end := CutEnd(text, start, maxChars);
    assert end < p + w;
  }

  lemma {:induction false} Trapped(text: Bytes, start: nat, maxChars: nat, p: nat, k: nat)
    requires ValidUtf8(text) && start <= p < |text| && Boundary(text, start)
    requires RuneStart(text[p]) && RuneWidth(text[p..]) > maxChars
    ensures StartAfter(text, start, maxChars, k) <= p
    decreases k
  {
    if k > 0 {
      TurnTrapped(text, start, maxChars, p);
      hide Turn, ValidUtf8, Boundary, RuneWidth;
      Trapped(text, Turn(text, start, maxChars), maxChars, p, k - 1);
    }
  }

  /** On valid UTF-8 that needs more than one chunk the loop leaves exactly when every character fits a window. */
  lemma ValidLeavesIff(text: Bytes, maxChars: nat)
    requires ValidUtf8(text) && maxChars < |text|
    ensures (exists k :: Leaves(text, 0, maxChars, k)) <==> NoneWider(text, maxChars)
  {
    assert Boundary(text, 0) by { assert RuneWidth(text) > 0; }
    hide ValidUtf8, RuneWidth, StartAfter, Boundary;
    LeavesIffNoneStalls(text, 0, maxChars);
    if NoneWider(text, maxChars) {
      NoneWiderEnds(text, 0, maxChars);
    } else {
      var p :| 0 <= p < |text| && RuneStart(text[p]) && RuneWidth(text[p..]) > maxChars;
      forall k
        ensures !Leaves(text, 0, maxChars, k)
      {
        Trapped(text, 0, maxChars, p, k);
      }
    }
  }

  /** chunkText terminates: one chunk will do, or the loop leaves. */
  ghost predicate Terminates(text: Bytes, maxChars: nat) {
    |text| <= maxChars || exists k :: Leaves(text, 0, maxChars, k)
  }

  lemma ValidTerminates(text: Bytes, maxChars: nat)
    requires ValidUtf8(text) && maxChars >= 4
    ensures Terminates(text, maxChars) && NoneWider(text, maxChars)
  {
    if |text| > maxChars { ValidLeavesIff(text, maxChars); }
  }

  /** Below four bytes even valid text can loop for ever: no turn gets past a euro sign in a two-byte window. */
  lemma EurosNeverLeave(k: nat)
    ensures
      var euros: Bytes := [0xE2, 0x82, 0xAC, 0xE2, 0x82, 0xAC];
      ValidUtf8(euros) && StartAfter(euros, 0, 2, k) == 0 && !Leaves(euros, 0, 2, k)
  {
    var euros: Bytes := [0xE2, 0x82, 0xAC, 0xE2, 0x82, 0xAC];
    assert euros[3..] == [0xE2, 0x82, 0xAC] && euros[3..][3..] == [] && euros[0..] == euros;
    assert RuneWidth(euros[3..]) == 3;
    Trapped(euros, 0, 2, 0, k);
  }

  /** The loop moves on from a start it leaves from. */
  lemma Progress(text: Bytes, start: nat, maxChars: nat)
    requires start < |text| && Ends(text, start, maxChars)
    ensures
      var end := CutEnd(text, start, maxChars);
      && start < end
      && (end < |text| ==>
            var next := NextStart(text, start, end, maxChars / 10);
            start < next < |text| && Ends(text, next, maxChars))
  {}

  // -------- the windows

  datatype Window = Window(start: nat, end: nat)

  ghost predicate InText(text: Bytes, ws: seq<Window>) {
    forall i :: 0 <= i < |ws| ==> ws[i].start <= ws[i].end <= |text|
  }

  function Windows(text: Bytes, start: nat, maxChars: nat): (ws: seq<Window>)
    requires start < |text| && Ends(text, start, maxChars)
    ensures |ws| > 0 && ws[0].start == start && InText(text, ws)
    decreases |text| - start
  {
    Progress(text, start, maxChars);
    var end := CutEnd(text, start, maxChars);
    if end >= |text| then [Window(start, end)]
    else [Window(start, end)] + Windows(text, NextStart(text, start, end, maxChars / 10), maxChars)
  }

  function ChunkOf(text: Bytes, w: Window): Chunk
    requires w.start <= w.end <= |text|
  {
    Chunk(Trim(text[w.start..w.end]), LineOf(text, w.start), LineOf(text, w.end - 1))
  }

  /** The chunks from `start` on, one per window. */
  function ChunksFrom(text: Bytes, start: nat, maxChars: nat): seq<Chunk>
    requires start < |text| && Ends(text, start, maxChars)
    decreases |text| - start
  {
    Progress(text, start, maxChars);
    var end := CutEnd(text, start, maxChars);
    [ChunkOf(text, Window(start, end))] +
    if end >= |text| then [] else ChunksFrom(text, NextStart(text, start, end, maxChars / 10), maxChars)
  }

  lemma {:induction false} ChunkPerWindow(text: Bytes, start: nat, maxChars: nat)
    requires start < |text| && Ends(text, start, maxChars)
    ensures
      var ws, chunks := Windows(text, start, maxChars), ChunksFrom(text, start, maxChars);
      |chunks| == |ws| && forall i :: 0 <= i < |ws| ==> chunks[i] == ChunkOf(text, ws[i])
    decreases |text| - start
  {
    hide CutEnd, NextStart, ChunkOf, Ends;
    Progress(text, start, maxChars);
    var end := CutEnd(text, start, maxChars);
    if end < |text| {
      ChunkPerWindow(text, NextStart(text, start, end, maxChars / 10), maxChars);
    }
  }

  lemma OneMoreChunk(text: Bytes, start: nat, maxChars: nat, chunks: seq<Chunk>)
    requires start < |text| && Ends(text, start, maxChars)
    ensures
      var end := CutEnd(text, start, maxChars);
      var more := chunks + [ChunkOf(text, Window(start, end))];
      && (end >= |text| ==> chunks + ChunksFrom(text, start, maxChars) == more)
      && (end < |text| ==>
            NextStart(text, start, end, maxChars / 10) < |text| &&
            chunks + ChunksFrom(text, start, maxChars) == more + ChunksFrom(text, NextStart(text, start, end, maxChars / 10), maxChars))
  {
    Progress(text, start, maxChars);
    hide CutEnd, NextStart, ChunkOf, Ends;
    var end := CutEnd(text, start, maxChars);
    var c := ChunkOf(text, Window(start, end));
    if end >= |text| {
      assert [c] + [] == [c];
    } else {
      var rest := ChunksFrom(text, NextStart(text, start, end, maxChars / 10), maxChars);
      assert ChunksFrom(text, start, maxChars) == [c] + rest;
      hide *;
      Assoc(chunks, [c], rest);
    }
  }

  lemma ChunkIs(text: Bytes, start: nat, end: nat)
    requires start <= end <= |text|
    ensures ChunkOf(text, Window(start, end)) == Chunk(Trim(text[start..end]), LineOf(text, start), LineOf(text, end - 1))
  {}

  /** strings.LastIndex of a newline in text[lo..hi], as an index into text. */
  method FindLastNewline(text: Bytes, lo: nat, hi: nat) returns (nl: int)
    requires lo <= hi <= |text|
    ensures nl == LastNewline(text, lo, hi)
  {
    nl := hi - 1;
    while nl >= lo && text[nl] != NEWLINE
      invariant lo - 1 <= nl < hi && LastNewline(text, lo, nl + 1) == LastNewline(text, lo, hi)
    {
      nl := nl - 1;
    }
  }

  method ProseCutEnd(text: Bytes, start: nat, maxChars: nat) returns (end: nat)
    requires start <= |text|
    ensures end == CutEnd(text, start, maxChars)
  {
    end := start + maxChars;
    if end >= |text| { return |text|; }
    var nl := FindLastNewline(text, start, end);
    if nl - start > maxChars / 2 { return nl + 1; }
    while end > start && !RuneStart(text[end])
      invariant start <= end < |text| && SnapBack(text, start, end) == SnapBack(text, start, start + maxChars)
    {
      end := end - 1;
    }
  }

  method ProseNextStart(text: Bytes, start: nat, end: nat, overlap: nat) returns (next: int)
    requires start <= end <= |text|
    ensures next == NextStart(text, start, end, overlap)
  {
    next := end - overlap;
    while next > start && next < |text| && !RuneStart(text[next])
      invariant next <= end
      invariant end - overlap <= start ==> next == end - overlap
      invariant end - overlap > start ==> start <= next && SnapBack(text, start, next) == SnapBack(text, start, end - overlap)
    {
      next := next - 1;
    }
    if next <= start {
      next := end;
    }
  }

  /** Short text is one chunk; longer text one chunk per window. */
  function Prose(text: Bytes, maxChars: nat): seq<Chunk>
    requires Terminates(text, maxChars)
  {
    if |text| <= maxChars then [Chunk(Trim(text), 1, LineOf(text, |text|))]
    else
      LeavesIffNoneStalls(text, 0, maxChars);
      ChunksFrom(text, 0, maxChars)
  }

  // -------- the windows and chunks, told by the bytes

  /** How many newlines stand before position n. */
  ghost function NewlinesBefore(text: Bytes, n: nat): set<nat>
    requires n <= |text|
  {
    set i: nat | i < n && text[i] == NEWLINE
  }

  lemma {:induction false} CountIs(text: Bytes, n: nat)
    requires n <= |text|
    ensures CountNewlines(text[..n]) == |NewlinesBefore(text, n)|
    decreases n
  {
    if n == 0 {
      assert NewlinesBefore(text, 0) == {};
    } else {
      CountIs(text, n - 1);
      assert text[..n][..n - 1] == text[..n - 1];
      assert NewlinesBefore(text, n) ==
        if text[n - 1] == NEWLINE then NewlinesBefore(text, n - 1) + {n - 1} else NewlinesBefore(text, n - 1);
    }
  }

  /** A window that stops short ends right after the last newline past its half, or else on the last character start in reach. */
  ghost predicate IsCut(text: Bytes, w: Window, maxChars: nat)
    requires w.start <= w.end <= |text|
  {
    var limit := w.start + maxChars;
    if limit >= |text| then w.end == |text|
    else if exists i :: w.start + maxChars / 2 < i < limit && text[i] == NEWLINE then
      && w.start + maxChars / 2 < w.end - 1 < limit && text[w.end - 1] == NEWLINE
      && forall i :: w.end <= i < limit ==> text[i] != NEWLINE
    else
      && w.end <= limit && (w.end > w.start ==> RuneStart(text[w.end]))
      && forall i :: w.end < i <= limit ==> !RuneStart(text[i])
  }

  lemma CutIff(text: Bytes, w: Window, maxChars: nat)
    requires w.start <= w.end <= |text|
    ensures IsCut(text, w, maxChars) <==> w.end == CutEnd(text, w.start, maxChars)
  {
    var limit := w.start + maxChars;
    if limit < |text| {
      var nl := LastNewline(text, w.start, limit);
      var q := SnapBack(text, w.start, limit);
    }
  }

  /** The next window starts on the last character start that overlaps a tenth of maxChars, or where this one ended. */
  ghost predicate IsOverlap(text: Bytes, w: Window, next: nat, maxChars: nat)
    requires w.start <= w.end <= |text|
  {
    var back := w.end - maxChars / 10;
    if exists i :: w.start < i <= back && i < |text| && RuneStart(text[i]) then
      w.start < next <= back && next < |text| && RuneStart(text[next]) && forall i :: next < i <= back && i < |text| ==> !RuneStart(text[i])
    else next == w.end
  }

  lemma OverlapIff(text: Bytes, w: Window, next: nat, maxChars: nat)
    requires w.start <= w.end < |text|
    ensures IsOverlap(text, w, next, maxChars) <==> next == NextStart(text, w.start, w.end, maxChars / 10)
  {
    if w.end - maxChars / 10 > w.start {
      var q := SnapBack(text, w.start, w.end - maxChars / 10);
    }
  }

  ghost predicate IsWindowing(text: Bytes, ws: seq<Window>, start: nat, maxChars: nat) {
    && |ws| > 0 && ws[0].start == start && InText(text, ws)
    && (forall i :: 0 <= i < |ws| ==> IsCut(text, ws[i], maxChars))
    && (forall i :: 0 <= i < |ws| ==> (ws[i].end == |text| <==> i == |ws| - 1))
    && (forall i, j :: 0 <= i && j == i + 1 && j < |ws| ==> IsOverlap(text, ws[i], ws[j].start, maxChars))
  }

  lemma FirstWindow(text: Bytes, start: nat, maxChars: nat, w: Window, rest: seq<Window>, next: nat)
    requires w.start == start <= w.end < |text| && IsCut(text, w, maxChars)
    requires IsWindowing(text, rest, next, maxChars) && IsOverlap(text, w, next, maxChars)
    ensures IsWindowing(text, [w] + rest, start, maxChars)
  {
    hide IsCut, IsOverlap;
    var ws := [w] + rest;
    assert forall i :: 0 < i < |ws| ==> ws[i] == rest[i - 1];
  }

  /** The loop's windows are cut and overlap so. */
  lemma {:induction false} WindowsAre(text: Bytes, start: nat, maxChars: nat)
    requires start < |text| && Ends(text, start, maxChars)
    ensures IsWindowing(text, Windows(text, start, maxChars), start, maxChars)
    decreases |text| - start
  {
    Progress(text, start, maxChars);
    var end := CutEnd(text, start, maxChars);
    var w := Window(start, end);
    CutIff(text, w, maxChars);
    if end < |text| {
      var next := NextStart(text, start, end, maxChars / 10);
      OverlapIff(text, w, next, maxChars);
      hide CutEnd, NextStart, Ends, IsCut, IsOverlap, IsWindowing;
      WindowsAre(text, next, maxChars);
      FirstWindow(text, start, maxChars, w, Windows(text, next, maxChars), next);
    }
  }

  /** The chunk of a window: its text, trimmed, and the lines of its first and last byte. */
  ghost predicate IsChunk(text: Bytes, w: Window, c: Chunk)
    requires w.start < w.end <= |text|
  {
    && c.content == Trim(text[w.start..w.end])
    && c.startLine == 1 + |NewlinesBefore(text, w.start)| && c.endLine == 1 + |NewlinesBefore(text, w.end - 1)|
  }

  ghost predicate AreChunks(text: Bytes, ws: seq<Window>, chunks: seq<Chunk>) {
    |chunks| == |ws| && forall i :: 0 <= i < |ws| ==> ws[i].start < ws[i].end <= |text| && IsChunk(text, ws[i], chunks[i])
  }

  /** What chunkText returns: one chunk for short text, otherwise the chunks of its windows. */
  ghost predicate IsProse(text: Bytes, maxChars: nat, chunks: seq<Chunk>) {
    if |text| <= maxChars then chunks == [Chunk(Trim(text), 1, 1 + |NewlinesBefore(text, |text|)|)]
    else exists ws :: IsWindowing(text, ws, 0, maxChars) && AreChunks(text, ws, chunks)
  }

  lemma ChunkIsChunk(text: Bytes, w: Window)
    requires w.start < w.end <= |text|
    ensures IsChunk(text, w, ChunkOf(text, w))
  {
    hide Trim, CountNewlines;
    CountIs(text, w.start);
    CountIs(text, w.end - 1);
  }

  lemma ChunksAre(text: Bytes, start: nat, maxChars: nat)
    requires start < |text| && Ends(text, start, maxChars)
    ensures AreChunks(text, Windows(text, start, maxChars), ChunksFrom(text, start, maxChars))
  {
    hide Ends, ChunksFrom, Windows, ChunkOf, IsChunk, NoGap;
    var ws, chunks := Windows(text, start, maxChars), ChunksFrom(text, start, maxChars);
    WindowsCover(text, start, maxChars);
    ChunkPerWindow(text, start, maxChars);
    forall i | 0 <= i < |ws|
      ensures ws[i].start < ws[i].end <= |text| && IsChunk(text, ws[i], chunks[i])
    {
      ChunkIsChunk(text, ws[i]);
    }
  }

  lemma ProseIs(text: Bytes, maxChars: nat)
    requires Terminates(text, maxChars)
    ensures IsProse(text, maxChars, Prose(text, maxChars))
  {
    hide IsWindowing, AreChunks, ChunksFrom, Windows, Ends, CountNewlines, Trim;
    if |text| <= maxChars {
      assert text[..|text|] == text;
      CountIs(text, |text|);
    } else {
      LeavesIffNoneStalls(text, 0, maxChars);
      WindowsAre(text, 0, maxChars);
      ChunksAre(text, 0, maxChars);
    }
  }

  method ChunkText(text: Bytes, maxChars: nat) returns (chunks: seq<Chunk>)
    requires Terminates(text, maxChars)
    ensures chunks == Prose(text, maxChars)
    ensures IsProse(text, maxChars, chunks)
  {
    ProseIs(text, maxChars);
    if |text| <= maxChars {
      return [Chunk(Trim(text), 1, LineOf(text, |text|))];
    }
    LeavesIffNoneStalls(text, 0, maxChars);
    assert Prose(text, maxChars) == ChunksFrom(text, 0, maxChars);
    hide *;
    chunks := [];
    var overlap := maxChars / 10;
    var start := 0;
    while start < |text|
      invariant start < |text| && Ends(text, start, maxChars)
      invariant ChunksFrom(text, 0, maxChars) == chunks + ChunksFrom(text, start, maxChars)
      decreases |text| - start
    {
      Progress(text, start, maxChars);
      OneMoreChunk(text, start, maxChars, chunks);
      var end := ProseCutEnd(text, start, maxChars);
      ChunkIs(text, start, end);
      chunks := chunks + [Chunk(Trim(text[start..end]), LineOf(text, start), LineOf(text, end - 1))];
      if end >= |text| {
        break;
      }
      start := ProseNextStart(text, start, end, overlap);
    }
  }

  // -------- what the windows are

  /** Each window is followed by one that starts later, inside it or at its end. */
  ghost predicate NoGap(a: Window, b: Window) {
    a.start < b.start <= a.end
  }

  lemma {:induction false} WindowsCover(text: Bytes, start: nat, maxChars: nat)
    requires start < |text| && Ends(text, start, maxChars)
    ensures
      var ws := Windows(text, start, maxChars);
      && ws[0].start == start && ws[|ws| - 1].end == |text|
      && (forall i :: 0 <= i < |ws| ==> ws[i].start < ws[i].end <= ws[i].start + maxChars)
      && (forall i :: 0 <= i < |ws| - 1 ==> NoGap(ws[i], ws[i + 1]))
    decreases |text| - start
  {
    hide CutEnd, NextStart;
    Progress(text, start, maxChars);
    var end := CutEnd(text, start, maxChars);
    if end < |text| {
      WindowsCover(text, NextStart(text, start, end, maxChars / 10), maxChars);
    }
  }

  /** In valid text both ends of the next window are boundaries, and the step forward is at least
      half the window less the overlap, less what snapping back to a character start costs. */
  lemma StepOk(text: Bytes, start: nat, maxChars: nat)
    requires ValidUtf8(text) && maxChars >= 4 && start < |text| && Boundary(text, start)
    ensures
      var end := CutEnd(text, start, maxChars);
      && Boundary(text, end)
      && (end < |text| ==>
            var next := NextStart(text, start, end, maxChars / 10);
            && Boundary(text, next)
            && (maxChars >= 20 ==> next - start >= maxChars / 2 - maxChars / 10 - 1)
            && CutEnd(text, next, maxChars) > end)
  {
    var end := CutEnd(text, start, maxChars);
    if end < |text| {
      LateEnd(text, start, maxChars);
      var next := NextStart(text, start, end, maxChars / 10);
      if end - maxChars / 10 > start {
        var q := BoundaryNear(text, end - maxChars / 10);
        assert next >= end - maxChars / 10 - 3;
      }
      LateEnd(text, next, maxChars);
    }
  }

  /** A window that stops short stops on a boundary, past its half or within three bytes of its limit. */
  lemma LateEnd(text: Bytes, start: nat, maxChars: nat)
    requires ValidUtf8(text) && maxChars >= 4 && start < |text|
    ensures
      var end := CutEnd(text, start, maxChars);
      && (end < |text| ==> end - start >= maxChars / 2 + 2 || end - start >= maxChars - 3)
      && end > start && Boundary(text, end)
  {
    hide ValidUtf8, RuneWidth;
    var limit := start + maxChars;
    if limit < |text| {
      var q := BoundaryNear(text, limit);
      var nl := LastNewline(text, start, limit);
      if nl - start > maxChars / 2 {
        AfterAscii(text, nl);
      }
    }
  }

  /** On valid text no window cuts a character: each is valid UTF-8 by itself, and the ends advance. */
  lemma {:induction false} WindowsValid(text: Bytes, start: nat, maxChars: nat)
    requires ValidUtf8(text) && maxChars >= 4
    requires start < |text| && Boundary(text, start) && Ends(text, start, maxChars)
    ensures
      var ws := Windows(text, start, maxChars);
      && (forall i :: 0 <= i < |ws| ==> ValidUtf8(text[ws[i].start..ws[i].end]))
      && (forall i :: 0 <= i < |ws| - 1 ==> ws[i].end < ws[i + 1].end)
      && ws[0].end == CutEnd(text, start, maxChars)
    decreases |text| - start
  {
    hide CutEnd, NextStart, Ends, ValidUtf8, Boundary;
    var end := CutEnd(text, start, maxChars);
    Progress(text, start, maxChars);
    StepOk(text, start, maxChars);
    SliceValid(text, start, end);
    if end < |text| {
      WindowsValid(text, NextStart(text, start, end, maxChars / 10), maxChars);
    }
  }

  ghost predicate OnBoundaries(text: Bytes, w: Window) {
    w.start <= w.end <= |text| && Boundary(text, w.start) && Boundary(text, w.end)
  }

  lemma {:induction false} WindowOnBoundaries(text: Bytes, start: nat, maxChars: nat, i: nat)
    requires ValidUtf8(text)
    requires start < |text| && Boundary(text, start) && Ends(text, start, maxChars) && i < |Windows(text, start, maxChars)|
    ensures OnBoundaries(text, Windows(text, start, maxChars)[i])
    decreases i
  {
    hide CutEnd, NextStart, Ends, ValidUtf8, Boundary, InText;
    var end := CutEnd(text, start, maxChars);
    Progress(text, start, maxChars);
    StepOnBoundaries(text, start, maxChars);
    if i > 0 {
      hide OnBoundaries;
      WindowOnBoundaries(text, NextStart(text, start, end, maxChars / 10), maxChars, i - 1);
    }
  }

  lemma SliceValid(text: Bytes, start: nat, end: nat)
    requires ValidUtf8(text) && start <= end <= |text| && Boundary(text, start) && Boundary(text, end)
    ensures ValidUtf8(text[start..end])
  {
    ValidSplit(text, end);
    var front := text[..end];
    assert start < end ==> front[start] == text[start];
    ValidSplit(front, start);
    assert front[start..] == text[start..end];
  }

  /** The least a step forward advances. */
  function Stride(maxChars: nat): int {
    maxChars / 2 - maxChars / 10 - 1
  }

  lemma {:induction false} WindowsStride(text: Bytes, start: nat, maxChars: nat)
    requires ValidUtf8(text) && maxChars >= 20
    requires start < |text| && Boundary(text, start) && Ends(text, start, maxChars)
    ensures Product(|Windows(text, start, maxChars)| - 1, Stride(maxChars)) < |text| - start
    decreases |text| - start
  {
    hide CutEnd, NextStart, Ends, ValidUtf8, Boundary, InText;
    var end := CutEnd(text, start, maxChars);
    Progress(text, start, maxChars);
    StepOk(text, start, maxChars);
    if end < |text| {
      var next := NextStart(text, start, end, maxChars / 10);
      assert |Windows(text, start, maxChars)| == 1 + |Windows(text, next, maxChars)|;
      assert next - start >= Stride(maxChars);
      hide *;
      WindowsStride(text, next, maxChars);
      OneStrideMore(|Windows(text, start, maxChars)| - 1, Stride(maxChars), |text| - start, |text| - next);
    } else {
      assert |Windows(text, start, maxChars)| == 1;
    }
  }

  lemma OneStrideMore(n: nat, d: int, len: int, rest: int)
    requires n > 0 && Product(n - 1, d) < rest && len - rest >= d
    ensures Product(n, d) < len
  {
    assert n * d == (n - 1) * d + d;
  }

  lemma StridePositive(maxChars: nat)
    requires maxChars >= 20
    ensures Stride(maxChars) > 0
  {}

  lemma WindowsQuotient(text: Bytes, start: nat, maxChars: nat)
    requires ValidUtf8(text) && maxChars >= 20
    requires start < |text| && Boundary(text, start) && Ends(text, start, maxChars)
    ensures Stride(maxChars) > 0
    ensures |Windows(text, start, maxChars)| - 1 <= Quotient(|text| - start, Stride(maxChars))
  {
    hide *;
    StridePositive(maxChars);
    WindowsStride(text, start, maxChars);
    QuotientBound(|Windows(text, start, maxChars)| - 1, Stride(maxChars), |text| - start);
  }

  /** At most one window more than whole strides fit into the text. */
  lemma WindowsCount(text: Bytes, start: nat, maxChars: nat)
    requires ValidUtf8(text) && maxChars >= 20
    requires start < |text| && Boundary(text, start) && Ends(text, start, maxChars)
    ensures |Windows(text, start, maxChars)| <= 1 + (|text| - start) / Stride(maxChars)
  {
    WindowsQuotient(text, start, maxChars);
    hide Windows, Ends, ValidUtf8, Boundary;
  }
}
