/** Bytes of text: UTF-8 validity (section 4 of RFC 3629), the Unicode white space that
    strings.TrimSpace removes, and the text that is left without it. */
module Text {
  import opened Basics

  const NEWLINE: byte := 10

  /** The bytes of an ASCII text. */
  function FromAscii(w: string): (s: Bytes)
    requires forall i :: 0 <= i < |w| ==> w[i] as int < 0x80
    ensures |s| == |w| && forall i :: 0 <= i < |w| ==> s[i] == w[i] as int
  {
    seq(|w|, i requires 0 <= i < |w| => w[i] as int)
  }

  lemma NewlineIs()
    ensures [NEWLINE] == FromAscii("\n")
  {}

  /** utf8.RuneStart: not a continuation byte. */
  predicate RuneStart(b: byte) {
    !(0x80 <= b < 0xC0)
  }

  predicate Tail(b: byte) {
    0x80 <= b <= 0xBF
  }

  /** The width of the well-formed character at the front of s, or 0. */
  function RuneWidth(s: Bytes): (w: nat)
    ensures w <= |s| && w <= 4
    ensures w > 0 ==> RuneStart(s[0]) && forall i :: 1 <= i < w ==> Tail(s[i])
  {
    if s == [] then 0
    else if s[0] <= 0x7F then 1
    else if 0xC2 <= s[0] <= 0xDF && |s| >= 2 && Tail(s[1]) then 2
    else if |s| >= 3 && Tail(s[1]) && Tail(s[2]) &&
            ((s[0] == 0xE0 && s[1] >= 0xA0) || (s[0] == 0xED && s[1] <= 0x9F) ||
             0xE1 <= s[0] <= 0xEC || 0xEE <= s[0] <= 0xEF) then 3
    else if |s| >= 4 && Tail(s[1]) && Tail(s[2]) && Tail(s[3]) &&
            ((s[0] == 0xF0 && s[1] >= 0x90) || (s[0] == 0xF4 && s[1] <= 0x8F) || 0xF1 <= s[0] <= 0xF3) then 4
    else 0
  }

  predicate ValidUtf8(s: Bytes)
    decreases |s|
  {
    s == [] || (RuneWidth(s) > 0 && ValidUtf8(s[RuneWidth(s)..]))
  }

  /** p does not fall inside a character. */
  predicate Boundary(s: Bytes, p: int)
    requires 0 <= p <= |s|
  {
    p == |s| || RuneStart(s[p])
  }

  ghost predicate Ascii(s: Bytes) {
    forall i :: 0 <= i < |s| ==> s[i] < 0x80
  }

  lemma RuneWidthPrefix(s: Bytes, t: Bytes)
    requires RuneWidth(s) > 0
    ensures RuneWidth(s[..RuneWidth(s)] + t) == RuneWidth(s)
  {
    var u := s[..RuneWidth(s)] + t;
    assert forall i :: 0 <= i < RuneWidth(s) ==> u[i] == s[i];
  }

  /** Cutting valid text on boundaries leaves valid pieces. */
  lemma {:induction false} ValidSplit(s: Bytes, p: nat)
    requires ValidUtf8(s) && p <= |s| && Boundary(s, p)
    ensures ValidUtf8(s[..p]) && ValidUtf8(s[p..])
    decreases |s|
  {
    if p == 0 {
    } else if p == |s| {
      assert s[..p] == s && s[p..] == [];
    } else {
      var w := RuneWidth(s);
      assert w <= p;
      ValidSplit(s[w..], p - w);
      assert s[..p] == s[..w] + s[w..][..p - w];
      RuneWidthPrefix(s, s[w..][..p - w]);
      assert s[..p][w..] == s[w..][..p - w] && s[w..][p - w..] == s[p..];
    }
  }

  /** In valid text a boundary lies at most three bytes back from any position. */
  lemma {:induction false} BoundaryNear(s: Bytes, p: nat) returns (q: nat)
    requires ValidUtf8(s) && p < |s|
    ensures q <= p <= q + 3 && RuneStart(s[q])
    decreases |s|
  {
    var w := RuneWidth(s);
    if p < w {
      q := 0;
    } else {
      q := BoundaryNear(s[w..], p - w);
      q := q + w;
    }
  }

  // -------- the encoding (section 3 of RFC 3629)

  /** A Unicode scalar value: any code point but a surrogate. */
  predicate IsScalar(c: int) {
    0 <= c < 0xD800 || 0xE000 <= c <= 0x10FFFF
  }

  function Utf8(c: int): Bytes
    requires IsScalar(c)
  {
    if c < 0x80 then [c]
    else if c < 0x800 then [0xC0 + c / 64, 0x80 + c % 64]
    else if c < 0x1_0000 then [0xE0 + c / 4096, 0x80 + c / 64 % 64, 0x80 + c % 64]
    else [0xF0 + c / 262144, 0x80 + c / 4096 % 64, 0x80 + c / 64 % 64, 0x80 + c % 64]
  }

  /** Every scalar value's encoding reads as one character, and starts only there. */
  lemma ScalarIsRune(c: int, rest: Bytes)
    requires IsScalar(c)
    ensures RuneWidth(Utf8(c) + rest) == |Utf8(c)|
    ensures forall i :: 0 <= i < |Utf8(c)| ==> (RuneStart(Utf8(c)[i]) <==> i == 0)
  {
    var s, u := Utf8(c) + rest, Utf8(c);
    Sextets(c);
    assert s[0] == u[0];
    if c >= 0x80 { assert s[1] == u[1]; }
    if c >= 0x800 { assert s[2] == u[2]; }
    if c >= 0x1_0000 { assert s[3] == u[3]; }
  }

  /** The high bits of a scalar value rule out what RFC 3629 forbids. */
  lemma Sextets(c: int)
    requires IsScalar(c)
    ensures 0x80 <= c < 0x800 ==> 2 <= c / 64 < 32
    ensures 0x800 <= c < 0x1_0000 ==>
      c / 4096 < 16 && (c / 4096 == 0 ==> c / 64 % 64 >= 0x20) && (c / 4096 == 13 ==> c / 64 % 64 < 0x20)
    ensures c >= 0x1_0000 ==>
      c / 262144 <= 4 && (c / 262144 == 0 ==> c / 4096 % 64 >= 0x10) && (c / 262144 == 4 ==> c / 4096 % 64 < 0x10)
  {
    assert c / 64 == c / 4096 * 64 + c / 64 % 64;
    assert c / 4096 == c / 262144 * 64 + c / 4096 % 64;
  }

  /** Every character is the encoding of a scalar value. */
  lemma RuneIsScalar(s: Bytes) returns (c: int)
    requires RuneWidth(s) > 0
    ensures IsScalar(c) && s[..RuneWidth(s)] == Utf8(c)
  {
    var w := RuneWidth(s);
    if w == 1 {
      c := s[0];
    } else if w == 2 {
      c := (s[0] as int - 0xC0) * 64 + (s[1] as int - 0x80);
    } else if w == 3 {
      c := ThreeBytes(s[0] as int - 0xE0, s[1] as int - 0x80, s[2] as int - 0x80);
      assert s[..3] == [s[0], s[1], s[2]];
    } else {
      c := FourBytes(s[0] as int - 0xF0, s[1] as int - 0x80, s[2] as int - 0x80, s[3] as int - 0x80);
      assert s[..4] == [s[0], s[1], s[2], s[3]];
    }
  }

  lemma ThreeBytes(x: int, y: int, z: int) returns (c: int)
    requires 0 <= x < 16 && 0 <= y < 64 && 0 <= z < 64 && (x == 0 ==> y >= 0x20) && (x == 13 ==> y < 0x20)
    ensures IsScalar(c) && Utf8(c) == [0xE0 + x, 0x80 + y, 0x80 + z]
  {
    c := (x * 64 + y) * 64 + z;
    assert c / 64 == x * 64 + y && c % 64 == z;
    assert c / 4096 == x && c / 64 % 64 == y;
  }

  lemma FourBytes(v: int, x: int, y: int, z: int) returns (c: int)
    requires 0 <= v <= 4 && 0 <= x < 64 && 0 <= y < 64 && 0 <= z < 64 && (v == 0 ==> x >= 0x10) && (v == 4 ==> x < 0x10)
    ensures IsScalar(c) && Utf8(c) == [0xF0 + v, 0x80 + x, 0x80 + y, 0x80 + z]
  {
    c := ((v * 64 + x) * 64 + y) * 64 + z;
    assert c / 64 == (v * 64 + x) * 64 + y && c % 64 == z;
    assert c / 4096 == v * 64 + x && c / 64 % 64 == y;
    assert c / 262144 == v && c / 4096 % 64 == x;
  }

  function Utf8All(cs: seq<int>): Bytes
    requires forall i :: 0 <= i < |cs| ==> IsScalar(cs[i])
  {
    if cs == [] then [] else Utf8(cs[0]) + Utf8All(cs[1..])
  }

  /** Valid text is exactly what encodes a sequence of scalar values. */
  lemma {:induction false} EncodedIsValid(cs: seq<int>)
    requires forall i :: 0 <= i < |cs| ==> IsScalar(cs[i])
    ensures ValidUtf8(Utf8All(cs))
    decreases |cs|
  {
    if cs != [] {
      EncodedIsValid(cs[1..]);
      ScalarIsRune(cs[0], Utf8All(cs[1..]));
      hide Utf8, RuneWidth;
      assert (Utf8(cs[0]) + Utf8All(cs[1..]))[|Utf8(cs[0])|..] == Utf8All(cs[1..]);
    }
  }

  lemma {:induction false} ValidIsEncoded(s: Bytes) returns (cs: seq<int>)
    requires ValidUtf8(s)
    ensures (forall i :: 0 <= i < |cs| ==> IsScalar(cs[i])) && s == Utf8All(cs)
    decreases |s|
  {
    cs := [];
    if s != [] {
      var c := RuneIsScalar(s);
      var w := RuneWidth(s);
      hide Utf8, RuneWidth, IsScalar;
      var rest := ValidIsEncoded(s[w..]);
      cs := [c] + rest;
      assert cs[1..] == rest;
      Rejoin(s, w);
    }
  }

  // -------- white space

  /** The width of the white space character at the front of s, or 0. */
  function SpaceWidth(s: Bytes): (w: nat)
    ensures w <= |s|
    ensures w > 0 ==> RuneStart(s[0]) && forall i :: 1 <= i < w ==> Tail(s[i])
  {
    if s == [] then 0
    else if 9 <= s[0] <= 13 || s[0] == 32 then 1
    else if |s| >= 2 && s[0] == 0xC2 && (s[1] == 0x85 || s[1] == 0xA0) then 2
    else if |s| >= 3 && (
            || (s[0] == 0xE1 && s[1] == 0x9A && s[2] == 0x80)
            || (s[0] == 0xE2 && s[1] == 0x80 && (0x80 <= s[2] <= 0x8A || s[2] == 0xA8 || s[2] == 0xA9 || s[2] == 0xAF))
            || (s[0] == 0xE2 && s[1] == 0x81 && s[2] == 0x9F)
            || (s[0] == 0xE3 && s[1] == 0x80 && s[2] == 0x80)) then 3
    else 0
  }

  /** The Unicode property White_Space. */
  predicate WhiteSpace(c: int) {
    || c in {0x09, 0x0A, 0x0B, 0x0C, 0x0D, 0x20, 0x85, 0xA0, 0x1680, 0x2028, 0x2029, 0x202F, 0x205F, 0x3000}
    || 0x2000 <= c <= 0x200A
  }

  /** A scalar value's encoding counts as white space exactly when the scalar value is white space. */
  lemma SpaceIff(c: int, rest: Bytes)
    requires IsScalar(c)
    ensures SpaceWidth(Utf8(c) + rest) == if WhiteSpace(c) then |Utf8(c)| else 0
  {
    var s := Utf8(c) + rest;
    assert forall i :: 0 <= i < |Utf8(c)| ==> s[i] == Utf8(c)[i];
  }

  /** Nothing else does, in bytes of any kind. */
  lemma SpaceIsScalar(s: Bytes) returns (c: int)
    requires SpaceWidth(s) > 0
    ensures IsScalar(c) && WhiteSpace(c) && s[..SpaceWidth(s)] == Utf8(c)
  {
    hide ValidUtf8;
    assert RuneWidth(s) == SpaceWidth(s);
    c := RuneIsScalar(s);
    assert s == s[..SpaceWidth(s)] + s[SpaceWidth(s)..];
    SpaceIff(c, s[SpaceWidth(s)..]);
  }

  /** The text with every white space character taken out. */
  function NonSpace(s: Bytes): Bytes
    decreases |s|
  {
    if s == [] then []
    else if SpaceWidth(s) > 0 then NonSpace(s[SpaceWidth(s)..])
    else [s[0]] + NonSpace(s[1..])
  }

  function TrimLeft(s: Bytes): (r: Bytes)
    ensures |r| <= |s|
    decreases |s|
  {
    if SpaceWidth(s) > 0 then TrimLeft(s[SpaceWidth(s)..]) else s
  }

  /** The width of the white space character s ends with, or 0. */
  function SpaceSuffix(s: Bytes): (w: nat)
    ensures w <= |s| && (w > 0 ==> SpaceWidth(s[|s| - w..]) == w)
  {
    if |s| >= 1 && SpaceWidth(s[|s| - 1..]) == 1 then 1
    else if |s| >= 2 && SpaceWidth(s[|s| - 2..]) == 2 then 2
    else if |s| >= 3 && SpaceWidth(s[|s| - 3..]) == 3 then 3
    else 0
  }

  function TrimRight(s: Bytes): (r: Bytes)
    ensures |r| <= |s|
    decreases |s|
  {
    if SpaceSuffix(s) > 0 then TrimRight(s[..|s| - SpaceSuffix(s)]) else s
  }

  /** strings.TrimSpace */
  function Trim(s: Bytes): (r: Bytes)
    ensures |r| <= |s|
  {
    TrimRight(TrimLeft(s))
  }

  lemma SpaceWidthConcat(a: Bytes, b: Bytes)
    requires a != [] && (b == [] || RuneStart(b[0]))
    ensures SpaceWidth(a + b) == SpaceWidth(a)
  {}

  /** Taking white space out commutes with joining, when no character straddles the seam. */
  lemma {:induction false} NonSpaceConcat(a: Bytes, b: Bytes)
    requires b == [] || RuneStart(b[0])
    ensures NonSpace(a + b) == NonSpace(a) + NonSpace(b)
    decreases |a|
  {
    if a == [] {
      assert a + b == b;
    } else {
      SpaceWidthConcat(a, b);
      hide SpaceWidth, RuneStart;
      var s, w := a + b, if SpaceWidth(a) > 0 then SpaceWidth(a) else 1;
      assert s[w..] == a[w..] + b && s[0] == a[0];
      NonSpaceConcat(a[w..], b);
      if SpaceWidth(a) == 0 {
        Assoc([a[0]], NonSpace(a[1..]), NonSpace(b));
      }
    }
  }

  lemma {:induction false} TrimLeftKeeps(s: Bytes)
    ensures NonSpace(TrimLeft(s)) == NonSpace(s)
    decreases |s|
  {
    if SpaceWidth(s) > 0 { TrimLeftKeeps(s[SpaceWidth(s)..]); }
  }

  lemma {:induction false} TrimRightKeeps(s: Bytes)
    ensures NonSpace(TrimRight(s)) == NonSpace(s)
    decreases |s|
  {
    var w := SpaceSuffix(s);
    if w > 0 {
      var front, back := s[..|s| - w], s[|s| - w..];
      assert s == front + back;
      NonSpaceConcat(front, back);
      assert back[w..] == [];
      TrimRightKeeps(front);
    }
  }

  /** Trimming loses white space only. */
  lemma TrimKeeps(s: Bytes)
    ensures NonSpace(Trim(s)) == NonSpace(s)
  {
    TrimLeftKeeps(s);
    TrimRightKeeps(TrimLeft(s));
  }

  lemma {:induction false} TrimmedLeft(s: Bytes)
    ensures SpaceWidth(TrimLeft(s)) == 0
    decreases |s|
  {
    if SpaceWidth(s) > 0 { TrimmedLeft(s[SpaceWidth(s)..]); }
  }

  lemma {:induction false} TrimRightFront(s: Bytes)
    requires SpaceWidth(s) == 0 && s != []
    ensures TrimRight(s) != [] && TrimRight(s)[0] == s[0]
    decreases |s|
  {
    var w := SpaceSuffix(s);
    if w > 0 {
      var front, back := s[..|s| - w], s[|s| - w..];
      assert s == front + back;
      assert front == [] ==> s == back;
      if front != [] {
        SpaceWidthConcat(front, back);
        TrimRightFront(front);
      }
    }
  }

  /** A line trims to nothing exactly when it holds white space only. */
  lemma BlankIffNoText(s: Bytes)
    ensures Trim(s) == [] <==> NonSpace(s) == []
  {
    TrimKeeps(s);
    TrimmedLeft(s);
    TrimLeftKeeps(s);
    if TrimLeft(s) != [] { TrimRightFront(TrimLeft(s)); }
  }

  /** The newline a line ends with is trimmed away. */
  lemma {:induction false} TrimDropsNewline(line: Bytes)
    ensures |Trim(line + [NEWLINE])| <= |line|
    decreases |line|
  {
    var s := line + [NEWLINE];
    assert s[|s| - 1..] == [NEWLINE] && s[..|s| - 1] == line;
    assert SpaceWidth([NEWLINE]) == 1;
    if line == [] {
      assert s == [NEWLINE] && s[1..] == [];
    } else {
      SpaceWidthConcat(line, [NEWLINE]);
      hide SpaceWidth;
      var w := SpaceWidth(line);
      if w > 0 {
        assert s[w..] == line[w..] + [NEWLINE];
        TrimDropsNewline(line[w..]);
        assert Trim(s) == Trim(line[w..] + [NEWLINE]);
      } else {
        assert TrimLeft(s) == s && TrimRight(s) == TrimRight(line);
      }
    }
  }

  /** Text that is white space only is valid UTF-8. */
  lemma {:induction false} NoTextIsValid(s: Bytes)
    requires NonSpace(s) == []
    ensures ValidUtf8(s)
    decreases |s|
  {
    if s != [] { NoTextIsValid(s[SpaceWidth(s)..]); }
  }

  /** A slice of blank text, cut on boundaries, is blank. */
  lemma BlankSlice(text: Bytes, lo: nat, hi: nat)
    requires NonSpace(text) == [] && lo <= hi <= |text| && Boundary(text, lo) && Boundary(text, hi)
    ensures NonSpace(text[lo..hi]) == []
  {
    hide NonSpace;
    var front := text[..hi];
    Rejoin(text, hi);
    NonSpaceConcat(front, text[hi..]);
    Rejoin(front, lo);
    assert front[lo..] == text[lo..hi];
    assert lo < hi ==> text[lo..hi][0] == text[lo];
    NonSpaceConcat(front[..lo], text[lo..hi]);
  }

  // -------- trimming what is already trimmed, or padded

  lemma {:induction false} TrimLeftShrinks(s: Bytes)
    ensures TrimLeft(s) == s <==> SpaceWidth(s) == 0
  {
    if SpaceWidth(s) > 0 { assert |TrimLeft(s[SpaceWidth(s)..])| < |s|; }
  }

  lemma {:induction false} TrimRightShrinks(s: Bytes)
    ensures TrimRight(s) == s <==> SpaceSuffix(s) == 0
  {
    if SpaceSuffix(s) > 0 { assert |TrimRight(s[..|s| - SpaceSuffix(s)])| < |s|; }
  }

  /** A trimmed text neither starts nor ends with white space. */
  lemma TrimmedEnds(s: Bytes)
    ensures Trim(s) == s <==> SpaceWidth(s) == 0 && SpaceSuffix(s) == 0
  {
    TrimLeftShrinks(s);
    TrimRightShrinks(TrimLeft(s));
  }

  lemma {:induction false} TrimmedRight(s: Bytes)
    ensures SpaceSuffix(TrimRight(s)) == 0 && TrimRight(s) <= s
    ensures |TrimRight(s)| < |s| ==> RuneStart(s[|TrimRight(s)|])
    decreases |s|
  {
    var w := SpaceSuffix(s);
    if w > 0 {
      assert s[|s| - w..][0] == s[|s| - w];
      TrimmedRight(s[..|s| - w]);
    }
  }

  lemma TrimTwice(s: Bytes)
    ensures Trim(Trim(s)) == Trim(s)
  {
    hide SpaceWidth, SpaceSuffix, TrimLeft, TrimRight;
    var u := TrimLeft(s);
    var r := TrimRight(u);
    TrimmedLeft(s);
    TrimmedRight(u);
    assert u == r + u[|r|..];
    if r == [] { assert SpaceWidth(r) == 0; }
    if r != [] { SpaceWidthConcat(r, u[|r|..]); }
    TrimmedEnds(r);
  }

  /** Trimming takes white space only, off both ends, and leaves none at either. */
  lemma TrimIs(s: Bytes) returns (front: Bytes, back: Bytes)
    ensures s == front + Trim(s) + back && NonSpace(front) == [] && NonSpace(back) == []
    ensures SpaceWidth(Trim(s)) == 0 && SpaceSuffix(Trim(s)) == 0
  {
    front := TrimLeftIs(s);
    back := TrimRightIs(TrimLeft(s));
    TrimTwice(s);
    TrimmedEnds(Trim(s));
    hide TrimLeft, TrimRight, SpaceWidth, SpaceSuffix;
    Assoc(front, Trim(s), back);
  }

  lemma {:induction false} TrimLeftIs(s: Bytes) returns (front: Bytes)
    ensures s == front + TrimLeft(s) && NonSpace(front) == []
    decreases |s|
  {
    var w := SpaceWidth(s);
    if w == 0 {
      front := [];
    } else {
      var more := TrimLeftIs(s[w..]);
      var space := s[..w];
      Rejoin(s, w);
      SpacePrefix(s);
      assert space[w..] == [] && NonSpace(space) == [];
      assert more == [] || RuneStart(more[0]) by { if more != [] { BlankStart(more); } }
      NonSpaceConcat(space, more);
      front := space + more;
      Assoc(space, more, TrimLeft(s));
    }
  }

  lemma BlankStart(s: Bytes)
    requires s != [] && NonSpace(s) == []
    ensures RuneStart(s[0])
  {}

  /** The white space at the front of s is white space by itself. */
  lemma SpacePrefix(s: Bytes)
    ensures SpaceWidth(s[..SpaceWidth(s)]) == SpaceWidth(s)
  {}

  lemma {:induction false} TrimRightIs(s: Bytes) returns (back: Bytes)
    ensures s == TrimRight(s) + back && NonSpace(back) == []
    decreases |s|
  {
    hide NonSpace, SpaceWidth, SpaceSuffix;
    var w := SpaceSuffix(s);
    if w == 0 {
      NothingBlank();
      back := [];
    } else {
      var front, space := s[..|s| - w], s[|s| - w..];
      assert TrimRight(s) == TrimRight(front);
      hide TrimRight;
      var more := TrimRightIs(front);
      Rejoin(s, |s| - w);
      AllSpace(space);
      NonSpaceConcat(more, space);
      back := more + space;
      Assoc(TrimRight(s), more, space);
    }
  }

  lemma NothingBlank()
    ensures NonSpace([]) == []
  {}

  lemma AllSpace(s: Bytes)
    requires s != [] && SpaceWidth(s) == |s|
    ensures NonSpace(s) == [] && RuneStart(s[0])
  {
    assert s[|s|..] == [];
  }

  /** Trimming yields a stretch of the text. */
  lemma {:induction false} TrimLeftWithin(s: Bytes)
    ensures forall b :: b in TrimLeft(s) ==> b in s
    decreases |s|
  {
    if SpaceWidth(s) > 0 {
      TrimLeftWithin(s[SpaceWidth(s)..]);
    }
  }

  lemma TrimWithin(s: Bytes)
    ensures forall b :: b in Trim(s) ==> b in s
  {
    TrimLeftWithin(s);
    TrimmedRight(TrimLeft(s));
  }

  /** White space at the end of a text, after anything, is the same white space. */
  lemma SuffixAfter(p: Bytes, v: Bytes)
    requires p != [] && p[|p| - 1] < 0x80 && SpaceWidth([p[|p| - 1]]) == 0
    ensures SpaceSuffix(p + v) == SpaceSuffix(v)
  {
    hide SpaceWidth;
    var s := p + v;
    SameTail(p, v, 1);
    if |s| >= 2 { SameTail(p, v, 2); }
    if |s| >= 3 { SameTail(p, v, 3); }
  }

  lemma SameTail(p: Bytes, v: Bytes, w: nat)
    requires p != [] && p[|p| - 1] < 0x80 && SpaceWidth([p[|p| - 1]]) == 0 && 1 <= w <= 3 && w <= |p + v|
    ensures w <= |v| ==> (p + v)[|p + v| - w..] == v[|v| - w..]
    ensures w > |v| ==> SpaceWidth((p + v)[|p + v| - w..]) != w
  {
    var s := p + v;
    if w > |v| { assert s[|s| - w..][w - |v| - 1] == p[|p| - 1]; }
  }

  lemma Chop(p: Bytes, v: Bytes, w: nat)
    requires w <= |v|
    ensures (p + v)[..|p + v| - w] == p + v[..|v| - w]
  {}

  lemma {:induction false} TrimRightAfter(p: Bytes, v: Bytes)
    requires p != [] && p[|p| - 1] < 0x80 && SpaceWidth([p[|p| - 1]]) == 0
    ensures TrimRight(p + v) == p + TrimRight(v)
    decreases |v|
  {
    SuffixAfter(p, v);
    hide SpaceWidth, SpaceSuffix;
    var w := SpaceSuffix(v);
    if w > 0 {
      Chop(p, v, w);
      TrimRightAfter(p, v[..|v| - w]);
      assert TrimRight(p + v) == TrimRight(p + v[..|v| - w]);
    } else {
      assert TrimRight(v) == v && TrimRight(p + v) == p + v;
    }
  }

  /** A white space character at the end never matters to Trim. */
  lemma {:induction false} TrimDropsSuffix(f: Bytes, ws: Bytes)
    requires ws != [] && SpaceWidth(ws) == |ws|
    ensures Trim(f + ws) == Trim(f)
    decreases |f|
  {
    if f == [] {
      assert f + ws == ws && ws[|ws|..] == [];
    } else {
      SpaceWidthConcat(f, ws);
      var w := SpaceWidth(f);
      if w > 0 {
        assert (f + ws)[w..] == f[w..] + ws;
        TrimDropsSuffix(f[w..], ws);
        assert Trim(f + ws) == Trim(f[w..] + ws);
      } else {
        SuffixIs(f, ws);
        assert (f + ws)[..|f|] == f;
      }
    }
  }

  lemma SuffixIs(f: Bytes, ws: Bytes)
    requires ws != [] && SpaceWidth(ws) == |ws|
    ensures SpaceSuffix(f + ws) == |ws|
  {
    var s := f + ws;
    assert s[|s| - |ws|..] == ws;
    if |ws| >= 2 { assert s[|s| - 1..] == [ws[|ws| - 1]]; }
    if |ws| == 3 { assert s[|s| - 2..] == ws[1..]; }
  }

  lemma {:induction false} TrimAfterTrimRight(v: Bytes)
    ensures Trim(TrimRight(v)) == Trim(v)
    decreases |v|
  {
    var w := SpaceSuffix(v);
    if w > 0 {
      var front, ws := v[..|v| - w], v[|v| - w..];
      assert v == front + ws;
      TrimDropsSuffix(front, ws);
      TrimAfterTrimRight(front);
    }
  }

  // -------- lines

  function FirstNewline(s: Bytes, i: nat): (j: nat)
    requires i <= |s|
    ensures i <= j <= |s| && (j < |s| ==> s[j] == NEWLINE) && forall k :: i <= k < j ==> s[k] != NEWLINE
    decreases |s| - i
  {
    if i < |s| && s[i] != NEWLINE then FirstNewline(s, i + 1) else i
  }

  /** strings.Split(content, "\n") */
  function SplitLines(s: Bytes): (lines: seq<Bytes>)
    ensures |lines| > 0
    decreases |s|
  {
    var j := FirstNewline(s, 0);
    if j < |s| then [s[..j]] + SplitLines(s[j + 1..]) else [s]
  }

  /** Lines lo to hi with a newline between them. */
  function Join(lines: seq<Bytes>): Bytes {
    if lines == [] then []
    else if |lines| == 1 then lines[0]
    else lines[0] + [NEWLINE] + Join(lines[1..])
  }

  lemma {:induction false} SplitJoin(s: Bytes)
    ensures Join(SplitLines(s)) == s
    decreases |s|
  {
    var j := FirstNewline(s, 0);
    if j < |s| {
      SplitJoin(s[j + 1..]);
      assert s == s[..j] + [NEWLINE] + s[j + 1..];
      assert SplitLines(s)[1..] == SplitLines(s[j + 1..]);
    }
  }

  lemma {:induction false} FirstNewlineAfter(line: Bytes, rest: Bytes, i: nat)
    requires NEWLINE !in line && i <= |line|
    ensures FirstNewline(line + ([NEWLINE] + rest), i) == |line|
    decreases |line| - i
  {
    if i < |line| {
      assert (line + ([NEWLINE] + rest))[i] == line[i] && line[i] in line;
      FirstNewlineAfter(line, rest, i + 1);
    }
  }

  lemma SplitFirst(line: Bytes, rest: Bytes)
    requires NEWLINE !in line
    ensures SplitLines(line + ([NEWLINE] + rest)) == [line] + SplitLines(rest)
  {
    FirstNewlineAfter(line, rest, 0);
    var s := line + ([NEWLINE] + rest);
    assert s[..|line|] == line && s[|line| + 1..] == rest;
  }

  lemma {:induction false} SplitHasNoNewline(s: Bytes)
    ensures forall i :: 0 <= i < |SplitLines(s)| ==> NEWLINE !in SplitLines(s)[i]
    decreases |s|
  {
    var j := FirstNewline(s, 0);
    if j < |s| { SplitHasNoNewline(s[j + 1..]); }
  }
}
