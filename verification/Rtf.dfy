/** The RTF scanner (internal/extract/formats.go). A string here is a byte string:
    each char stands for one byte. normalizeText, applied to the result, is left out. */
module Rtf {
  import opened Basics

  function IsLetter(b: char): bool {
    'a' <= b <= 'z' || 'A' <= b <= 'Z'
  }

  function IsParam(b: char): bool {
    b == '-' || '0' <= b <= '9'
  }

  // -------- \'hh: two characters through ParseInt(_, 16, 32) and WriteRune

  function HexDigit(b: char): int {
    if '0' <= b <= '9' then b as int - '0' as int
    else if 'a' <= b <= 'f' then b as int - 'a' as int + 10
    else if 'A' <= b <= 'F' then b as int - 'A' as int + 10
    else -1
  }

  /** The UTF-8 bytes of a Latin-1 rune; a negative rune becomes U+FFFD. */
  function RuneBytes(v: int): string
    requires v < 256
  {
    if v < 0 then [0xEF as char, 0xBF as char, 0xBD as char]
    else if v < 0x80 then [v as char]
    else [(0xC0 + v / 64) as char, (0x80 + v % 64) as char]
  }

  /** ParseInt takes a sign in the first place; anything else unparsable emits nothing. */
  function HexText(h1: char, h2: char): string {
    var lo := HexDigit(h2);
    if lo < 0 then ""
    else if h1 == '+' then RuneBytes(lo)
    else if h1 == '-' then RuneBytes(-lo)
    else if HexDigit(h1) < 0 then ""
    else RuneBytes(16 * HexDigit(h1) + lo)
  }

  // -------- the same escape, from the digits' names and the decoder's side

  const LOWER := "0123456789abcdef"
  const UPPER := "0123456789ABCDEF"

  lemma LetterIff(b: char)
    ensures IsLetter(b) <==> b in "abcdefghijklmnopqrstuvwxyz" || b in "ABCDEFGHIJKLMNOPQRSTUVWXYZ"
    ensures IsParam(b) <==> b in "-0123456789"
  {}

  /** h is a digit of value d, in either case. */
  predicate Names(h: char, d: int) {
    0 <= d < 16 && (h == LOWER[d] || h == UPPER[d])
  }

  /** t is the UTF-8 form (section 3 of RFC 3629) of code point v, which is below 256. */
  predicate Encodes(t: string, v: int) {
    || (|t| == 1 && t[0] as int == v < 0x80)
    || (|t| == 2 && 0xC2 <= t[0] as int <= 0xC3 && 0x80 <= t[1] as int <= 0xBF &&
        (t[0] as int - 0xC0) * 64 + (t[1] as int - 0x80) == v)
  }

  lemma DigitIff(h: char, d: int)
    ensures Names(h, d) <==> HexDigit(h) == d && d >= 0
  {
    DigitOf(h);
    if 0 <= d < 16 { DigitAt(d); }
    hide HexDigit;
  }

  lemma DigitAt(d: int)
    requires 0 <= d < 16
    ensures HexDigit(LOWER[d]) == HexDigit(UPPER[d]) == d
  {}

  lemma SignIsNoDigit()
    ensures HexDigit('+') < 0 && HexDigit('-') < 0
  {}

  lemma DigitOf(h: char)
    ensures HexDigit(h) < 16 && (HexDigit(h) >= 0 ==> h in {LOWER[HexDigit(h)], UPPER[HexDigit(h)]})
  {}

  /** \'hh stands for the Latin-1 character its two digits number. */
  lemma HexIsByte(h1: char, h2: char, v: int)
    requires 0 <= v < 256 && Names(h1, v / 16) && Names(h2, v % 16)
    ensures Encodes(HexText(h1, h2), v)
  {
    DigitIff(h1, v / 16);
    DigitIff(h2, v % 16);
    SignIsNoDigit();
    hide Names, HexDigit;
  }

  /** A sign may stand for the first digit; below zero there is only U+FFFD. */
  lemma HexIsSigned(h2: char, d: int)
    requires Names(h2, d)
    ensures Encodes(HexText('+', h2), d)
    ensures d == 0 ==> Encodes(HexText('-', h2), 0)
    ensures d > 0 ==> HexText('-', h2) == [0xEF as char, 0xBF as char, 0xBD as char]
  {
    DigitIff(h2, d);
  }

  /** Nothing is written exactly when the two bytes are not a number. */
  lemma HexIsNothingIff(h1: char, h2: char)
    ensures HexText(h1, h2) == "" <==> h2 !in LOWER + UPPER || h1 !in LOWER + UPPER + "+-"
  {
    DigitMember(h1);
    DigitMember(h2);
    hide HexDigit, LOWER, UPPER;
  }

  lemma DigitMember(h: char)
    ensures HexDigit(h) >= 0 <==> h in LOWER + UPPER
  {
    var d := HexDigit(h);
    DigitOf(h);
    assert (LOWER + UPPER)[..16] == LOWER && (LOWER + UPPER)[16..] == UPPER;
    if d >= 0 {
      assert h in LOWER || h in UPPER;
    }
    if k :| 0 <= k < |LOWER + UPPER| && (LOWER + UPPER)[k] == h {
      DigitAt(k % 16);
    }
  }

  // -------- control words

  function IsDestination(word: string): bool {
    word in {"fonttbl", "colortbl", "stylesheet", "info", "pict", "header", "footer"}
  }

  function WordText(word: string): string {
    if word in {"par", "line", "sect", "page", "row"} then "\n"
    else if word in {"tab", "cell"} then "\t"
    else ""
  }

  /** The letters t starts with, and what follows them. */
  function Letters(t: string): (r: (string, string))
    ensures r.0 + r.1 == t
  {
    if t != "" && IsLetter(t[0]) then
      var (word, left) := Letters(t[1..]);
      ([t[0]] + word, left)
    else ("", t)
  }

  function Params(t: string): (r: (string, string))
    ensures r.0 + r.1 == t
  {
    if t != "" && IsParam(t[0]) then
      var (param, left) := Params(t[1..]);
      ([t[0]] + param, left)
    else ("", t)
  }

  /** One delimiting space is part of the control word. */
  function SkipSpace(t: string): (r: string)
    ensures |r| <= |t|
  {
    if t != "" && t[0] == ' ' then t[1..] else t
  }

  // -------- the scanner as a function of the bytes left to read

  datatype State = State(depth: int, skipTo: int, out: string)

  function Emit(c: State, text: string): State {
    if c.skipTo < 0 then c.(out := c.out + text) else c
  }

  predicate IsSpecial(t: string) {
    (|t| > 1 && t[1] in {'\\', '{', '}', '*'}) || (|t| > 3 && t[1] == '\'')
  }

  /** A backslash escape: the bytes after it, and the state after it. */
  function Escape(t: string, c: State): (r: (string, State))
    requires t != ""
    ensures |r.0| < |t|
  {
    if |t| > 1 && t[1] in {'\\', '{', '}'} then (t[2..], Emit(c, [t[1]]))
    else if |t| > 1 && t[1] == '*' then (t[2..], if c.skipTo < 0 then c.(skipTo := c.depth) else c)
    else if |t| > 3 && t[1] == '\'' then (t[4..], Emit(c, HexText(t[2], t[3])))
    else
      var (word, v) := Letters(t[1..]);
      (SkipSpace(Params(v).1), Apply(word, c))
  }

  function Apply(word: string, c: State): State {
    if c.skipTo < 0 && IsDestination(word) then c.(skipTo := c.depth) else Emit(c, WordText(word))
  }

  function Close(c: State): State {
    c.(depth := c.depth - 1, skipTo := if c.skipTo >= 0 && c.depth == c.skipTo then -1 else c.skipTo)
  }

  /** One turn of the scan loop; it always advances. */
  function Turn(t: string, c: State): (r: (string, State))
    requires t != ""
    ensures |r.0| < |t|
  {
    match t[0]
    case '{' => (t[1..], c.(depth := c.depth + 1))
    case '}' => (t[1..], Close(c))
    case '\\' => Escape(t, c)
    case b => (t[1..], if b == '\r' || b == '\n' then c else Emit(c, [b]))
  }

  function Run(t: string, c: State): State
    decreases |t|
  {
    if t == "" then c else Run(Turn(t, c).0, Turn(t, c).1)
  }

  // -------- the scanner as the source writes it

  lemma LettersStep(taken: string, u: string)
    ensures u != "" && IsLetter(u[0]) ==>
      taken + Letters(u).0 == (taken + [u[0]]) + Letters(u[1..]).0 && Letters(u).1 == Letters(u[1..]).1
    ensures !(u != "" && IsLetter(u[0])) ==> taken + Letters(u).0 == taken && Letters(u).1 == u
  {
    if u != "" && IsLetter(u[0]) {
      var rest := Letters(u[1..]);
      assert Letters(u) == ([u[0]] + rest.0, rest.1);
      hide *;
      Assoc(taken, [u[0]], rest.0);
    } else {
      assert Letters(u) == ("", u);
      hide *;
      assert taken + "" == taken;
    }
  }

  lemma ParamsStep(u: string)
    ensures u != "" && IsParam(u[0]) ==> Params(u).1 == Params(u[1..]).1
    ensures !(u != "" && IsParam(u[0])) ==> Params(u).1 == u
  {}

  method ControlWord(s: string, start: nat) returns (word: string, i: nat)
    requires start <= |s|
    ensures i <= |s|
    ensures
      var (w, v) := Letters(s[start..]);
      word == w && s[i..] == SkipSpace(Params(v).1)
  {
    hide Letters, Params, SkipSpace, IsLetter;
    i := start;
    ghost var t, taken, u := s[start..], "", s[start..];
    assert taken + Letters(u).0 == Letters(u).0;
    while i < |s| && IsLetter(s[i])
      invariant start <= i <= |s| && taken == s[start..i] && u == s[i..]
      invariant Letters(t).0 == taken + Letters(u).0 && Letters(t).1 == Letters(u).1
    {
      LettersStep(taken, u);
      assert s[start..i + 1] == s[start..i] + [s[i]] && s[i..][1..] == s[i + 1..];
      taken, u := taken + [s[i]], u[1..];
      i := i + 1;
    }
    LettersStep(taken, u);
    word := s[start..i];
    i := SkipParam(s, i);
  }

  /** The numeric parameter and the one delimiting space. */
  method SkipParam(s: string, start: nat) returns (i: nat)
    requires start <= |s|
    ensures i <= |s| && s[i..] == SkipSpace(Params(s[start..]).1)
  {
    hide Params;
    i := start;
    ghost var v, u := s[start..], s[start..];
    while i < |s| && IsParam(s[i])
      invariant i <= |s| && u == s[i..] && Params(v).1 == Params(u).1
    {
      ParamsStep(u);
      u := u[1..];
      i := i + 1;
    }
    ParamsStep(u);
    if i < |s| && s[i] == ' ' {
      i := i + 1;
    }
  }

  class Parser {
    const s: string
    var b: string
    var skipTo: int
    var depth: int
    var i: nat

    constructor (data: string)
      ensures s == data && i == 0 && View() == State(0, -1, "")
    {
      s := data;
      b, skipTo, depth, i := "", -1, 0, 0;
    }

    ghost function View(): State
      reads this
    {
      State(depth, skipTo, b)
    }

    /** The fields stand where a spec step leaves them. */
    ghost predicate At(step: (string, State))
      reads this
    {
      i <= |s| && s[i..] == step.0 && View() == step.1
    }

    method Parse()
      requires i <= |s|
      modifies this
      ensures View() == Run(old(s[i..]), old(View())) && i == |s|
    {
      while i < |s|
        invariant i <= |s| && Run(s[i..], View()) == Run(old(s[i..]), old(View()))
        decreases |s[i..]|
      {
        ghost var t, before := s[i..], View();
        assert t[0] == s[i] && t[1..] == s[i + 1..];
        var c := s[i];
        if c == '{' {
          depth := depth + 1;
          i := i + 1;
        } else if c == '}' {
          CloseGroup();
        } else if c == '\\' {
          HandleEscape();
        } else if c == '\r' || c == '\n' {
          i := i + 1;
        } else {
          if skipTo < 0 { b := b + [c]; }
          i := i + 1;
        }
        assert At(Turn(t, before));
      }
    }

    method CloseGroup()
      requires i < |s|
      modifies this
      ensures At((s[old(i) + 1..], Close(old(View()))))
    {
      if skipTo >= 0 && depth == skipTo {
        skipTo := -1;
      }
      depth := depth - 1;
      i := i + 1;
    }

    method HandleEscape()
      requires i < |s|
      modifies this
      ensures At(Escape(s[old(i)..], old(View())))
    {
      hide Letters, Params, SkipSpace, HexText, WordText, IsDestination;
      var done := TryLiteralEscape();
      if done { return; }
      done := TryIgnorableDest();
      if done { return; }
      done := TryHexEscape();
      if done { return; }
      var word, next := ControlWord(s, i + 1);
      assert s[i..][1..] == s[i + 1..];
      i := next;
      if skipTo < 0 {
        ApplyControlWord(word);
      }
    }

    method TryLiteralEscape() returns (done: bool)
      requires i < |s|
      modifies this
      ensures done == (old(i) + 1 < |s| && s[old(i) + 1] in {'\\', '{', '}'})
      ensures At(if done then Escape(s[old(i)..], old(View())) else (s[old(i)..], old(View()))) && (!done ==> i == old(i))
    {
      if i + 1 >= |s| { return false; }
      if s[i + 1] in {'\\', '{', '}'} {
        if skipTo < 0 { b := b + [s[i + 1]]; }
        assert s[i..][2..] == s[i + 2..];
        i := i + 2;
        return true;
      }
      return false;
    }

    method TryIgnorableDest() returns (done: bool)
      requires i < |s| && !(i + 1 < |s| && s[i + 1] in {'\\', '{', '}'})
      modifies this
      ensures done == (old(i) + 1 < |s| && s[old(i) + 1] == '*')
      ensures At(if done then Escape(s[old(i)..], old(View())) else (s[old(i)..], old(View()))) && (!done ==> i == old(i))
    {
      if i + 1 < |s| && s[i + 1] == '*' {
        if skipTo < 0 { skipTo := depth; }
        assert s[i..][2..] == s[i + 2..];
        i := i + 2;
        return true;
      }
      return false;
    }

    method TryHexEscape() returns (done: bool)
      requires i < |s| && !(i + 1 < |s| && s[i + 1] in {'\\', '{', '}', '*'})
      modifies this
      ensures done == (old(i) + 3 < |s| && s[old(i) + 1] == '\'')
      ensures At(if done then Escape(s[old(i)..], old(View())) else (s[old(i)..], old(View()))) && (!done ==> i == old(i))
    {
      if i + 3 < |s| && s[i + 1] == '\'' {
        if skipTo < 0 { b := b + HexText(s[i + 2], s[i + 3]); }
        assert s[i..][4..] == s[i + 4..];
        i := i + 4;
        return true;
      }
      return false;
    }

    method ApplyControlWord(word: string)
      requires i <= |s| && skipTo < 0
      modifies this
      ensures At((s[old(i)..], Apply(word, old(View()))))
    {
      if word in {"par", "line", "sect", "page", "row"} {
        b := b + "\n";
      } else if word in {"tab", "cell"} {
        b := b + "\t";
      } else if IsDestination(word) {
        skipTo := depth;
      }
    }
  }

  // -------- the reference: documents as trees

  datatype Doc =
    | End
    | Byte(b: char, rest: Doc)
    | Break(b: char, rest: Doc)
    | Literal(b: char, rest: Doc)
    | Star(rest: Doc)
    | Hex(h1: char, h2: char, rest: Doc)
    | Word(word: string, param: string, space: bool, rest: Doc)
    | Group(body: Doc, rest: Doc)

  function Print(d: Doc): string {
    match d
    case End => ""
    case Byte(b, rest) => [b] + Print(rest)
    case Break(b, rest) => [b] + Print(rest)
    case Literal(b, rest) => ['\\', b] + Print(rest)
    case Star(rest) => "\\*" + Print(rest)
    case Hex(h1, h2, rest) => ['\\', '\'', h1, h2] + Print(rest)
    case Word(word, param, space, rest) => "\\" + (word + (param + ((if space then " " else "") + Print(rest))))
    case Group(body, rest) => "{" + (Print(body) + ("}" + Print(rest)))
  }

  /** What the tree says: a destination word or \* drops the rest of its own group, and only that. */
  function Eval(d: Doc): string {
    match d
    case End => ""
    case Byte(b, rest) => [b] + Eval(rest)
    case Break(_, rest) => Eval(rest)
    case Literal(b, rest) => [b] + Eval(rest)
    case Star(_) => ""
    case Hex(h1, h2, rest) => HexText(h1, h2) + Eval(rest)
    case Word(word, _, _, rest) => if IsDestination(word) then "" else WordText(word) + Eval(rest)
    case Group(body, rest) => Eval(body) + Eval(rest)
  }

  /** The tree is the one its printed form delimits, with `after` following it. */
  ghost predicate WellFormed(d: Doc, after: string) {
    match d
    case End => true
    case Byte(b, rest) => b !in {'{', '}', '\\', '\r', '\n'} && WellFormed(rest, after)
    case Break(b, rest) => b in {'\r', '\n'} && WellFormed(rest, after)
    case Literal(b, rest) => b in {'\\', '{', '}'} && WellFormed(rest, after)
    case Star(rest) => WellFormed(rest, after)
    case Hex(_, _, rest) => WellFormed(rest, after)
    case Word(word, param, space, rest) => Delimited(word, param, space, Print(rest) + after) && WellFormed(rest, after)
    case Group(body, rest) => WellFormed(body, "}" + (Print(rest) + after)) && WellFormed(rest, after)
  }

  /** A control word's letters, parameter and delimiter end where they are said to. */
  ghost predicate Delimited(word: string, param: string, space: bool, next: string) {
    && (forall k :: 0 <= k < |word| ==> IsLetter(word[k]))
    && (forall k :: 0 <= k < |param| ==> IsParam(param[k]))
    && (!space && next != "" ==>
          && next[0] != ' ' && !IsParam(next[0])
          && (param == "" ==> !IsLetter(next[0]))
          && (param == "" && word == "" ==>
                next[0] !in {'\\', '{', '}', '*'} && (next[0] == '\'' ==> |next| < 3)))
  }

  // -------- the scanner agrees with the tree

  /** Does the list, at its own level, end in dropping? */
  function Drops(d: Doc): bool {
    match d
    case End => false
    case Star(_) => true
    case Word(word, _, _, rest) => IsDestination(word) || Drops(rest)
    case Byte(_, rest) => Drops(rest)
    case Break(_, rest) => Drops(rest)
    case Literal(_, rest) => Drops(rest)
    case Hex(_, _, rest) => Drops(rest)
    case Group(_, rest) => Drops(rest)
  }

  /** The state of the scanner once it has read d. */
  function After(d: Doc, c: State): State {
    if c.skipTo >= 0 then c
    else State(c.depth, if Drops(d) then c.depth else c.skipTo, c.out + Eval(d))
  }

  lemma {:induction false} LettersOf(word: string, next: string)
    requires forall k :: 0 <= k < |word| ==> IsLetter(word[k])
    requires next != "" ==> !IsLetter(next[0])
    ensures Letters(word + next) == (word, next)
  {
    if word == "" {
      assert word + next == next;
    } else {
      assert (word + next)[1..] == word[1..] + next && [word[0]] + word[1..] == word;
      LettersOf(word[1..], next);
    }
  }

  lemma {:induction false} ParamsOf(param: string, next: string)
    requires forall k :: 0 <= k < |param| ==> IsParam(param[k])
    requires next != "" ==> !IsParam(next[0])
    ensures Params(param + next) == (param, next)
  {
    if param == "" {
      assert param + next == next;
    } else {
      assert (param + next)[1..] == param[1..] + next && [param[0]] + param[1..] == param;
      ParamsOf(param[1..], next);
    }
  }

  /** A delimited control word cannot be mistaken for one of the other escapes. */
  lemma NotAnotherEscape(word: string, param: string, sp: string, next: string)
    requires Delimited(word, param, sp == " ", next) && sp in {"", " "}
    ensures !IsSpecial("\\" + (word + (param + (sp + next))))
  {
    var t := "\\" + (word + (param + (sp + next)));
    if word != "" { assert t[1] == word[0]; }
    else if param != "" { assert t[1] == param[0]; }
    else if sp != "" { assert t[1] == ' '; }
    else if next != "" { assert t[1] == next[0]; }
  }

  lemma PlainEscape(t: string, u: string, c: State)
    requires t != "" && t[1..] == u && !IsSpecial(t)
    ensures Escape(t, c) == (SkipSpace(Params(Letters(u).1).1), Apply(Letters(u).0, c))
  {}

  /** Reading a printed control word consumes exactly its bytes. */
  lemma ReadWord(word: string, param: string, space: bool, next: string, c: State)
    requires Delimited(word, param, space, next)
    ensures
      var sp := if space then " " else "";
      Escape("\\" + (word + (param + (sp + next))), c) == (next, Apply(word, c))
  {
    var sp := if space then " " else "";
    NotAnotherEscape(word, param, sp, next);
    LettersOf(word, param + (sp + next));
    ParamsOf(param, sp + next);
    assert SkipSpace(sp + next) == next by { assert space ==> (sp + next)[1..] == next; assert "" + next == next; }
    hide Escape, Apply, Delimited, Letters, Params, SkipSpace, IsSpecial;
    var u := word + (param + (sp + next));
    assert ("\\" + u)[1..] == u;
    PlainEscape("\\" + u, u, c);
  }

  lemma ReadHex(t: string, c: State)
    requires |t| > 3 && t[1] == '\''
    ensures Escape(t, c) == (t[4..], Emit(c, HexText(t[2], t[3])))
  {}

  lemma ReadPair(t: string, c: State)
    requires |t| > 1
    ensures t[1] in {'\\', '{', '}'} ==> Escape(t, c) == (t[2..], Emit(c, [t[1]]))
    ensures t[1] == '*' ==> Escape(t, c) == (t[2..], if c.skipTo < 0 then c.(skipTo := c.depth) else c)
  {}

  /** The state after the first element of a list that starts with no group. */
  function Head(d: Doc, c: State): State
    requires !d.End? && !d.Group?
  {
    match d
    case Byte(b, _) => Emit(c, [b])
    case Break(_, _) => c
    case Literal(b, _) => Emit(c, [b])
    case Star(_) => if c.skipTo < 0 then c.(skipTo := c.depth) else c
    case Hex(h1, h2, _) => Emit(c, HexText(h1, h2))
    case Word(word, _, _, _) => Apply(word, c)
  }

  lemma RunTurn(t: string, c: State, rest: string, c': State)
    requires t != "" && Turn(t, c) == (rest, c')
    ensures Run(t, c) == Run(rest, c')
  {}

  lemma ReadByte(d: Doc, c: State, after: string)
    requires (d.Byte? || d.Break?) && WellFormed(d, after)
    ensures Run(Print(d) + after, c) == Run(Print(d.rest) + after, Head(d, c))
  {
    var t := Print(d) + after;
    assert t[0] == d.b && t[1..] == Print(d.rest) + after;
    RunTurn(t, c, Print(d.rest) + after, Head(d, c));
  }

  lemma ReadEscape(d: Doc, c: State, after: string)
    requires (d.Literal? || d.Star? || d.Hex?) && WellFormed(d, after)
    ensures Run(Print(d) + after, c) == Run(Print(d.rest) + after, Head(d, c))
  {
    var t := Print(d) + after;
    assert t[0] == '\\' && Turn(t, c) == Escape(t, c);
    if d.Hex? {
      assert t[1] == '\'' && t[2] == d.h1 && t[3] == d.h2;
      ReadHex(t, c);
      assert t[4..] == Print(d.rest) + after;
      RunTurn(t, c, Print(d.rest) + after, Head(d, c));
    } else {
      assert t[1] == if d.Literal? then d.b else '*';
      ReadPair(t, c);
      assert t[2..] == Print(d.rest) + after;
      RunTurn(t, c, Print(d.rest) + after, Head(d, c));
    }
  }

  lemma ReadControlWord(d: Doc, c: State, after: string)
    requires d.Word? && WellFormed(d, after)
    ensures Run(Print(d) + after, c) == Run(Print(d.rest) + after, Head(d, c))
  {
    hide Escape, Run, Delimited, Apply;
    var next := Print(d.rest) + after;
    var sp := if d.space then " " else "";
    var t := "\\" + (d.word + (d.param + (sp + next)));
    assert Print(d) + after == t;
    ReadWord(d.word, d.param, d.space, next, c);
    assert t[0] == '\\' && Turn(t, c) == Escape(t, c);
    RunTurn(t, c, next, Head(d, c));
  }

  lemma HeadThenRest(d: Doc, c: State)
    requires !d.End? && !d.Group? && c.depth >= 0
    ensures After(d.rest, Head(d, c)) == After(d, c)
    ensures Head(d, c).depth == c.depth && (-1 <= c.skipTo <= c.depth ==> -1 <= Head(d, c).skipTo <= c.depth)
  {
    assert c.out + "" == c.out;
    match d
    case Byte(b, rest) => assert c.out + [b] + Eval(rest) == c.out + ([b] + Eval(rest));
    case Literal(b, rest) => assert c.out + [b] + Eval(rest) == c.out + ([b] + Eval(rest));
    case Hex(h1, h2, rest) => assert c.out + HexText(h1, h2) + Eval(rest) == c.out + (HexText(h1, h2) + Eval(rest));
    case Word(word, _, _, rest) => assert c.out + WordText(word) + Eval(rest) == c.out + (WordText(word) + Eval(rest));
    case _ =>
  }

  lemma ReadBrace(next: string, c: State)
    ensures Run("{" + next, c) == Run(next, c.(depth := c.depth + 1))
    ensures Run("}" + next, c) == Run(next, Close(c))
  {
    var open, close := "{" + next, "}" + next;
    assert open[1..] == next && close[1..] == next;
    RunTurn(open, c, next, c.(depth := c.depth + 1));
    RunTurn(close, c, next, Close(c));
  }

  lemma GroupThenRest(d: Doc, c: State)
    requires d.Group? && c.depth >= 0 && -1 <= c.skipTo <= c.depth
    ensures After(d.rest, Close(After(d.body, c.(depth := c.depth + 1)))) == After(d, c)
  {
    assert c.out + Eval(d.body) + Eval(d.rest) == c.out + (Eval(d.body) + Eval(d.rest));
  }

  lemma {:induction false} Sync(d: Doc, c: State, after: string)
    requires WellFormed(d, after) && c.depth >= 0 && -1 <= c.skipTo <= c.depth
    ensures Run(Print(d) + after, c) == Run(after, After(d, c))
    decreases d
  {
    match d
    case End =>
      assert Print(d) + after == after && c.out + "" == c.out;
    case Group(body, rest) =>
      var t := Print(rest) + after;
      var c1 := c.(depth := c.depth + 1);
      assert Print(d) + after == "{" + (Print(body) + ("}" + t));
      hide Run, Print, Turn;
      ReadBrace(Print(body) + ("}" + t), c);
      Sync(body, c1, "}" + t);
      ReadBrace(t, After(body, c1));
      Sync(rest, Close(After(body, c1)), after);
      GroupThenRest(d, c);
    case _ =>
      if d.Word? { ReadControlWord(d, c, after); }
      else if d.Byte? || d.Break? { ReadByte(d, c, after); }
      else { ReadEscape(d, c, after); }
      HeadThenRest(d, c);
      hide Run, Print, After, Head;
      Sync(d.rest, Head(d, c), after);
  }

  /** For every printed document the scanner emits what the tree says. */
  lemma ScanIsEval(d: Doc)
    requires WellFormed(d, "")
    ensures Run(Print(d), State(0, -1, "")).out == Eval(d)
    ensures Run(Print(d), State(0, -1, "")).depth == 0
  {
    assert Print(d) + "" == Print(d) && "" + Eval(d) == Eval(d);
    Sync(d, State(0, -1, ""), "");
  }

  // -------- what each piece of a document stands for, wherever it is met

  /** A numbered character, in any state and before any text: its UTF-8 form is written, or dropped. */
  lemma ScanHex(h1: char, h2: char, v: int, t: string, c: State) returns (text: string)
    requires 0 <= v < 256 && Names(h1, v / 16) && Names(h2, v % 16)
    ensures Encodes(text, v)
    ensures Run("\\'" + ([h1, h2] + t), c) == Run(t, if c.skipTo < 0 then c.(out := c.out + text) else c)
  {
    HexIsByte(h1, h2, v);
    hide HexText, Names, Encodes, Run, Escape;
    text := HexText(h1, h2);
    var u := "\\'" + ([h1, h2] + t);
    assert u[0] == '\\' && u[1] == '\'' && u[2] == h1 && u[3] == h2;
    assert Turn(u, c) == Escape(u, c);
    ReadHex(u, c);
    assert u[4..] == t;
    RunTurn(u, c, t, Emit(c, text));
  }

  /** A control word with its parameter and space: a break, a tab, the start of a dropped destination, or nothing. */
  lemma ScanWord(word: string, param: string, t: string, c: State)
    requires forall k :: 0 <= k < |word| ==> IsLetter(word[k])
    requires forall k :: 0 <= k < |param| ==> IsParam(param[k])
    requires c.skipTo < 0
    ensures Run("\\" + (word + (param + (" " + t))), c) == Run(t, Apply(word, c))
    ensures word in {"par", "line", "sect", "page", "row"} ==> Apply(word, c) == c.(out := c.out + "\n")
    ensures word in {"tab", "cell"} ==> Apply(word, c) == c.(out := c.out + "\t")
    ensures word in {"fonttbl", "colortbl", "stylesheet", "info", "pict", "header", "footer"} ==> Apply(word, c) == c.(skipTo := c.depth)
    ensures (word !in {"par", "line", "sect", "page", "row", "tab", "cell",
                       "fonttbl", "colortbl", "stylesheet", "info", "pict", "header", "footer"}) ==> Apply(word, c) == c
  {
    WordRun(word, param, t, c);
    Applied(word, c);
    hide *;
  }

  lemma WordRun(word: string, param: string, t: string, c: State)
    requires forall k :: 0 <= k < |word| ==> IsLetter(word[k])
    requires forall k :: 0 <= k < |param| ==> IsParam(param[k])
    ensures Run("\\" + (word + (param + (" " + t))), c) == Run(t, Apply(word, c))
  {
    var u := word + (param + (" " + t));
    ReadWord(word, param, true, t, c);
    hide Run, Escape, Apply, IsLetter, IsParam;
    assert Turn("\\" + u, c) == Escape("\\" + u, c);
    RunTurn("\\" + u, c, t, Apply(word, c));
  }

  lemma Applied(word: string, c: State)
    requires c.skipTo < 0
    ensures word in {"par", "line", "sect", "page", "row"} ==> Apply(word, c) == c.(out := c.out + "\n")
    ensures word in {"tab", "cell"} ==> Apply(word, c) == c.(out := c.out + "\t")
    ensures word in {"fonttbl", "colortbl", "stylesheet", "info", "pict", "header", "footer"} ==> Apply(word, c) == c.(skipTo := c.depth)
    ensures (word !in {"par", "line", "sect", "page", "row", "tab", "cell",
                       "fonttbl", "colortbl", "stylesheet", "info", "pict", "header", "footer"}) ==> Apply(word, c) == c
  {
    assert c.out + "" == c.out;
    if word in {"par", "line", "sect", "page", "row", "tab", "cell"} { NotDestinations(word); }
  }

  lemma NotDestinations(word: string)
    requires word in {"par", "line", "sect", "page", "row", "tab", "cell"}
    ensures !IsDestination(word)
  {
    assert word[0] in {'l', 'r', 't'} || (word[0] == 's' && |word| == 4) || (word[0] == 'p' && word[1] == 'a') || (word[0] == 'c' && |word| == 4);
  }

  /** Text without markup is itself, but for its line ends. */
  lemma {:induction false} ScanPlain(a: string, t: string, c: State)
    requires forall k :: 0 <= k < |a| ==> a[k] !in "{}\\\r\n"
    ensures Run(a + t, c) == Run(t, if c.skipTo < 0 then c.(out := c.out + a) else c)
    decreases |a|
  {
    hide Run;
    if a == "" {
      assert a + t == t && c.out + a == c.out;
    } else {
      ScanByte(a[0], a[1..] + t, c);
      assert a + t == [a[0]] + (a[1..] + t);
      ScanPlain(a[1..], t, Emit(c, [a[0]]));
      assert (c.out + [a[0]]) + a[1..] == c.out + a;
    }
  }

  lemma ScanByte(b: char, t: string, c: State)
    requires b !in "{}\\\r\n"
    ensures Run([b] + t, c) == Run(t, Emit(c, [b]))
  {
    var u := [b] + t;
    assert u[0] == b && u[1..] == t;
    RunTurn(u, c, t, Emit(c, [b]));
  }

  /** {\rtf1 caf\'e9} reads as caf and U+00E9. */
  lemma Cafe()
    ensures
      var out := Run("{\\rtf1 caf\\'e9}", State(0, -1, "")).out;
      |out| == 5 && out[..3] == "caf" && Encodes(out[3..], 0xE9)
  {
    var c, c1, c2 := State(0, -1, ""), State(1, -1, ""), State(1, -1, "caf");
    var t1 := "\\'" + ("e9" + "}");
    CafeParts();
    hide Run;
    ReadBrace("\\" + ("rtf" + ("1" + (" " + ("caf" + t1)))), c);
    ScanWord("rtf", "1", "caf" + t1, c1);
    ScanPlain("caf", t1, c1);
    var text := ScanHex('e', '9', 0xE9, "}", c2);
    var c3 := c2.(out := "caf" + text);
    ReadBrace("", c3);
    AtEnd(Close(c3));
  }

  lemma CafeParts()
    ensures "{\\rtf1 caf\\'e9}" == "{" + ("\\" + ("rtf" + ("1" + (" " + ("caf" + ("\\'" + ("e9" + "}")))))))
    ensures "}" + "" == "}" && "" + "caf" == "caf" && ['e', '9'] == "e9"
  {}

  lemma AtEnd(c: State)
    ensures Run("", c) == c
  {}

  // -------- every balanced input is a printed document

  datatype Reading = Unclosed | Read(doc: Doc, left: string)

  /** A recursive-descent reader: one list, up to the end or an unmatched brace. */
  function ReadDoc(t: string): (r: Reading)
    ensures r.Read? ==> |r.left| <= |t| && (r.left == "" || r.left[0] == '}')
    decreases |t|
  {
    if t == "" || t[0] == '}' then Read(End, t)
    else if t[0] == '{' then
      match ReadDoc(t[1..])
      case Unclosed => Unclosed
      case Read(body, left) =>
        if left == "" then Unclosed
        else
          match ReadDoc(left[1..])
          case Unclosed => Unclosed
          case Read(rest, left') => Read(Group(body, rest), left')
    else
      match ReadDoc(Turn(t, State(0, -1, "")).0)
      case Unclosed => Unclosed
      case Read(rest, left) => Read(Element(t, rest), left)
  }

  /** The element at the front of t, followed by rest. */
  function Element(t: string, rest: Doc): Doc
    requires t != ""
  {
    if t[0] == '\r' || t[0] == '\n' then Break(t[0], rest)
    else if t[0] != '\\' then Byte(t[0], rest)
    else if |t| > 1 && t[1] in {'\\', '{', '}'} then Literal(t[1], rest)
    else if |t| > 1 && t[1] == '*' then Star(rest)
    else if |t| > 3 && t[1] == '\'' then Hex(t[2], t[3], rest)
    else
      var (word, v) := Letters(t[1..]);
      var (param, w) := Params(v);
      Word(word, param, SkipSpace(w) != w, rest)
  }

  lemma {:induction false} LettersRun(t: string)
    ensures forall k :: 0 <= k < |Letters(t).0| ==> IsLetter(Letters(t).0[k])
    ensures Letters(t).1 != "" ==> !IsLetter(Letters(t).1[0])
  {
    if t != "" && IsLetter(t[0]) {
      LettersRun(t[1..]);
    }
  }

  lemma {:induction false} ParamsRun(t: string)
    ensures forall k :: 0 <= k < |Params(t).0| ==> IsParam(Params(t).0[k])
    ensures Params(t).1 != "" ==> !IsParam(Params(t).1[0])
  {
    if t != "" && IsParam(t[0]) {
      ParamsRun(t[1..]);
    }
  }

  lemma SpaceSplit(w: string)
    ensures w == (if SkipSpace(w) != w then " " else "") + SkipSpace(w)
    ensures SkipSpace(w) == w && w != "" ==> w[0] != ' '
  {
    assert "" + w == w;
    if w != "" { assert w == [w[0]] + w[1..]; }
  }

  /** Reading as far as the letters, digits and delimiter go leaves a delimited word. */
  lemma MaximalIsDelimited(t: string, word: string, v: string, param: string, w: string)
    requires t != "" && !IsSpecial(t) && Letters(t[1..]) == (word, v) && Params(v) == (param, w)
    ensures Delimited(word, param, SkipSpace(w) != w, SkipSpace(w))
  {
    LettersRun(t[1..]);
    ParamsRun(v);
    SpaceSplit(w);
    hide Letters, Params;
    if SkipSpace(w) == w && w != "" && param == "" {
      assert v == w;
      if word == "" {
        assert t[1..] == v && t[1] == w[0];
      }
    }
  }

  lemma WordPrints(word: string, param: string, space: bool, rest: Doc, left: string)
    ensures Print(Word(word, param, space, rest)) + left ==
            "\\" + (word + (param + ((if space then " " else "") + (Print(rest) + left))))
  {
    var sp, r := if space then " " else "", Print(rest);
    Assoc(sp, r, left);
    Assoc(param, sp + r, left);
    Assoc(word, param + (sp + r), left);
    Assoc("\\", word + (param + (sp + r)), left);
  }

  /** The element read, printed back, is the bytes it was read from. */
  lemma ElementPrints(t: string, rest: Doc, left: string)
    requires t != "" && t[0] != '{' && t[0] != '}'
    requires Turn(t, State(0, -1, "")).0 == Print(rest) + left && WellFormed(rest, left)
    ensures t == Print(Element(t, rest)) + left && WellFormed(Element(t, rest), left)
  {
    if t[0] == '\\' && !IsSpecial(t) {
      EscapeTurn(t, State(0, -1, ""), rest);
      WordElementPrints(t, rest, left);
    } else {
      SimplePrints(t, rest, left);
    }
  }

  lemma EscapeTurn(t: string, c: State, rest: Doc)
    requires t != "" && t[0] == '\\' && !IsSpecial(t)
    ensures Turn(t, c) == Escape(t, c)
    ensures
      var (word, v) := Letters(t[1..]);
      var (param, w) := Params(v);
      Element(t, rest) == Word(word, param, SkipSpace(w) != w, rest)
  {
    hide Letters, Params, SkipSpace, Escape;
  }

  lemma WordElementPrints(t: string, rest: Doc, left: string)
    requires t != "" && t[0] == '\\' && !IsSpecial(t)
    requires Escape(t, State(0, -1, "")).0 == Print(rest) + left && WellFormed(rest, left)
    ensures
      var (word, v) := Letters(t[1..]);
      var (param, w) := Params(v);
      var d := Word(word, param, SkipSpace(w) != w, rest);
      t == Print(d) + left && WellFormed(d, left)
  {
    hide Letters, Params, SkipSpace, Print, Escape, Delimited, IsSpecial;
    var (word, v) := Letters(t[1..]);
    var (param, w) := Params(v);
    PlainEscape(t, t[1..], State(0, -1, ""));
    MaximalIsDelimited(t, word, v, param, w);
    SpaceSplit(w);
    assert t == "\\" + t[1..];
    WordPrints(word, param, SkipSpace(w) != w, rest, left);
  }

  lemma SimplePrints(t: string, rest: Doc, left: string)
    requires t != "" && t[0] != '{' && t[0] != '}' && !(t[0] == '\\' && !IsSpecial(t))
    requires Turn(t, State(0, -1, "")).0 == Print(rest) + left && WellFormed(rest, left)
    ensures t == Print(Element(t, rest)) + left && WellFormed(Element(t, rest), left)
  {
    hide Letters, Params, HexText, Apply, Emit;
    var d := Element(t, rest);
    var front := if d.Literal? then ['\\', d.b] else if d.Star? then "\\*"
                 else if d.Hex? then ['\\', '\'', d.h1, d.h2] else [t[0]];
    assert t == front + Turn(t, State(0, -1, "")).0;
    Assoc(front, Print(rest), left);
  }

  lemma GroupPrints(t: string, body: Doc, left: string, rest: Doc, left': string)
    requires t != "" && t[0] == '{' && left != "" && left[0] == '}'
    requires t[1..] == Print(body) + left && left[1..] == Print(rest) + left'
    requires WellFormed(body, left) && WellFormed(rest, left')
    ensures t == Print(Group(body, rest)) + left' && WellFormed(Group(body, rest), left')
  {
    assert t == "{" + t[1..] && left == "}" + left[1..];
    Assoc("}", Print(rest), left');
    Assoc(Print(body), "}" + Print(rest), left');
    Assoc("{", Print(body) + ("}" + Print(rest)), left');
  }

  lemma {:induction false} ReadSound(t: string)
    requires ReadDoc(t).Read?
    ensures t == Print(ReadDoc(t).doc) + ReadDoc(t).left
    ensures WellFormed(ReadDoc(t).doc, ReadDoc(t).left)
    decreases |t|
  {
    hide Turn, Element;
    if t == "" || t[0] == '}' {
      assert Print(End) + t == t;
    } else if t[0] == '{' {
      var r := ReadDoc(t[1..]);
      ReadSound(t[1..]);
      var r' := ReadDoc(r.left[1..]);
      ReadSound(r.left[1..]);
      GroupPrints(t, r.doc, r.left, r'.doc, r'.left);
    } else {
      var u := Turn(t, State(0, -1, "")).0;
      ReadSound(u);
      ElementPrints(t, ReadDoc(u).doc, ReadDoc(u).left);
    }
  }

  /** On every input whose braces balance, the scanner is the reader followed by Eval. */
  lemma BalancedScan(t: string)
    requires ReadDoc(t).Read? && ReadDoc(t).left == ""
    ensures Run(t, State(0, -1, "")).out == Eval(ReadDoc(t).doc)
  {
    ReadSound(t);
    assert Print(ReadDoc(t).doc) + "" == Print(ReadDoc(t).doc);
    ScanIsEval(ReadDoc(t).doc);
  }
}
