/** The per-user settings file (internal/config/config.go): KEY=VALUE lines, parsed,
    printed and updated. A missing file reads as no bytes. */
module EnvFile {
  import opened Basics
  import opened Text

  const EQUALS: byte := 61
  const HASH: byte := 35

  type Env = map<Bytes, Bytes>

  /** The comment the writer puts first. */
  const HEADER: Bytes := TITLE + [0xE2, 0x80, 0x94] + (MANAGED + CONFIG + EDITS + KEYS)

  const TITLE: Bytes := [35, 32, 115, 101, 109, 105, 100, 120, 32, 99, 111, 110, 102, 105, 103, 32]
  const MANAGED: Bytes := [32, 109, 97, 110, 97, 103, 101, 100, 32, 98, 121, 32]
  const CONFIG: Bytes := [96, 115, 101, 109, 105, 100, 120, 32, 99, 111, 110, 102, 105, 103, 96, 59, 32]
  const EDITS: Bytes := [101, 100, 105, 116, 115, 32, 97, 114, 101, 32, 112, 114, 101, 115, 101, 114, 118, 101, 100]
  const KEYS: Bytes := [32, 98, 121, 32, 107, 101, 121, 46]

  /** The same bytes as text; the dash is U+2014. */
  lemma Spelling()
    ensures [EQUALS] == FromAscii("=") && [HASH] == FromAscii("#")
    ensures TITLE == FromAscii("# semidx config ")
    ensures MANAGED == FromAscii(" managed by ")
    ensures CONFIG == FromAscii("`semidx config`; ")
    ensures EDITS == FromAscii("edits are preserved")
    ensures KEYS == FromAscii(" by key.")
    ensures HEADER == TITLE + Utf8(0x2014) + (MANAGED + CONFIG + EDITS + KEYS)
  {}

  // -------- parsing

  predicate IsComment(s: Bytes) {
    s != [] && s[0] == HASH
  }

  /** The index of the first '=', or |s|. */
  function FirstEquals(s: Bytes): (j: nat)
    ensures j <= |s| && (j < |s| ==> s[j] == EQUALS) && forall k :: 0 <= k < j ==> s[k] != EQUALS
  {
    if s == [] || s[0] == EQUALS then 0 else 1 + FirstEquals(s[1..])
  }

  function ParseLine(line: Bytes, vars: Env): Env {
    var t := Trim(line);
    if t == [] || IsComment(t) then vars
    else
      var j := FirstEquals(t);
      if j == |t| then vars else vars[Trim(t[..j]) := Trim(t[j + 1..])]
  }

  function ParseLines(lines: seq<Bytes>, vars: Env): Env {
    if lines == [] then vars else ParseLines(lines[1..], ParseLine(lines[0], vars))
  }

  function Parse(data: Bytes): Env {
    ParseLines(SplitLines(data), map[])
  }

  method ParseEnvFile(data: Bytes) returns (vars: Env)
    ensures vars == Parse(data)
  {
    hide Trim, SplitLines;
    vars := map[];
    var lines := SplitLines(data);
    ghost var rest := lines;
    for i := 0 to |lines|
      invariant rest == lines[i..] && ParseLines(lines, map[]) == ParseLines(rest, vars)
    {
      ghost var before := vars;
      rest := rest[1..];
      var line := Trim(lines[i]);
      if line == [] || IsComment(line) { continue; }
      var j := 0;
      while j < |line| && line[j] != EQUALS
        invariant 0 <= j <= |line| && FirstEquals(line) == j + FirstEquals(line[j..])
      {
        assert line[j..][1..] == line[j + 1..];
        j := j + 1;
      }
      if j == |line| { continue; }
      vars := vars[Trim(line[..j]) := Trim(line[j + 1..])];
    }
  }

  // -------- what a file says of a key, read off its lines

  /** The line sets k to v: it is no comment, and its first '=' parts the two, each trimmed. */
  ghost predicate Sets(line: Bytes, k: Bytes, v: Bytes) {
    var t := Trim(line);
    t != [] && t[0] != HASH && exists j :: 0 <= j < |t| && t[j] == EQUALS && EQUALS !in t[..j] && k == Trim(t[..j]) && v == Trim(t[j + 1..])
  }

  ghost predicate Names(line: Bytes, k: Bytes) {
    exists v :: Sets(line, k, v)
  }

  ghost predicate NoneNames(lines: seq<Bytes>, k: Bytes) {
    forall i :: 0 <= i < |lines| ==> !Names(lines[i], k)
  }

  /** Line i is the last that sets k. */
  ghost predicate LastNames(lines: seq<Bytes>, k: Bytes, i: nat) {
    i < |lines| && Names(lines[i], k) && NoneNames(lines[i + 1..], k)
  }

  lemma SplitAtFirst(t: Bytes)
    ensures FirstEquals(t) < |t| ==> EQUALS !in t[..FirstEquals(t)]
    ensures forall j :: 0 <= j < |t| && t[j] == EQUALS && EQUALS !in t[..j] ==> j == FirstEquals(t)
  {
    var f := FirstEquals(t);
    forall j | 0 <= j < |t| && t[j] == EQUALS && EQUALS !in t[..j]
      ensures j == f
    {
      hide FirstEquals;
    }
  }

  lemma ParseLineIff(line: Bytes, vars: Env, k: Bytes)
    ensures Names(line, k) ==> k in ParseLine(line, vars) && Sets(line, k, ParseLine(line, vars)[k])
    ensures !Names(line, k) ==> (k in ParseLine(line, vars) <==> k in vars) && (k in vars ==> ParseLine(line, vars)[k] == vars[k])
  {
    var t := Trim(line);
    SplitAtFirst(t);
    var j := FirstEquals(t);
    hide Trim, FirstEquals;
    if t != [] && t[0] != HASH && j < |t| {
      assert Sets(line, Trim(t[..j]), Trim(t[j + 1..]));
    }
  }

  /** Lines that do not set k leave it as it was. */
  lemma {:induction false} Unset(lines: seq<Bytes>, vars: Env, k: Bytes)
    requires NoneNames(lines, k)
    ensures k in ParseLines(lines, vars) <==> k in vars
    ensures k in vars ==> ParseLines(lines, vars)[k] == vars[k]
    decreases |lines|
  {
    hide ParseLine, Names;
    if lines != [] {
      assert !Names(lines[0], k);
      ParseLineIff(lines[0], vars, k);
      Unset(lines[1..], ParseLine(lines[0], vars), k);
    }
  }

  lemma {:induction false} LastWins(lines: seq<Bytes>, vars: Env, k: Bytes, i: nat)
    requires LastNames(lines, k, i)
    ensures k in ParseLines(lines, vars) && Sets(lines[i], k, ParseLines(lines, vars)[k])
    decreases i
  {
    hide ParseLine, Sets, Names, NoneNames;
    ParseLineIff(lines[0], vars, k);
    var next := ParseLine(lines[0], vars);
    assert ParseLines(lines, vars) == ParseLines(lines[1..], next);
    if i == 0 {
      Unset(lines[1..], next, k);
    } else {
      assert lines[1..][i - 1] == lines[i] && lines[1..][i..] == lines[i + 1..];
      LastWins(lines[1..], next, k, i - 1);
    }
  }

  lemma {:induction false} LastOne(lines: seq<Bytes>, k: Bytes) returns (i: nat)
    requires !NoneNames(lines, k)
    ensures LastNames(lines, k, i)
    decreases |lines|
  {
    hide Names;
    i := |lines| - 1;
    if !Names(lines[i], k) {
      var front := lines[..i];
      i := LastOne(front, k);
      assert lines[i + 1..] == front[i + 1..] + [lines[|lines| - 1]];
    }
  }

  /** A key is read exactly if some line sets it, and has the value of the last one that does. */
  lemma ParseLast(data: Bytes, k: Bytes, i: nat, v: Bytes)
    ensures k in Parse(data) <==> !NoneNames(SplitLines(data), k)
    ensures LastNames(SplitLines(data), k, i) && Sets(SplitLines(data)[i], k, v) ==> k in Parse(data) && Parse(data)[k] == v
  {
    hide Parse, ParseLines, SplitLines, Names, NoneNames, Sets;
    var lines := SplitLines(data);
    ParseIs(data);
    if NoneNames(lines, k) {
      Unset(lines, map[], k);
    } else {
      var last := LastOne(lines, k);
      LastWins(lines, map[], k, last);
    }
    if i < |lines| && LastNames(lines, k, i) && Sets(lines[i], k, v) {
      LastWins(lines, map[], k, i);
      OneValue(lines[i], k, v, Parse(data)[k]);
    }
  }

  lemma ParseIs(data: Bytes)
    ensures Parse(data) == ParseLines(SplitLines(data), map[])
  {}

  lemma OneValue(line: Bytes, k: Bytes, v: Bytes, v': Bytes)
    requires Sets(line, k, v) && Sets(line, k, v')
    ensures v == v'
  {
    SplitAtFirst(Trim(line));
    hide Trim, FirstEquals;
  }

  // -------- printing

  function Entry(k: Bytes, v: Bytes): Bytes {
    k + ([EQUALS] + v)
  }

  function Entries(keys: seq<Bytes>, vars: Env): Bytes
    requires forall k :: k in keys ==> k in vars
  {
    if keys == [] then [] else Entry(keys[0], vars[keys[0]]) + ([NEWLINE] + Entries(keys[1..], vars))
  }

  function Print(keys: seq<Bytes>, vars: Env): Bytes
    requires forall k :: k in keys ==> k in vars
  {
    HEADER + ([NEWLINE] + Entries(keys, vars))
  }

  // -------- one line, printed and parsed back

  lemma {:induction false} FirstEqualsAt(k: Bytes, rest: Bytes)
    requires EQUALS !in k
    ensures FirstEquals(k + ([EQUALS] + rest)) == |k|
    decreases |k|
  {
    if k == [] {
      assert k + ([EQUALS] + rest) == [EQUALS] + rest;
    } else {
      assert (k + ([EQUALS] + rest))[1..] == k[1..] + ([EQUALS] + rest);
      assert k[0] in k;
      FirstEqualsAt(k[1..], rest);
    }
  }

  /** The key and value the writer is given: a trimmed one-line key without '=', a one-line value. */
  ghost predicate Printable(k: Bytes, v: Bytes) {
    Trim(k) == k && EQUALS !in k && NEWLINE !in k && NEWLINE !in v
  }

  lemma EntryFront(k: Bytes, v: Bytes)
    requires Trim(k) == k
    ensures SpaceWidth(Entry(k, v)) == 0
  {
    TrimmedEnds(k);
    hide Trim;
    if k != [] {
      SpaceWidthConcat(k, [EQUALS] + v);
    } else {
      assert Entry(k, v) == [EQUALS] + v;
    }
  }

  lemma TrimEntry(k: Bytes, v: Bytes)
    requires Trim(k) == k
    ensures Trim(Entry(k, v)) == Entry(k, TrimRight(v))
  {
    EntryFront(k, v);
    assert Trim(Entry(k, v)) == TrimRight(Entry(k, v));
    assert SpaceWidth([EQUALS]) == 0;
    hide SpaceWidth, SpaceSuffix, TrimRight, TrimLeft, Trim;
    var p, r := k + [EQUALS], TrimRight(v);
    Assoc(k, [EQUALS], v);
    Assoc(k, [EQUALS], r);
    assert [p[|p| - 1]] == [EQUALS];
    TrimRightAfter(p, v);
  }

  lemma EntryParts(k: Bytes, r: Bytes)
    ensures
      var t := Entry(k, r);
      && t[..|k|] == k && t[|k| + 1..] == r
      && (IsComment(t) <==> IsComment(k))
  {}

  /** A printed entry parses to its key and its trimmed value, unless the key makes it a comment. */
  lemma ParseEntry(k: Bytes, v: Bytes, vars: Env)
    requires Printable(k, v)
    ensures ParseLine(Entry(k, v), vars) == if IsComment(k) then vars else vars[k := Trim(v)]
  {
    hide Trim, TrimRight, FirstEquals;
    var r := TrimRight(v);
    TrimEntry(k, v);
    FirstEqualsAt(k, r);
    TrimAfterTrimRight(v);
    EntryParts(k, r);
    hide Entry;
  }

  // -------- the whole file

  ghost predicate AllPrintable(vars: Env) {
    forall k :: k in vars ==> Printable(k, vars[k])
  }

  /** What survives a round trip: keys that are not comments, values trimmed. */
  ghost function Surviving(vars: Env): Env {
    map k | k in vars && !IsComment(k) :: Trim(vars[k])
  }

  ghost function Listed(keys: seq<Bytes>, vars: Env): Env
    requires forall k :: k in keys ==> k in vars
  {
    map k | k in keys && !IsComment(k) :: Trim(vars[k])
  }

  lemma {:induction false} ParseEntries(keys: seq<Bytes>, vars: Env, acc: Env)
    requires AllPrintable(vars) && forall k :: k in keys ==> k in vars
    requires forall i, j :: 0 <= i < j < |keys| ==> keys[i] != keys[j]
    ensures ParseLines(SplitLines(Entries(keys, vars)), acc) == acc + Listed(keys, vars)
    decreases |keys|
  {
    if keys == [] {
      NoEntries(vars, acc);
    } else {
      hide Trim, SplitLines, Entry, ParseLine, Printable, IsComment, Listed;
      var k, line, rest := keys[0], Entry(keys[0], vars[keys[0]]), Entries(keys[1..], vars);
      assert Printable(k, vars[k]);
      OneLine(k, vars[k]);
      SplitFirst(line, rest);
      ParseEntry(k, vars[k], acc);
      assert ([line] + SplitLines(rest))[1..] == SplitLines(rest);
      ParseEntries(keys[1..], vars, ParseLine(line, acc));
      ListedStep(keys, vars, acc);
    }
  }

  lemma OneLine(k: Bytes, v: Bytes)
    requires Printable(k, v)
    ensures NEWLINE !in Entry(k, v)
  {
    hide Trim;
  }

  lemma NoEntries(vars: Env, acc: Env)
    ensures ParseLines(SplitLines(Entries([], vars)), acc) == acc + Listed([], vars)
  {
    var one: seq<Bytes> := [[]];
    assert SplitLines([]) == one && one[1..] == [];
    assert acc + Listed([], vars) == acc;
  }

  lemma ListedStep(keys: seq<Bytes>, vars: Env, acc: Env)
    requires keys != [] && forall k :: k in keys ==> k in vars
    requires forall i, j :: 0 <= i < j < |keys| ==> keys[i] != keys[j]
    ensures
      var k := keys[0];
      (if IsComment(k) then acc else acc[k := Trim(vars[k])]) + Listed(keys[1..], vars) == acc + Listed(keys, vars)
  {
    hide Trim;
    assert forall k :: k in keys <==> k == keys[0] || k in keys[1..];
    assert keys[0] !in keys[1..];
  }

  lemma CommentSkipped(line: Bytes, acc: Env)
    requires IsComment(line)
    ensures ParseLine(line, acc) == acc
  {
    assert SpaceWidth(line) == 0;
    TrimRightFront(line);
    hide SpaceWidth, TrimRight;
  }

  lemma HeaderIsComment(acc: Env)
    ensures NEWLINE !in HEADER && ParseLine(HEADER, acc) == acc
  {
    hide ParseLine;
    CommentSkipped(HEADER, acc);
  }

  /** Parsing what was printed yields what survives, in whatever order the keys were printed. */
  lemma ParsePrint(keys: seq<Bytes>, vars: Env)
    requires AllPrintable(vars) && Enumerates(keys, vars)
    ensures Parse(Print(keys, vars)) == Surviving(vars)
  {
    HeaderIsComment(map[]);
    hide HEADER, Trim;
    SplitFirst(HEADER, Entries(keys, vars));
    assert ([HEADER] + SplitLines(Entries(keys, vars)))[1..] == SplitLines(Entries(keys, vars));
    ParseEntries(keys, vars, map[]);
    assert map[] + Listed(keys, vars) == Surviving(vars);
  }

  /** A map the parser can return: trimmed one-line keys and values, no '=' or leading '#' in a key. */
  ghost predicate Parsed(vars: Env) {
    forall k :: k in vars ==> Printable(k, vars[k]) && Trim(vars[k]) == vars[k] && !IsComment(k)
  }

  lemma KeyOfLine(t: Bytes, j: nat)
    requires Trim(t) == t && t != [] && !IsComment(t) && j == FirstEquals(t) < |t| && NEWLINE !in t
    ensures Printable(Trim(t[..j]), Trim(t[j + 1..])) && !IsComment(Trim(t[..j]))
    ensures Trim(Trim(t[j + 1..])) == Trim(t[j + 1..])
  {
    hide SpaceWidth, TrimRight, SpaceSuffix, Trim;
    var k, v := t[..j], t[j + 1..];
    TrimTwice(k);
    TrimTwice(v);
    TrimWithin(k);
    TrimWithin(v);
    KeyFront(t, j);
    assert forall b :: b in k || b in v ==> b in t;
    assert EQUALS !in k;
  }

  /** The key of a line that is not a comment is not one either. */
  lemma KeyFront(t: Bytes, j: nat)
    requires Trim(t) == t && t != [] && !IsComment(t) && j < |t| && RuneStart(t[j])
    ensures !IsComment(Trim(t[..j]))
  {
    TrimmedEnds(t);
    hide SpaceWidth, TrimRight, SpaceSuffix;
    var k := t[..j];
    if k != [] {
      Rejoin(t, j);
      SpaceWidthConcat(k, t[j..]);
      TrimRightFront(k);
    }
  }

  lemma ParseLineParsed(line: Bytes, vars: Env)
    requires Parsed(vars) && NEWLINE !in line
    ensures Parsed(ParseLine(line, vars))
  {
    var t := Trim(line);
    TrimTwice(line);
    TrimWithin(line);
    hide Trim;
    if t != [] && !IsComment(t) && FirstEquals(t) < |t| {
      KeyOfLine(t, FirstEquals(t));
      hide Printable;
    }
  }

  lemma {:induction false} ParseLinesParsed(lines: seq<Bytes>, vars: Env)
    requires Parsed(vars) && forall i :: 0 <= i < |lines| ==> NEWLINE !in lines[i]
    ensures Parsed(ParseLines(lines, vars))
    decreases |lines|
  {
    if lines != [] {
      ParseLineParsed(lines[0], vars);
      ParseLinesParsed(lines[1..], ParseLine(lines[0], vars));
    }
  }

  /** Whatever bytes the file held, what was read from it can be written back without loss. */
  lemma ParseIsStable(data: Bytes, keys: seq<Bytes>)
    requires Enumerates(keys, Parse(data))
    ensures Parse(Print(keys, Parse(data))) == Parse(data)
  {
    ParseIsParsed(data);
    ParsePrint(keys, Parse(data));
    hide Trim, Printable;
    assert Surviving(Parse(data)) == Parse(data);
  }

  lemma ParseIsParsed(data: Bytes)
    ensures Parsed(Parse(data))
  {
    SplitHasNoNewline(data);
    ParseLinesParsed(SplitLines(data), map[]);
  }

  // -------- writing and updating the file

  method WriteUserEnv(vars: Env) returns (data: Bytes)
    ensures exists keys :: Enumerates(keys, vars) && data == Print(keys, vars)
  {
    hide HEADER;
    var todo := vars.Keys;
    var order := [];
    while todo != {}
      invariant todo <= vars.Keys && forall k :: k in order <==> k in vars.Keys - todo
      invariant forall i, j :: 0 <= i < j < |order| ==> order[i] != order[j]
      decreases |todo|
    {
      var k :| k in todo;
      assert k !in order;
      todo := todo - {k};
      order := order + [k];
    }
    data := HEADER + [NEWLINE];
    ghost var rest := order;
    assert Print(order, vars) == data + Entries(order, vars);
    for i := 0 to |order|
      invariant rest == order[i..] && (forall k :: k in rest ==> k in vars) && Print(order, vars) == data + Entries(rest, vars)
    {
      ghost var k := order[i];
      rest := rest[1..];
      Joined(data, Entry(order[i], vars[order[i]]), Entries(rest, vars));
      data := data + (order[i] + ([EQUALS] + vars[order[i]])) + [NEWLINE];
    }
    assert data + [] == data;
  }

  lemma Joined(data: Bytes, line: Bytes, rest: Bytes)
    ensures data + (line + ([NEWLINE] + rest)) == (data + line + [NEWLINE]) + rest
  {}

  datatype SetResult = Rejected | Written(data: Bytes)

  method SetUserEnv(data: Bytes, key: Bytes, value: Bytes) returns (r: SetResult)
    ensures r.Rejected? <==> Trim(key) == [] || EQUALS in Trim(key) || NEWLINE in Trim(key) || NEWLINE in value
    // The entry is set, trimmed, exactly when the key does not start with '#'; otherwise it is lost.
    ensures r.Written? ==>
      Parse(r.data) == if IsComment(Trim(key)) then Parse(data) else Parse(data)[Trim(key) := Trim(value)]
  {
    var k := Trim(key);
    if k == [] { return Rejected; }
    if EQUALS in k || NEWLINE in k || NEWLINE in value { return Rejected; }
    var vars := ParseEnvFile(data);
    vars := vars[k := value];
    var out := WriteUserEnv(vars);
    ghost var keys :| Enumerates(keys, vars) && out == Print(keys, vars);
    ParseIsParsed(data);
    TrimTwice(key);
    SetSurvives(Parse(data), k, value, keys);
    return Written(out);
  }

  lemma SetSurvives(before: Env, k: Bytes, value: Bytes, keys: seq<Bytes>)
    requires Parsed(before) && Printable(k, value) && Enumerates(keys, before[k := value])
    ensures Parse(Print(keys, before[k := value])) == if IsComment(k) then before else before[k := Trim(value)]
  {
    hide Trim, Printable;
    ParsePrint(keys, before[k := value]);
    assert Surviving(before[k := value]) == if IsComment(k) then before else before[k := Trim(value)];
  }

  /** Setting "#k" to "v" in an empty file: accepted, written, and not there when read back. */
  lemma HashKeyLost(keys: seq<Bytes>)
    requires Enumerates(keys, map[[HASH, 107] := [118]])
    ensures
      var k: Bytes := [HASH, 107];
      && Trim(k) == k && EQUALS !in k && NEWLINE !in k
      && Parse(Print(keys, map[k := [118]])) == map[]
  {
    var k: Bytes := [HASH, 107];
    var none: Env := map[];
    assert SpaceWidth(k) == 0 && k[1..] == [107] && SpaceWidth([107]) == 0;
    TrimmedEnds(k);
    assert none[k := [118]] == map[k := [118]];
    hide Trim, Parse, Print;
    SetSurvives(none, k, [118], keys);
  }

  method UnsetUserEnv(data: Bytes, key: Bytes) returns (data': Bytes)
    ensures Parse(data') == Parse(data) - {key}
    ensures key !in Parse(data) ==> data' == data
  {
    var vars := ParseEnvFile(data);
    if key !in vars {
      assert vars - {key} == vars;
      return data;
    }
    vars := vars - {key};
    data' := WriteUserEnv(vars);
    ghost var keys :| Enumerates(keys, vars) && data' == Print(keys, vars);
    ParseIsParsed(data);
    ParsePrint(keys, vars);
    hide Trim, Printable;
    assert Surviving(vars) == vars;
  }
}
