/** The Java constant pool reader (internal/extract/classfile.go), against the pool
    layout of section 4.4 of The Java Virtual Machine Specification. Rendering the
    symbols to text is left out. */
module ClassFile {
  import opened Basics

  type u16 = n: int | 0 <= n < 0x1_0000

  // -------- the format: entries, and their bytes

  datatype Entry =
    | Utf8(text: seq<byte>)
    | Class(name: u16)
    | OneIndex(tag: byte, index: u16)        // String, MethodType, Module, Package
    | FourBytes(tag: byte, data: seq<byte>)  // Integer, Float, the refs, NameAndType, Dynamic
    | Wide(tag: byte, data: seq<byte>)       // Long, Double: two pool slots (section 4.4.5)
    | Handle(kind: byte, ref: u16)

  predicate Valid(e: Entry) {
    match e
    case Utf8(text) => |text| < 0x1_0000
    case Class(_) => true
    case OneIndex(tag, _) => tag in {8, 16, 19, 20}
    case FourBytes(tag, data) => tag in {3, 4, 9, 10, 11, 12, 17, 18} && |data| == 4
    case Wide(tag, data) => tag in {5, 6} && |data| == 8
    case Handle(_, _) => true
  }

  function U2(n: u16): seq<byte> {
    [n / 256, n % 256]
  }

  function Tag(e: Entry): byte {
    match e
    case Utf8(_) => 1
    case Class(_) => 7
    case OneIndex(tag, _) => tag
    case FourBytes(tag, _) => tag
    case Wide(tag, _) => tag
    case Handle(_, _) => 15
  }

  function Payload(e: Entry): seq<byte>
    requires Valid(e)
  {
    match e
    case Utf8(text) => U2(|text|) + text
    case Class(name) => U2(name)
    case OneIndex(_, index) => U2(index)
    case FourBytes(_, data) => data
    case Wide(_, data) => data
    case Handle(kind, ref) => [kind] + U2(ref)
  }

  function Encode(e: Entry): seq<byte>
    requires Valid(e)
  {
    [Tag(e)] + Payload(e)
  }

  function Slots(e: Entry): nat {
    if e.Wide? then 2 else 1
  }

  /** A pool filling the indices from `first` up to `count`; only its last entry may overrun. */
  predicate WellFormed(es: seq<Entry>, first: nat, count: nat): (ok: bool)
    ensures ok ==> forall e :: e in es ==> Valid(e)
  {
    if es == [] then first >= count
    else first < count && Valid(es[0]) && WellFormed(es[1..], first + Slots(es[0]), count)
  }

  function EncodeAll(es: seq<Entry>): seq<byte>
    requires forall e :: e in es ==> Valid(e)
  {
    if es == [] then [] else Encode(es[0]) + EncodeAll(es[1..])
  }

  /** The pool index of entry k. */
  function IndexOf(es: seq<Entry>, first: nat, k: nat): nat
    requires k <= |es|
  {
    if k == 0 then first else IndexOf(es[1..], first + Slots(es[0]), k - 1)
  }

  // -------- reading one entry, as a function

  datatype Reading = Got(e: Entry, left: seq<byte>) | Short | Unknown

  function Value2(s: seq<byte>): u16
    requires |s| >= 2
  {
    (s[0] as int) * 256 + s[1] as int
  }

  /** What follows the tag. */
  function ReadPayload(tag: byte, t: seq<byte>): (r: Reading)
    ensures r.Got? ==> Valid(r.e) && |r.left| <= |t|
  {
    match tag
    case 1 =>
      if |t| < 2 || |t[2..]| < Value2(t) then Short else Got(Utf8(t[2..][..Value2(t)]), t[2..][Value2(t)..])
    case 7 => if |t| < 2 then Short else Got(Class(Value2(t)), t[2..])
    case 15 => if |t| < 3 then Short else Got(Handle(t[0], Value2(t[1..])), t[1..][2..])
    case _ =>
      if tag in {8, 16, 19, 20} then (if |t| < 2 then Short else Got(OneIndex(tag, Value2(t)), t[2..]))
      else if tag in {3, 4, 9, 10, 11, 12, 17, 18} then (if |t| < 4 then Short else Got(FourBytes(tag, t[..4]), t[4..]))
      else if tag in {5, 6} then (if |t| < 8 then Short else Got(Wide(tag, t[..8]), t[8..]))
      else Unknown
  }

  function ReadEntry(s: seq<byte>): (r: Reading)
    ensures r.Got? ==> Valid(r.e) && |r.left| < |s|
  {
    if s == [] then Short else ReadPayload(s[0], s[1..])
  }

  lemma Value2OfU2(n: u16, rest: seq<byte>)
    ensures Value2(U2(n) + rest) == n && (U2(n) + rest)[2..] == rest
  {}

  lemma U2OfValue2(s: seq<byte>)
    requires |s| >= 2
    ensures U2(Value2(s)) == s[..2]
  {}

  lemma First(b: byte, rest: seq<byte>)
    ensures ([b] + rest)[0] == b && ([b] + rest)[1..] == rest
  {}

  lemma ReadPrinted(e: Entry, rest: seq<byte>)
    requires Valid(e)
    ensures ReadPayload(Tag(e), Payload(e) + rest) == Got(e, rest)
  {
    match e
    case Utf8(text) =>
      Assoc(U2(|text|), text, rest);
      Value2OfU2(|text|, text + rest);
      Cut(text, rest);
      hide U2, Value2;
    case Class(name) =>
      Value2OfU2(name, rest);
    case OneIndex(_, index) =>
      Value2OfU2(index, rest);
    case FourBytes(_, data) =>
      Cut(data, rest);
    case Wide(_, data) =>
      Cut(data, rest);
    case Handle(kind, ref) =>
      Assoc([kind], U2(ref), rest);
      First(kind, U2(ref) + rest);
      Value2OfU2(ref, rest);
      hide Value2;
  }

  /** Every entry reads back from its bytes, whatever follows. */
  lemma ReadEncoded(e: Entry, rest: seq<byte>)
    requires Valid(e)
    ensures ReadEntry(Encode(e) + rest) == Got(e, rest)
  {
    ReadPrinted(e, rest);
    hide ReadPayload, Payload, Tag;
    Assoc([Tag(e)], Payload(e), rest);
    First(Tag(e), Payload(e) + rest);
  }

  lemma PrintedIsRead(tag: byte, t: seq<byte>)
    requires ReadPayload(tag, t).Got?
    ensures tag == Tag(ReadPayload(tag, t).e)
    ensures t == Payload(ReadPayload(tag, t).e) + ReadPayload(tag, t).left
  {
    var e, left := ReadPayload(tag, t).e, ReadPayload(tag, t).left;
    match e
    case Utf8(text) =>
      U2OfValue2(t);
      Rejoin(t, 2);
      Rejoin(t[2..], |text|);
      hide U2, Value2;
      Assoc(U2(|text|), text, left);
    case Class(_) =>
      U2OfValue2(t);
      Rejoin(t, 2);
    case OneIndex(_, _) =>
      U2OfValue2(t);
      Rejoin(t, 2);
    case FourBytes(_, _) =>
      Rejoin(t, 4);
    case Wide(_, _) =>
      Rejoin(t, 8);
    case Handle(kind, ref) =>
      U2OfValue2(t[1..]);
      Rejoin(t[1..], 2);
      Rejoin(t, 1);
      assert t[..1] == [kind];
      hide U2, Value2;
      Assoc([kind], U2(ref), left);
  }

  /** Whatever is read as an entry is the entry's bytes. */
  lemma ReadIsEncoded(s: seq<byte>)
    requires ReadEntry(s).Got?
    ensures s == Encode(ReadEntry(s).e) + ReadEntry(s).left
  {
    PrintedIsRead(s[0], s[1..]);
    hide ReadPayload, Payload, Tag;
    var e, left := ReadEntry(s).e, ReadEntry(s).left;
    Rejoin(s, 1);
    assert s[..1] == [s[0]];
    Assoc([Tag(e)], Payload(e), left);
  }

  /** The bytes an entry of this tag has after it, by its layout in sections 4.4.1 to 4.4.12; -1 for no entry's tag. */
  function Width(tag: byte, t: seq<byte>): int {
    match tag
    case 1 => if |t| < 2 then 2 else 2 + 256 * t[0] as int + t[1] as int   // length, bytes
    case 3 | 4 => 4                                                        // bytes
    case 5 | 6 => 4 + 4                                                    // high_bytes, low_bytes
    case 7 | 8 => 2                                                        // name_index; string_index
    case 9 | 10 | 11 | 12 => 2 + 2                                         // two indices
    case 15 => 1 + 2                                                       // reference_kind, reference_index
    case 16 => 2                                                           // descriptor_index
    case 17 | 18 => 2 + 2                                                  // two indices
    case 19 | 20 => 2                                                      // name_index
    case _ => -1
  }

  /** An entry is read exactly if its tag is known and its bytes are there, and takes just those. */
  lemma EntryWidth(s: seq<byte>)
    requires s != []
    ensures
      var w, r := Width(s[0], s[1..]), ReadEntry(s);
      && (r.Unknown? <==> w < 0)
      && (r.Got? <==> 0 <= w < |s|)
      && (r.Got? ==> r.left == s[1 + w..])
      && (r.Got? && s[0] == 1 ==> r.e == Utf8(s[3..1 + w]))
      && (r.Got? && s[0] == 7 ==> r.e == Class(256 * s[1] as int + s[2] as int))
      && (r.Got? && s[0] != 1 && s[0] != 7 ==> !r.e.Utf8? && !r.e.Class?)
  {
    var t := s[1..];
    assert |t| >= 2 ==> t[0] == s[1] && t[1] == s[2];
    assert |t| >= 2 ==> forall n :: 0 <= n <= |t| - 2 ==> t[2..][..n] == s[3..3 + n];
    assert forall j :: 0 <= j <= |t| ==> t[j..] == s[1 + j..];
  }

  /** The entry after a Long or a Double is two indices on, every other entry one. */
  lemma {:induction false} NextIndex(es: seq<Entry>, first: nat, k: nat)
    requires k < |es| && forall e :: e in es ==> Valid(e)
    ensures IndexOf(es, first, k + 1) == IndexOf(es, first, k) + if Encode(es[k])[0] in {5, 6} then 2 else 1
    decreases k
  {
    assert Valid(es[k]);
    if k > 0 {
      assert es[1..][k - 1] == es[k];
      NextIndex(es[1..], first + Slots(es[0]), k - 1);
    } else {
      assert IndexOf(es, first, 1) == IndexOf(es[1..], first + Slots(es[0]), 0);
    }
  }

  lemma BigEndian(n: u16, m: u16)
    ensures U2(0xCAFE) == [0xCA, 0xFE] && Value2([0xBA, 0xBE]) == 0xBABE
    ensures Value4(U2(n) + U2(m)) == n * 0x1_0000 + m
  {}

  // -------- the pool, as a function

  /** The two lookup tables: Utf8 index -> text, Class index -> name index. */
  datatype Tables = Tables(utf8s: map<nat, seq<byte>>, classes: map<nat, u16>)

  datatype Pool = Parsed(tables: Tables, left: seq<byte>) | Malformed

  function Record(tb: Tables, i: nat, e: Entry): Tables {
    match e
    case Utf8(text) => tb.(utf8s := tb.utf8s[i := text])
    case Class(name) => tb.(classes := tb.classes[i := name])
    case _ => tb
  }

  function ParsePool(s: seq<byte>, i: nat, count: nat, tb: Tables): Pool
    decreases |s|
  {
    if i >= count then Parsed(tb, s)
    else
      match ReadEntry(s)
      case Got(e, left) => ParsePool(left, i + Slots(e), count, Record(tb, i, e))
      case _ => Malformed
  }

  function RecordAll(es: seq<Entry>, first: nat, tb: Tables): Tables {
    if es == [] then tb else RecordAll(es[1..], first + Slots(es[0]), Record(tb, first, es[0]))
  }

  /** An encoded pool parses to its own tables, with the cursor at the pool's end. */
  lemma {:induction false} PoolRoundTrip(es: seq<Entry>, rest: seq<byte>, first: nat, count: nat, tb: Tables)
    requires WellFormed(es, first, count)
    ensures ParsePool(EncodeAll(es) + rest, first, count, tb) == Parsed(RecordAll(es, first, tb), rest)
    decreases |es|
  {
    if es == [] {
      assert EncodeAll(es) + rest == rest;
    } else {
      var tail := EncodeAll(es[1..]) + rest;
      Assoc(Encode(es[0]), EncodeAll(es[1..]), rest);
      ReadEncoded(es[0], tail);
      hide ReadEntry, Encode;
      PoolRoundTrip(es[1..], rest, first + Slots(es[0]), count, Record(tb, first, es[0]));
    }
  }

  /** Whatever parses is an encoded pool. */
  lemma {:induction false} ParsedIsEncoded(s: seq<byte>, first: nat, count: nat, tb: Tables) returns (es: seq<Entry>)
    requires ParsePool(s, first, count, tb).Parsed?
    ensures WellFormed(es, first, count)
    ensures s == EncodeAll(es) + ParsePool(s, first, count, tb).left
    ensures ParsePool(s, first, count, tb).tables == RecordAll(es, first, tb)
    decreases |s|
  {
    hide *;
    es := [];
    if first < count {
      ParseStep(s, first, count, tb);
      var r := ReadEntry(s);
      var next, tb' := first + Slots(r.e), Record(tb, first, r.e);
      var rest := ParsedIsEncoded(r.left, next, count, tb');
      es := [r.e] + rest;
      EntryFirst(r.e, rest, first, count, tb);
      Assoc(Encode(r.e), EncodeAll(rest), ParsePool(s, first, count, tb).left);
    } else {
      NothingParsed(s, first, count, tb);
    }
  }

  lemma NothingParsed(s: seq<byte>, first: nat, count: nat, tb: Tables)
    requires first >= count
    ensures WellFormed([], first, count) && s == EncodeAll([]) + s
    ensures ParsePool(s, first, count, tb) == Parsed(tb, s) && RecordAll([], first, tb) == tb
  {
    assert EncodeAll([]) + s == s;
  }

  lemma EntryFirst(e: Entry, rest: seq<Entry>, first: nat, count: nat, tb: Tables)
    requires first < count && Valid(e) && WellFormed(rest, first + Slots(e), count)
    ensures
      var es := [e] + rest;
      && WellFormed(es, first, count)
      && EncodeAll(es) == Encode(e) + EncodeAll(rest)
      && RecordAll(es, first, tb) == RecordAll(rest, first + Slots(e), Record(tb, first, e))
  {
    hide Valid, Encode, Slots, Record;
    assert ([e] + rest)[1..] == rest && ([e] + rest)[0] == e;
  }

  lemma ParseStep(s: seq<byte>, first: nat, count: nat, tb: Tables)
    requires first < count && ParsePool(s, first, count, tb).Parsed?
    ensures ReadEntry(s).Got?
    ensures
      var Got(e, left) := ReadEntry(s);
      && s == Encode(e) + left
      && ParsePool(s, first, count, tb) == ParsePool(left, first + Slots(e), count, Record(tb, first, e))
  {
    hide ReadEntry, Encode, Record;
    ReadIsEncoded(s);
  }

  /** The tables hold exactly the Utf8 and Class entries, each under its own index. */
  ghost predicate Describes(tb: Tables, es: seq<Entry>, first: nat) {
    && (forall k :: 0 <= k < |es| && es[k].Utf8? ==> IndexOf(es, first, k) in tb.utf8s && tb.utf8s[IndexOf(es, first, k)] == es[k].text)
    && (forall k :: 0 <= k < |es| && es[k].Class? ==> IndexOf(es, first, k) in tb.classes && tb.classes[IndexOf(es, first, k)] == es[k].name)
    && (forall i :: i in tb.utf8s ==> exists k :: 0 <= k < |es| && es[k].Utf8? && IndexOf(es, first, k) == i)
    && (forall i :: i in tb.classes ==> exists k :: 0 <= k < |es| && es[k].Class? && IndexOf(es, first, k) == i)
  }

  lemma {:induction false} IndexOfSnoc(es: seq<Entry>, e: Entry, first: nat, k: nat)
    requires k <= |es|
    ensures IndexOf(es + [e], first, k) == IndexOf(es, first, k)
    ensures k < |es| ==> IndexOf(es, first, k) < IndexOf(es, first, |es|)
    decreases |es|
  {
    if k > 0 {
      assert (es + [e])[1..] == es[1..] + [e];
      IndexOfSnoc(es[1..], e, first + Slots(es[0]), k - 1);
    } else if es != [] {
      IndexOfSnoc(es[1..], e, first + Slots(es[0]), 0);
    }
  }

  lemma {:induction false} RecordAllSnoc(es: seq<Entry>, e: Entry, first: nat, tb: Tables)
    ensures RecordAll(es + [e], first, tb) == Record(RecordAll(es, first, tb), IndexOf(es, first, |es|), e)
    decreases |es|
  {
    if es == [] {
      assert (es + [e])[1..] == [];
    } else {
      assert (es + [e])[1..] == es[1..] + [e];
      RecordAllSnoc(es[1..], e, first + Slots(es[0]), Record(tb, first, es[0]));
    }
  }

  lemma {:induction false} TablesDescribe(es: seq<Entry>, first: nat)
    ensures Describes(RecordAll(es, first, Tables(map[], map[])), es, first)
    decreases |es|
  {
    if es != [] {
      var front, e := es[..|es| - 1], es[|es| - 1];
      assert es == front + [e];
      TablesDescribe(front, first);
      RecordAllSnoc(front, e, first, Tables(map[], map[]));
      forall k | 0 <= k <= |front|
        ensures IndexOf(es, first, k) == IndexOf(front, first, k)
        ensures k < |front| ==> IndexOf(front, first, k) < IndexOf(front, first, |front|)
      {
        IndexOfSnoc(front, e, first, k);
      }
      DescribesSnoc(RecordAll(front, first, Tables(map[], map[])), front, e, first);
    }
  }

  lemma DescribesSnoc(tb: Tables, front: seq<Entry>, e: Entry, first: nat)
    requires Describes(tb, front, first)
    requires forall k :: 0 <= k <= |front| ==> IndexOf(front + [e], first, k) == IndexOf(front, first, k)
    requires forall k :: 0 <= k < |front| ==> IndexOf(front, first, k) < IndexOf(front, first, |front|)
    ensures Describes(Record(tb, IndexOf(front, first, |front|), e), front + [e], first)
  {
    hide IndexOf;
    var es, tb' := front + [e], Record(tb, IndexOf(front, first, |front|), e);
    assert es[|front|] == e && forall k :: 0 <= k < |front| ==> es[k] == front[k];
    forall i | i in tb'.utf8s
      ensures exists k :: 0 <= k < |es| && es[k].Utf8? && IndexOf(es, first, k) == i
    {
      if i in tb.utf8s {
        var k :| 0 <= k < |front| && front[k].Utf8? && IndexOf(front, first, k) == i;
        assert es[k].Utf8? && IndexOf(es, first, k) == i;
      }
    }
    forall i | i in tb'.classes
      ensures exists k :: 0 <= k < |es| && es[k].Class? && IndexOf(es, first, k) == i
    {
      if i in tb.classes {
        var k :| 0 <= k < |front| && front[k].Class? && IndexOf(front, first, k) == i;
        assert es[k].Class? && IndexOf(es, first, k) == i;
      }
    }
  }

  // -------- the reader as the source writes it

  class Reader {
    const b: seq<byte>
    var pos: nat
    var err: bool

    ghost predicate Valid()
      reads this
    {
      pos <= |b|
    }

    ghost function Left(): seq<byte>
      requires Valid()
      reads this
    {
      b[pos..]
    }

    constructor (data: seq<byte>)
      ensures Valid() && b == data && Left() == data && !err
    {
      b := data;
      pos, err := 0, false;
    }

    method Need(n: nat) returns (ok: bool)
      requires Valid()
      modifies this`err
      ensures ok == (!old(err) && n <= |Left()|) && err == !ok
    {
      if err || pos + n > |b| {
        err := true;
        return false;
      }
      ok := true;
    }

    /** n bytes taken off the front, or nothing and the error latched. */
    twostate predicate Took(n: nat)
      requires old(Valid())
      reads this
    {
      && Valid()
      && (err <==> old(err) || n > |old(Left())|)
      && (if err then pos == old(pos) else Left() == old(Left())[n..])
    }

    method U1() returns (v: byte)
      requires Valid()
      modifies this
      ensures Took(1) && v == if err then 0 else old(Left())[0]
    {
      var ok := Need(1);
      if !ok { return 0; }
      v := b[pos];
      pos := pos + 1;
    }

    method U2() returns (v: u16)
      requires Valid()
      modifies this
      ensures Took(2) && v == if err then 0 else Value2(old(Left()))
    {
      var ok := Need(2);
      if !ok { return 0; }
      v := (b[pos] as int) * 256 + b[pos + 1] as int;
      pos := pos + 2;
    }

    method U4() returns (v: int)
      requires Valid()
      modifies this
      ensures Took(4) && v == if err then 0 else Value4(old(Left()))
    {
      var ok := Need(4);
      if !ok { return 0; }
      v := (((b[pos] as int) * 256 + b[pos + 1] as int) * 256 + b[pos + 2] as int) * 256 + b[pos + 3] as int;
      pos := pos + 4;
    }

    method Str(n: nat) returns (v: seq<byte>)
      requires Valid()
      modifies this
      ensures Took(n) && v == if err then [] else old(Left())[..n]
    {
      var ok := Need(n);
      if !ok { return []; }
      v := b[pos..pos + n];
      pos := pos + n;
    }

    method ReadConstEntry(i: nat, tb: Tables) returns (twoSlot: bool, known: bool, tb': Tables)
      requires Valid() && !err
      modifies this
      ensures Valid()
      ensures match ReadEntry(old(Left()))
        case Got(e, left) => known && !err && Left() == left && twoSlot == e.Wide? && tb' == Record(tb, i, e)
        case Short => err
        case Unknown => !known && !err
    {
      twoSlot, known, tb' := false, true, tb;
      var tag := U1();
      if tag == 1 {
        var n := U2();
        var text := Str(n);
        tb' := tb.(utf8s := tb.utf8s[i := text]);
      } else if tag == 7 {
        var name := U2();
        tb' := tb.(classes := tb.classes[i := name]);
      } else if tag in {8, 16, 19, 20} {
        var _ := U2();
      } else if tag in {3, 4, 9, 10, 11, 12, 17, 18} {
        var _ := U4();
      } else if tag in {5, 6} {
        var _ := U4();
        var _ := U4();
        twoSlot := true;
      } else if tag == 15 {
        var _ := U1();
        var _ := U2();
      } else {
        known := false;
      }
    }

    method ParseConstantPool(count: nat) returns (tb: Tables, ok: bool)
      requires Valid() && !err
      modifies this
      ensures Valid()
      ensures ok && !err <==> ParsePool(old(Left()), 1, count, Tables(map[], map[])).Parsed?
      ensures ok && !err ==> ParsePool(old(Left()), 1, count, Tables(map[], map[])) == Parsed(tb, Left())
    {
      ok := true;
      tb := Tables(map[], map[]);
      var i := 1;
      ghost var whole := ParsePool(Left(), 1, count, tb);
      while i < count
        invariant Valid() && i >= 1
        invariant if err then whole.Malformed? else whole == ParsePool(Left(), i, count, tb)
        decreases count - i
      {
        if err { return tb, false; }
        var twoSlot, known;
        twoSlot, known, tb := ReadConstEntry(i, tb);
        if !known { return tb, false; }
        i := i + if twoSlot then 2 else 1;
      }
    }
  }

  function Value4(s: seq<byte>): int
    requires |s| >= 4
  {
    (((s[0] as int) * 256 + s[1] as int) * 256 + s[2] as int) * 256 + s[3] as int
  }

  // -------- the class file: header, pool and the two fields after it

  datatype ClassBytes = ClassBytes(minor: u16, major: u16, count: u16, pool: seq<Entry>, access: u16, thisClass: u16, tail: seq<byte>)

  ghost predicate WellFormedClass(c: ClassBytes) {
    c.count > 0 && WellFormed(c.pool, 1, c.count)
  }

  const MAGIC: seq<byte> := [0xCA, 0xFE, 0xBA, 0xBE]

  function EncodeClass(c: ClassBytes): seq<byte>
    requires forall e :: e in c.pool ==> Valid(e)
  {
    MAGIC + (U2(c.minor) + (U2(c.major) + (U2(c.count) + (EncodeAll(c.pool) + (U2(c.access) + (U2(c.thisClass) + c.tail))))))
  }

  datatype ApiResult = Api(count: nat, thisClass: u16, tables: Tables) | NotClass

  /** What classAPI extracts, as a function of the bytes. */
  function ApiOf(data: seq<byte>): ApiResult {
    if |data| < 4 || Value4(data) != 0xCAFEBABE then NotClass
    else
      var h := data[4..];
      if |h| < 6 || Value2(h[2..][2..]) == 0 then NotClass
      else
        var count := Value2(h[2..][2..]);
        match ParsePool(h[2..][2..][2..], 1, count, Tables(map[], map[]))
        case Malformed => NotClass
        case Parsed(tb, left) => if |left| < 4 then NotClass else Api(count, Value2(left[2..]), tb)
  }

  method ClassAPI(data: seq<byte>) returns (r: ApiResult)
    ensures r == ApiOf(data)
  {
    hide ParsePool, Value4, Value2;
    var rd := new Reader(data);
    var magic := rd.U4();
    if magic != 0xCAFEBABE { return NotClass; }
    ghost var h := rd.Left();
    assert !rd.err && h == data[4..];
    var _ := rd.U2();
    var _ := rd.U2();
    var count := rd.U2();
    assert rd.err <==> |h| < 6;
    if count == 0 { return NotClass; }
    assert !rd.err && rd.Left() == h[2..][2..][2..];
    var tb, ok := rd.ParseConstantPool(count);
    if !ok { return NotClass; }
    var _ := rd.U2();
    var thisClass := rd.U2();
    if rd.err { return NotClass; }
    return Api(count, thisClass, tb);
  }

  lemma Value2Shift(n: u16, rest: seq<byte>)
    ensures |U2(n)| == 2 && Value2(U2(n) + rest) == n && (U2(n) + rest)[2..] == rest
  {
    Value2OfU2(n, rest);
  }

  /** An encoded class file yields its own pool's tables and its own this_class. */
  lemma ApiRoundTrip(c: ClassBytes)
    requires WellFormedClass(c)
    ensures ApiOf(EncodeClass(c)) == Api(c.count, c.thisClass, RecordAll(c.pool, 1, Tables(map[], map[])))
    ensures Describes(RecordAll(c.pool, 1, Tables(map[], map[])), c.pool, 1)
  {
    var after := U2(c.access) + (U2(c.thisClass) + c.tail);
    var pool := EncodeAll(c.pool) + after;
    var h := U2(c.minor) + (U2(c.major) + (U2(c.count) + pool));
    assert EncodeClass(c) == MAGIC + h;
    Cut(MAGIC, h);
    assert Value4(EncodeClass(c)) == 0xCAFEBABE;
    Value2Shift(c.minor, U2(c.major) + (U2(c.count) + pool));
    Value2Shift(c.major, U2(c.count) + pool);
    Value2Shift(c.count, pool);
    PoolRoundTrip(c.pool, after, 1, c.count, Tables(map[], map[]));
    Value2Shift(c.access, U2(c.thisClass) + c.tail);
    Value2Shift(c.thisClass, c.tail);
    TablesDescribe(c.pool, 1);
    hide EncodeClass, ParsePool, RecordAll, Value2, U2, Value4, EncodeAll;
    assert |h| >= 6 && |after| >= 4;
  }

  lemma MagicBytes(data: seq<byte>)
    requires |data| >= 4 && Value4(data) == 0xCAFEBABE
    ensures data[..4] == MAGIC
  {}

  lemma TakeU2(s: seq<byte>)
    requires |s| >= 2
    ensures s == U2(Value2(s)) + s[2..]
  {
    U2OfValue2(s);
    Rejoin(s, 2);
  }

  /** Whatever classAPI accepts is a class file, header to this_class, with every read in bounds. */
  lemma ApiIsEncoded(data: seq<byte>) returns (c: ClassBytes)
    requires ApiOf(data).Api?
    ensures WellFormedClass(c) && data == EncodeClass(c)
  {
    var h := data[4..];
    var h2 := h[2..];
    var h4 := h2[2..];
    var body := h4[2..];
    MagicBytes(data);
    Rejoin(data, 4);
    TakeU2(h);
    TakeU2(h2);
    TakeU2(h4);
    var none := Tables(map[], map[]);
    var es := ParsedIsEncoded(body, 1, Value2(h4), none);
    var left := ParsePool(body, 1, Value2(h4), none).left;
    TakeU2(left);
    TakeU2(left[2..]);
    c := ClassBytes(Value2(h), Value2(h2), Value2(h4), es, Value2(left), Value2(left[2..]), left[2..][2..]);
  }
}
