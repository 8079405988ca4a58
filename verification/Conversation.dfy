/** The agent's bounded message log (internal/agent/conversation.go), against the log that
    is never trimmed. */
module Conversation {

  /** A message: its role, and the ids of the tool calls it makes and of the results it carries. */
  datatype Role = User | Assistant | Tool | System
  datatype Message = Message(role: Role, text: string, calls: set<string>, results: set<string>)

  function UserMessage(text: string): (m: Message)
    ensures m.role.User? && m.text == text && m.calls == {} && m.results == {}
  {
    Message(User, text, {}, {})
  }

  function Users(s: seq<Message>): nat {
    if s == [] then 0 else (if s[0].role.User? then 1 else 0) + Users(s[1..])
  }

  lemma {:induction false} UsersConcat(a: seq<Message>, b: seq<Message>)
    ensures Users(a + b) == Users(a) + Users(b)
    decreases |a|
  {
    if a == [] {
      assert a + b == b;
    } else {
      assert (a + b)[1..] == a[1..] + b;
      UsersConcat(a[1..], b);
    }
  }

  /** Where the n-th last turn opens. */
  function TurnStart(s: seq<Message>, n: nat): (i: nat)
    requires 0 < n <= Users(s)
    ensures i < |s| && s[i].role.User? && Users(s[i..]) == n
  {
    if s[0].role.User? && Users(s) == n then 0
    else
      var i := TurnStart(s[1..], n);
      assert s[1..][i..] == s[i + 1..];
      i + 1
  }

  /** The last n turns, or the whole log when it has no more turns than that or n is not positive. */
  function Kept(s: seq<Message>, n: int): seq<Message> {
    s[CutAt(s, n)..]
  }

  function CutAt(s: seq<Message>, n: int): (c: nat)
    ensures c <= |s|
  {
    if n <= 0 || Users(s) <= n then 0 else TurnStart(s, n)
  }

  /** Behind a user message fewer users are left. */
  lemma UsersDrop(s: seq<Message>, a: nat, b: nat)
    requires a <= b <= |s|
    ensures Users(s[a..]) == Users(s[a..b]) + Users(s[b..])
    ensures a < b && s[a].role.User? ==> Users(s[a..]) > Users(s[b..])
  {
    assert s[a..] == s[a..b] + s[b..];
    UsersConcat(s[a..b], s[b..]);
    assert a < b ==> s[a..b][0] == s[a];
  }

  /** Of a log longer than n turns exactly those messages are kept that fewer than n users follow. */
  lemma KeptIff(s: seq<Message>, n: int, k: nat)
    requires k < |s|
    ensures k >= CutAt(s, n) <==> n <= 0 || Users(s) <= n || Users(s[k + 1..]) < n
  {
    hide Users, TurnStart;
    if n > 0 && Users(s) > n {
      var c := TurnStart(s, n);
      if k < c { UsersDrop(s, k + 1, c); } else { UsersDrop(s, c, k + 1); }
    }
  }

  /** Only a log that opens its n-th last turn at i is cut at i. */
  lemma CutUnique(s: seq<Message>, n: nat, i: nat)
    requires i < |s| && s[i].role.User? && Users(s[i..]) == n
    ensures Users(s) >= n > 0 && TurnStart(s, n) == i
  {
    UsersDrop(s, 0, i);
    UsersDrop(s, i, |s|);
    assert s[0..] == s && s[|s|..] == [];
    hide Users;
    var c := TurnStart(s, n);
    if c < i { UsersDrop(s, c, i); } else if i < c { UsersDrop(s, i, c); }
  }

  /** Trimming early loses nothing that trimming late would keep. */
  lemma KeptAppend(s: seq<Message>, x: seq<Message>, n: int)
    ensures Kept(Kept(s, n) + x, n) == Kept(s + x, n)
  {
    if n > 0 && Users(s) > n {
      var c := TurnStart(s, n);
      var r, full := s[c..] + x, s + x;
      UsersConcat(s[c..], x);
      UsersConcat(s, x);
      assert full[c..] == r;
      hide Users;
      if Users(r) <= n {
        CutUnique(full, n, c);
      } else {
        var d := TurnStart(r, n);
        assert full[c + d..] == r[d..];
        CutUnique(full, n, c + d);
      }
    }
  }

  // -------- runs

  datatype Op = AddUser(text: string) | AddTurn(msgs: seq<Message>) | Clear

  function Step(kept: seq<Message>, n: int, op: Op): seq<Message> {
    match op
    case AddUser(text) => Kept(kept + [UserMessage(text)], n)
    case AddTurn(msgs) => Kept(kept + msgs, n)
    case Clear => []
  }

  function After(ops: seq<Op>, n: int): seq<Message> {
    if ops == [] then [] else Step(After(ops[..|ops| - 1], n), n, ops[|ops| - 1])
  }

  /** The log nobody trims: everything added since the last Clear. */
  function Log(ops: seq<Op>): seq<Message> {
    if ops == [] then []
    else
      match ops[|ops| - 1]
      case AddUser(text) => Log(ops[..|ops| - 1]) + [UserMessage(text)]
      case AddTurn(msgs) => Log(ops[..|ops| - 1]) + msgs
      case Clear => []
  }

  /** After any run the retained messages are one cut of the log that was never trimmed. */
  lemma {:induction false} RunIsOneCut(ops: seq<Op>, n: int)
    ensures After(ops, n) == Kept(Log(ops), n)
    decreases |ops|
  {
    if ops != [] {
      var before := ops[..|ops| - 1];
      RunIsOneCut(before, n);
      match ops[|ops| - 1]
      case AddUser(text) => KeptAppend(Log(before), [UserMessage(text)], n);
      case AddTurn(msgs) => KeptAppend(Log(before), msgs, n);
      case Clear =>
    }
  }

  /** At most n turns are held, and as many as there were. */
  lemma TurnsHeld(ops: seq<Op>, n: int)
    requires n > 0
    ensures Users(After(ops, n)) == if Users(Log(ops)) < n then Users(Log(ops)) else n
  {
    RunIsOneCut(ops, n);
  }

  // -------- tool results and their calls

  /** Message i makes call id, j carries its result, and no turn opens in between. */
  predicate Answers(s: seq<Message>, i: nat, j: nat, id: string)
    requires j < |s|
  {
    i < j && id in s[i].calls && id in s[j].results && Users(s[i + 1..j + 1]) == 0
  }

  ghost predicate Answered(s: seq<Message>, j: nat, id: string)
    requires j < |s|
  {
    exists i: nat :: Answers(s, i, j, id)
  }

  /** Every result has its call earlier in the same turn. */
  ghost predicate Paired(s: seq<Message>) {
    forall j: nat, id {:trigger id in s[j].results} :: j < |s| && id in s[j].results ==> Answered(s, j, id)
  }

  /** A retained message keeps every earlier message of its turn. */
  lemma SameTurnKept(s: seq<Message>, n: int, i: nat, j: nat)
    requires i <= j < |s| && Users(s[i + 1..j + 1]) == 0
    ensures j >= CutAt(s, n) ==> i >= CutAt(s, n)
  {
    KeptIff(s, n, i);
    KeptIff(s, n, j);
    UsersDrop(s, i + 1, j + 1);
  }

  lemma KeptPaired(s: seq<Message>, n: int)
    requires Paired(s)
    ensures Paired(Kept(s, n))
  {
    var c, r := CutAt(s, n), Kept(s, n);
    assert r == s[c..];
    hide Kept, CutAt, Answered;
    forall j: nat, id | j < |r| && id in r[j].results
      ensures Answered(r, j, id)
    {
      assert r[j] == s[c + j];
      AnswerKept(s, n, c + j, id);
    }
  }

  lemma AnswerKept(s: seq<Message>, n: int, j: nat, id: string)
    requires CutAt(s, n) <= j < |s| && Answered(s, j, id)
    ensures Answered(Kept(s, n), j - CutAt(s, n), id)
  {
    hide Users, CutAt;
    var i: nat :| Answers(s, i, j, id);
    SameTurnKept(s, n, i, j);
    AnswerShift(s, CutAt(s, n), i, j, id);
    assert Answers(Kept(s, n), i - CutAt(s, n), j - CutAt(s, n), id);
  }

  lemma AnswerShift(s: seq<Message>, c: nat, i: nat, j: nat, id: string)
    requires c <= i && j < |s| && Answers(s, i, j, id)
    ensures Answers(s[c..], i - c, j - c, id)
  {
    Slice(s, c, i + 1, j + 1);
    assert s[c..][i - c] == s[i] && s[c..][j - c] == s[j];
    hide Users;
  }

  lemma Slice(s: seq<Message>, c: nat, a: nat, b: nat)
    requires c <= a <= b <= |s|
    ensures s[c..][a - c..b - c] == s[a..b]
  {}

  lemma PairedConcat(a: seq<Message>, b: seq<Message>)
    requires Paired(a) && Paired(b)
    ensures Paired(a + b)
  {
    var s := a + b;
    forall j: nat, id | j < |s| && id in s[j].results
      ensures Answered(s, j, id)
    {
      if j < |a| {
        assert id in a[j].results;
        var i: nat :| Answers(a, i, j, id);
        assert s[i + 1..j + 1] == a[i + 1..j + 1];
        assert Answers(s, i, j, id);
      } else {
        assert id in b[j - |a|].results;
        var i: nat :| Answers(b, i, j - |a|, id);
        assert s[|a| + i + 1..j + 1] == b[i + 1..j - |a| + 1];
        assert Answers(s, |a| + i, j, id);
      }
    }
  }

  /** A log whose results share a turn with their calls is cut to one that does too. */
  lemma PairedStays(ops: seq<Op>, n: int)
    requires Paired(Log(ops))
    ensures Paired(After(ops, n))
  {
    RunIsOneCut(ops, n);
    KeptPaired(Log(ops), n);
  }

  /** That is so when every reply brings its results together with their calls. */
  lemma {:induction false} RepliesPaired(ops: seq<Op>)
    requires forall k :: 0 <= k < |ops| && ops[k].AddTurn? ==> Paired(ops[k].msgs)
    ensures Paired(Log(ops))
    decreases |ops|
  {
    NothingPaired();
    if ops != [] {
      var before, op := ops[..|ops| - 1], ops[|ops| - 1];
      RepliesPaired(before);
      hide Paired;
      match op
      case AddUser(text) =>
        PlainPaired(text);
        PairedConcat(Log(before), [UserMessage(text)]);
      case AddTurn(msgs) =>
        PairedConcat(Log(before), msgs);
      case Clear =>
    }
  }

  // -------- exactly which logs are safe to trim

  /** Message i makes call id before j. */
  predicate Calls(s: seq<Message>, i: nat, j: nat, id: string)
    requires j < |s|
  {
    i < j && id in s[i].calls
  }

  ghost predicate Called(s: seq<Message>, j: nat, id: string)
    requires j < |s|
  {
    exists i: nat :: Calls(s, i, j, id)
  }

  /** No result without its call before it. */
  ghost predicate NoOrphans(s: seq<Message>) {
    forall j: nat, id {:trigger id in s[j].results} :: j < |s| && id in s[j].results ==> Called(s, j, id)
  }

  /** No cut comes between the call and j: they share a turn, or no second turn has opened up to j. */
  predicate Tied(s: seq<Message>, i: nat, j: nat, id: string)
    requires j < |s|
  {
    Calls(s, i, j, id) && (Users(s[i + 1..j + 1]) == 0 || Users(s[..j + 1]) <= 1)
  }

  ghost predicate HasTie(s: seq<Message>, j: nat, id: string)
    requires j < |s|
  {
    exists i: nat :: Tied(s, i, j, id)
  }

  ghost predicate Safe(s: seq<Message>) {
    forall j: nat, id {:trigger id in s[j].results} :: j < |s| && id in s[j].results ==> HasTie(s, j, id)
  }

  lemma TiedKept(s: seq<Message>, n: int, i: nat, j: nat, id: string)
    requires j < |s| && Tied(s, i, j, id) && j >= CutAt(s, n)
    ensures i >= CutAt(s, n)
  {
    if Users(s[i + 1..j + 1]) == 0 {
      SameTurnKept(s, n, i, j);
    } else if n > 0 && Users(s) > n {
      TwoTurns(s, n, j);
    }
  }

  /** A cut that drops something comes after a first turn. */
  lemma TwoTurns(s: seq<Message>, n: nat, j: nat)
    requires 0 < n < Users(s) && TurnStart(s, n) <= j < |s|
    ensures Users(s[..j + 1]) >= 2
  {
    var c := TurnStart(s, n);
    assert s[0..] == s && s[0..j + 1] == s[..j + 1];
    UsersDrop(s, 0, j + 1);
    UsersDrop(s, c, j + 1);
  }

  lemma SafeKept(s: seq<Message>, n: int)
    requires Safe(s)
    ensures NoOrphans(Kept(s, n))
  {
    var c, r := CutAt(s, n), Kept(s, n);
    assert r == s[c..];
    hide Kept, CutAt, HasTie, Called;
    forall j: nat, id | j < |r| && id in r[j].results
      ensures Called(r, j, id)
    {
      assert r[j] == s[c + j];
      CalledKept(s, n, c + j, id);
    }
  }

  lemma CalledKept(s: seq<Message>, n: int, j: nat, id: string)
    requires CutAt(s, n) <= j < |s| && HasTie(s, j, id)
    ensures Called(Kept(s, n), j - CutAt(s, n), id)
  {
    hide Users, CutAt, Tied;
    var c := CutAt(s, n);
    var i: nat :| Tied(s, i, j, id);
    TiedKept(s, n, i, j, id);
    TiedCalls(s, i, j, id);
    assert s[c..][i - c] == s[i];
    assert Calls(Kept(s, n), i - c, j - c, id);
  }

  lemma TiedCalls(s: seq<Message>, i: nat, j: nat, id: string)
    requires j < |s| && Tied(s, i, j, id)
    ensures Calls(s, i, j, id)
  {}

  /** The bound under which j's turn is the first one held. */
  function Tightest(s: seq<Message>, j: nat): nat
    requires j < |s|
  {
    Users(s[j + 1..]) + 1
  }

  lemma CutAtTightest(s: seq<Message>, i: nat, j: nat, id: string)
    requires j < |s| && Calls(s, i, j, id) && i >= CutAt(s, Tightest(s, j))
    ensures Tied(s, i, j, id)
  {
    var n := Tightest(s, j);
    KeptIff(s, n, i);
    UsersDrop(s, i + 1, j + 1);
    UsersDrop(s, 0, j + 1);
    assert s[0..] == s && s[0..j + 1] == s[..j + 1];
  }

  lemma OrphanlessIsTied(s: seq<Message>, j: nat, id: string)
    requires j < |s| && id in s[j].results && NoOrphans(Kept(s, Tightest(s, j)))
    ensures HasTie(s, j, id)
  {
    var n := Tightest(s, j);
    KeptIff(s, n, j);
    var c, r := CutAt(s, n), Kept(s, n);
    assert r == s[c..] && c <= j;
    hide CutAt, Kept, Users, Tied, Tightest;
    assert r[j - c] == s[j];
    var i: nat :| Calls(r, i, j - c, id);
    assert s[c + i] == r[i];
    assert Calls(s, c + i, j, id);
    CutAtTightest(s, c + i, j, id);
  }

  /** Whatever the bound, no result is retained without its call. */
  ghost predicate EverWhole(ops: seq<Op>) {
    forall n: int :: NoOrphans(After(ops, n))
  }

  /** That is so exactly when each result of the untrimmed log is tied to a call. */
  lemma NeverOrphaned(ops: seq<Op>)
    ensures EverWhole(ops) <==> Safe(Log(ops))
  {
    hide NoOrphans, After, Log, Kept, Safe;
    forall n: int
      ensures NoOrphans(After(ops, n)) <==> NoOrphans(Kept(Log(ops), n))
    {
      RunIsOneCut(ops, n);
    }
    if Safe(Log(ops)) {
      forall n: int
        ensures NoOrphans(After(ops, n))
      {
        SafeKept(Log(ops), n);
      }
    } else if EverWhole(ops) {
      forall n: int
        ensures NoOrphans(Kept(Log(ops), n))
      {
        assert NoOrphans(After(ops, n));
      }
      OrphanlessIsSafe(Log(ops));
    }
  }

  /** In particular when every reply brings its results together with their calls. */
  lemma RepliesNeverOrphaned(ops: seq<Op>)
    requires forall k :: 0 <= k < |ops| && ops[k].AddTurn? ==> Paired(ops[k].msgs)
    ensures EverWhole(ops)
  {
    RepliesPaired(ops);
    NeverOrphaned(ops);
    hide EverWhole, Log, Users;
    var s := Log(ops);
    forall j: nat, id | j < |s| && id in s[j].results
      ensures HasTie(s, j, id)
    {
      var i: nat :| Answers(s, i, j, id);
      assert Tied(s, i, j, id);
    }
  }

  lemma OrphanlessIsSafe(s: seq<Message>)
    requires forall n: int :: NoOrphans(Kept(s, n))
    ensures Safe(s)
  {
    hide NoOrphans, Kept, HasTie, Tightest;
    forall j: nat, id | j < |s| && id in s[j].results
      ensures HasTie(s, j, id)
    {
      assert NoOrphans(Kept(s, Tightest(s, j)));
      OrphanlessIsTied(s, j, id);
    }
  }

  lemma PlainPaired(text: string)
    ensures Paired([UserMessage(text)])
  {}

  lemma NothingPaired()
    ensures Paired([])
  {}

  /** A result handed over in a later turn than its call can lose the call. */
  lemma LateResultOrphaned(call: Message, result: Message)
    requires call == Message(Assistant, "", {"c"}, {}) && result == Message(Tool, "", {}, {"c"})
    ensures
      var ops := [AddUser("a"), AddTurn([call]), AddUser("b"), AddTurn([result])];
      After(ops, 1) == [UserMessage("b"), result] && !NoOrphans(After(ops, 1))
  {
    var a, b := UserMessage("a"), UserMessage("b");
    var ops := [AddUser("a"), AddTurn([call]), AddUser("b"), AddTurn([result])];
    var kept := [b, result];
    RunIsOneCut(ops, 1);
    LogOf4("a", [call], "b", [result]);
    hide After, Log, Users, UserMessage;
    var s := [a, call] + kept;
    assert [a] + [call] + [b] + [result] == s;
    LastTwoKept(a, call, b, result);
    LostCall(b, result);
  }

  lemma LastTwoKept(a: Message, call: Message, b: Message, result: Message)
    requires a.role.User? && !call.role.User? && b.role.User? && !result.role.User?
    ensures Kept([a, call] + [b, result], 1) == [b, result]
  {
    var s := [a, call] + [b, result];
    UsersOfTwo(b, result);
    UsersOfTwo(a, call);
    UsersConcat([a, call], [b, result]);
    assert s[2..] == [b, result];
    CutUnique(s, 1, 2);
  }

  lemma LostCall(b: Message, result: Message)
    requires b.calls == {} && "c" in result.results
    ensures !NoOrphans([b, result])
  {
    var kept := [b, result];
    assert "c" in kept[1].results;
    assert forall i: nat :: !Calls(kept, i, 1, "c");
  }

  lemma UsersOfTwo(x: Message, y: Message)
    ensures Users([x, y]) == (if x.role.User? then 1 else 0) + if y.role.User? then 1 else 0
  {
    assert [x, y][1..] == [y] && [y][1..] == [];
    assert Users([y]) == if y.role.User? then 1 else 0;
  }

  lemma LogOf4(a: string, x: seq<Message>, b: string, y: seq<Message>)
    ensures Log([AddUser(a), AddTurn(x), AddUser(b), AddTurn(y)]) == [UserMessage(a)] + x + [UserMessage(b)] + y
  {
    var ops := [AddUser(a), AddTurn(x), AddUser(b), AddTurn(y)];
    assert ops[..3] == [AddUser(a), AddTurn(x), AddUser(b)];
    assert ops[..3][..2] == [AddUser(a), AddTurn(x)];
    assert ops[..3][..2][..1] == [AddUser(a)];
    assert Log([AddUser(a)]) == [UserMessage(a)];
    assert Log(ops[..3][..2]) == [UserMessage(a)] + x;
    assert Log(ops[..3]) == [UserMessage(a)] + x + [UserMessage(b)];
  }

  // -------- the conversation as the source writes it

  class Conversation {
    var msgs: seq<Message>
    const maxTurns: int

    constructor (maxTurns: int)
      ensures msgs == [] && this.maxTurns == maxTurns
    {
      msgs := [];
      this.maxTurns := maxTurns;
    }

    method AddUser(text: string)
      modifies this
      ensures msgs == Step(old(msgs), maxTurns, Op.AddUser(text))
    {
      msgs := msgs + [UserMessage(text)];
      Trim();
    }

    method AddTurnMessages(turn: seq<Message>)
      modifies this
      ensures msgs == Step(old(msgs), maxTurns, Op.AddTurn(turn))
    {
      msgs := msgs + turn;
      Trim();
    }

    method Clear()
      modifies this
      ensures msgs == Step(old(msgs), maxTurns, Op.Clear)
    {
      msgs := [];
    }

    method Trim()
      modifies this
      ensures msgs == Kept(old(msgs), maxTurns)
    {
      if maxTurns <= 0 { return; }
      var userIdx: seq<nat> := [];
      for i := 0 to |msgs|
        invariant msgs == old(msgs) && |userIdx| == Users(msgs[..i])
        invariant forall k :: 0 <= k < |userIdx| ==>
                    && userIdx[k] < i && userIdx[k] < |msgs| && msgs[userIdx[k]].role.User?
                    && Users(msgs[..userIdx[k]]) == k
      {
        assert msgs[..i + 1] == msgs[..i] + [msgs[i]];
        UsersConcat(msgs[..i], [msgs[i]]);
        if msgs[i].role.User? { userIdx := userIdx + [i]; }
      }
      assert msgs[..|msgs|] == msgs;
      if |userIdx| <= maxTurns { return; }
      var cut := userIdx[|userIdx| - maxTurns];
      assert msgs == msgs[..cut] + msgs[cut..];
      UsersConcat(msgs[..cut], msgs[cut..]);
      CutUnique(msgs, maxTurns, cut);
      msgs := msgs[cut..];
    }
  }
}
