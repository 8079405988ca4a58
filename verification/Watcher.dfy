/** Write debouncing in the filesystem watcher (internal/indexing/watcher.go). Steps are the
    critical sections under the mutex and the events of the timer runtime; any interleaving
    of them is a run. */
module Watcher {

  type Path = string

  /** A timer is Pending until it is stopped or fires; a fired callback then takes the lock,
      where it either gives up or commits to re-index, which it does after unlocking. */
  datatype Status = Pending | Stopped | Fired | GaveUp | Committed | Finished

  datatype Timer = Timer(path: Path, status: Status)

  datatype Note = Wrote(path: Path) | Commits(path: Path) | Reindexes(path: Path)

  /** `timers` is the shared map; `all` holds every timer ever made, in order of creation. */
  datatype State = State(timers: map<Path, nat>, all: seq<Timer>, log: seq<Note>)

  const IDLE := State(map[], [], [])

  datatype Event =
    | Write(path: Path)     // debounce, under the lock
    | Expire(id: nat)       // the runtime starts the callback
    | Enter(id: nat)        // the callback holds the lock
    | Handle(id: nat)       // handleCreate, after unlocking
    | Cancel                // cancelTimers, under the lock

  // -------- one step

  predicate Is(s: State, id: nat, status: Status) {
    id < |s.all| && s.all[id].status == status
  }

  predicate Registered(s: State, id: nat) {
    id < |s.all| && s.all[id].path in s.timers && s.timers[s.all[id].path] == id
  }

  function Mark(s: State, id: nat, status: Status): State
    requires id < |s.all|
  {
    s.(all := s.all[id := s.all[id].(status := status)])
  }

  /** Stop prevents a pending timer from firing and does nothing to one that already did. */
  function Stop(s: State, id: nat): State {
    if Is(s, id, Pending) then Mark(s, id, Stopped) else s
  }

  function Step(s: State, e: Event): State {
    match e
    case Write(p) =>
      var t := if p in s.timers then Stop(s, s.timers[p]) else s;
      State(t.timers[p := |t.all|], t.all + [Timer(p, Pending)], t.log + [Wrote(p)])
    case Expire(id) => if Is(s, id, Pending) then Mark(s, id, Fired) else s
    case Enter(id) =>
      if !Is(s, id, Fired) then s
      else if !Registered(s, id) then Mark(s, id, GaveUp)
      else
        var p := s.all[id].path;
        Mark(s, id, Committed).(timers := s.timers - {p}, log := s.log + [Commits(p)])
    case Handle(id) => if Is(s, id, Committed) then Mark(s, id, Finished).(log := s.log + [Reindexes(s.all[id].path)]) else s
    case Cancel => s.(all := StopAll(s, s.timers.Keys))
  }

  /** Stop called on the registered timers of these paths. */
  function StopAll(s: State, paths: set<Path>): (all: seq<Timer>)
    ensures |all| == |s.all|
    ensures forall i :: 0 <= i < |s.all| ==>
      all[i] == if Registered(s, i) && s.all[i].path in paths && s.all[i].status == Pending then s.all[i].(status := Stopped) else s.all[i]
  {
    seq(|s.all|, i requires 0 <= i < |s.all| =>
      if Registered(s, i) && s.all[i].path in paths && s.all[i].status == Pending then s.all[i].(status := Stopped) else s.all[i])
  }

  lemma StopNone(s: State)
    ensures StopAll(s, {}) == s.all
  {}

  lemma StopOneMore(s: State, paths: set<Path>, p: Path)
    requires p in s.timers && s.timers[p] < |s.all| && s.all[s.timers[p]].path == p
    ensures StopAll(s, paths + {p}) == Stop(State(s.timers, StopAll(s, paths), s.log), s.timers[p]).all
  {}

  ghost function Run(events: seq<Event>): State {
    if events == [] then IDLE else Step(Run(events[..|events| - 1]), events[|events| - 1])
  }

  class Debouncer {
    var timers: map<Path, nat>
    var all: seq<Timer>
    ghost var log: seq<Note>

    constructor ()
      ensures View() == IDLE
    {
      timers, all, log := map[], [], [];
    }

    ghost function View(): State
      reads this
    {
      State(timers, all, log)
    }

    method StopTimer(id: nat)
      modifies this`all
      ensures View() == Stop(old(View()), id)
    {
      if id < |all| && all[id].status == Pending {
        all := all[id := all[id].(status := Stopped)];
      }
    }

    method Debounce(path: Path)
      modifies this
      ensures View() == Step(old(View()), Write(path))
    {
      if path in timers {
        StopTimer(timers[path]);
      }
      timers := timers[path := |all|];
      all := all + [Timer(path, Pending)];
      log := log + [Wrote(path)];
    }

    /** The timer callback of path up to its unlock; true when it goes on to handleCreate. */
    method Callback(id: nat, path: Path) returns (handles: bool)
      requires Is(View(), id, Fired) && all[id].path == path
      modifies this
      ensures View() == Step(old(View()), Enter(id)) && handles == Registered(old(View()), id)
    {
      if !(path in timers && timers[path] == id) {
        all := all[id := all[id].(status := GaveUp)];
        return false;
      }
      timers := timers - {path};
      all := all[id := all[id].(status := Committed)];
      log := log + [Commits(path)];
      return true;
    }

    method CancelTimers()
      requires forall p :: p in timers ==> timers[p] < |all| && all[timers[p]].path == p
      modifies this`all
      ensures View() == Step(old(View()), Cancel)
    {
      var todo := timers.Keys;
      hide Stop, StopAll, Registered, Is, Mark;
      ghost var before := View();
      StopNone(before);
      assert timers.Keys - timers.Keys == {};
      while todo != {}
        invariant todo <= timers.Keys && all == StopAll(before, timers.Keys - todo)
        decreases |todo|
      {
        var p :| p in todo;
        StopOneMore(before, timers.Keys - todo, p);
        assert timers.Keys - (todo - {p}) == (timers.Keys - todo) + {p};
        todo := todo - {p};
        StopTimer(timers[p]);
      }
      assert timers.Keys - {} == timers.Keys;
    }
  }

  // -------- what every interleaving keeps

  /** A registered timer is its path's newest, and every timer but the newest is past pending. */
  ghost predicate Tidy(s: State) {
    && (forall p :: p in s.timers ==> s.timers[p] < |s.all| && s.all[s.timers[p]].path == p)
    && (forall p, i :: p in s.timers && 0 <= i < |s.all| && s.all[i].path == p ==> i <= s.timers[p])
    && (forall i :: 0 <= i < |s.all| && s.all[i].status == Pending ==> Registered(s, i))
    && (forall i: nat :: Registered(s, i) ==> s.all[i].status in {Pending, Stopped, Fired})
  }

  lemma StopTidy(s: State, p: Path)
    requires Tidy(s) && p in s.timers
    ensures
      var t := Stop(s, s.timers[p]);
      && t.timers == s.timers && |t.all| == |s.all|
      && (forall i :: 0 <= i < |s.all| ==> t.all[i].path == s.all[i].path && (i != s.timers[p] ==> t.all[i] == s.all[i]))
      && t.all[s.timers[p]].status != Pending
  {}

  lemma WriteTidy(s: State, p: Path)
    requires Tidy(s)
    ensures Tidy(Step(s, Write(p)))
  {
    var t := if p in s.timers then Stop(s, s.timers[p]) else s;
    if p in s.timers { StopTidy(s, p); }
    hide Stop, Is, Mark, Tidy;
    var s' := Step(s, Write(p));
    assert s'.timers == s.timers[p := |s.all|] && |s'.all| == |s.all| + 1;
    assert s'.all[|s.all|] == Timer(p, Pending) && forall i :: 0 <= i < |s.all| ==> s'.all[i] == t.all[i];
    NewestTidy(s, s', p);
  }

  /** A new timer, with the path's previous one no longer pending, keeps the state tidy. */
  lemma NewestTidy(s: State, s': State, p: Path)
    requires Tidy(s) && s'.timers == s.timers[p := |s.all|] && |s'.all| == |s.all| + 1
    requires s'.all[|s.all|] == Timer(p, Pending)
    requires forall i :: 0 <= i < |s.all| ==> s'.all[i].path == s.all[i].path
    requires forall i :: 0 <= i < |s.all| && !(p in s.timers && i == s.timers[p]) ==> s'.all[i] == s.all[i]
    requires p in s.timers ==> s'.all[s.timers[p]].status != Pending
    ensures Tidy(s')
  {
    forall i | 0 <= i < |s'.all| && s'.all[i].status == Pending
      ensures Registered(s', i)
    {
      if i < |s.all| {
        assert s.all[i].status == Pending && Registered(s, i) && s.all[i].path != p;
      }
    }
    forall i: nat | Registered(s', i)
      ensures s'.all[i].status in {Pending, Stopped, Fired}
    {
      if i < |s.all| { assert s.all[i].path != p && Registered(s, i); }
    }
  }

  lemma MarkTidy(s: State, id: nat, status: Status)
    requires Tidy(s) && id < |s.all| && status != Pending
    requires Registered(s, id) ==> status == Fired
    ensures Tidy(Mark(s, id, status))
  {
    var s' := Mark(s, id, status);
    assert forall i :: 0 <= i < |s.all| ==> s'.all[i].path == s.all[i].path;
    assert forall i: nat :: Registered(s', i) <==> Registered(s, i);
  }

  lemma CommitTidy(s: State, id: nat)
    requires Tidy(s) && Is(s, id, Fired) && Registered(s, id)
    ensures Tidy(Step(s, Enter(id)))
  {
    var s', p := Step(s, Enter(id)), s.all[id].path;
    assert forall i :: 0 <= i < |s.all| ==> s'.all[i].path == s.all[i].path && (i != id ==> s'.all[i] == s.all[i]);
    assert forall i: nat :: i < |s.all| ==> (Registered(s', i) <==> Registered(s, i) && i != id);
  }

  lemma StepTidy(s: State, e: Event)
    requires Tidy(s)
    ensures Tidy(Step(s, e))
  {
    hide Tidy;
    match e
    case Write(p) => WriteTidy(s, p);
    case Expire(id) => if Is(s, id, Pending) { MarkTidy(s, id, Fired); }
    case Enter(id) =>
      if Is(s, id, Fired) {
        if Registered(s, id) { CommitTidy(s, id); } else { MarkTidy(s, id, GaveUp); }
      }
    case Handle(id) => if Is(s, id, Committed) { HandleTidy(s, id); }
    case Cancel => CancelTidy(s);
  }

  lemma HandleTidy(s: State, id: nat)
    requires Tidy(s) && Is(s, id, Committed)
    ensures Tidy(Step(s, Handle(id)))
  {
    MarkTidy(s, id, Finished);
  }

  lemma CancelTidy(s: State)
    requires Tidy(s)
    ensures Tidy(Step(s, Cancel))
  {
    var s' := Step(s, Cancel);
    assert forall i :: 0 <= i < |s.all| ==> s'.all[i].path == s.all[i].path;
    assert forall i: nat :: Registered(s', i) <==> Registered(s, i);
  }

  lemma {:induction false} RunTidy(events: seq<Event>)
    ensures Tidy(Run(events))
    decreases |events|
  {
    if events != [] {
      RunTidy(events[..|events| - 1]);
      StepTidy(Run(events[..|events| - 1]), events[|events| - 1]);
    }
  }

  /** A newer timer for its path exists, and this one's callback has not gone on to re-index. */
  ghost predicate Superseded(s: State, id: nat) {
    && id < |s.all| && s.all[id].status !in {Committed, Finished}
    && exists newer :: id < newer < |s.all| && s.all[newer].path == s.all[id].path
  }

  lemma StaysSuperseded(s: State, e: Event, id: nat)
    requires Tidy(s) && Superseded(s, id)
    ensures Superseded(Step(s, e), id)
  {
    var newer :| id < newer < |s.all| && s.all[newer].path == s.all[id].path;
    assert !Registered(s, id);
    hide Tidy, Registered;
    var s' := Step(s, e);
    assert |s'.all| >= |s.all| && forall i :: 0 <= i < |s.all| ==> s'.all[i].path == s.all[i].path;
    assert s'.all[newer].path == s'.all[id].path;
    assert s'.all[id].status !in {Committed, Finished};
  }

  /** Once superseded, a timer never goes on to re-index, whatever happens afterwards. */
  lemma {:induction false} SupersededGivesUp(events: seq<Event>, more: seq<Event>, id: nat)
    requires Superseded(Run(events), id)
    ensures Superseded(Run(events + more), id)
    decreases |more|
  {
    if more == [] {
      assert events + more == events;
    } else {
      var front, e := more[..|more| - 1], more[|more| - 1];
      SupersededGivesUp(events, front, id);
      assert (events + more)[..|events + more| - 1] == events + front && (events + more)[|events + more| - 1] == e;
      RunTidy(events + front);
      hide Tidy, Step, Superseded;
      StaysSuperseded(Run(events + front), e, id);
    }
  }

  /** Commits to re-index p since its last write. */
  ghost function CommitsSince(log: seq<Note>, p: Path): nat {
    if log == [] then 0
    else
      var rest := CommitsSince(log[..|log| - 1], p);
      match log[|log| - 1]
      case Wrote(q) => if q == p then 0 else rest
      case Commits(q) => if q == p then rest + 1 else rest
      case Reindexes(_) => rest
  }

  /** Without cancellation: a path is registered exactly while its last write awaits its commit,
      its timer has not been stopped, and every commit has been handled or is about to be. */
  ghost predicate Owed(s: State) {
    && Tidy(s)
    && (forall p :: p in s.timers <==> Wrote(p) in s.log && CommitsSince(s.log, p) == 0)
    && (forall p :: Wrote(p) in s.log ==> CommitsSince(s.log, p) <= 1)
    && (forall i: nat :: Registered(s, i) ==> s.all[i].status != Stopped)
  }

  lemma LogPush(log: seq<Note>, n: Note, p: Path)
    ensures CommitsSince(log + [n], p) ==
      if n == Wrote(p) then 0 else CommitsSince(log, p) + if n == Commits(p) then 1 else 0
    ensures Wrote(p) in log + [n] <==> Wrote(p) in log || n == Wrote(p)
  {
    assert (log + [n])[..|log|] == log;
  }

  lemma WriteOwed(s: State, p: Path)
    requires Owed(s)
    ensures Owed(Step(s, Write(p)))
  {
    WriteTidy(s, p);
    if p in s.timers { StopTidy(s, p); }
    var s' := Step(s, Write(p));
    forall q
      ensures CommitsSince(s'.log, q) == if q == p then 0 else CommitsSince(s.log, q)
      ensures Wrote(q) in s'.log <==> Wrote(q) in s.log || q == p
    {
      LogPush(s.log, Wrote(p), q);
    }
    hide CommitsSince, Tidy;
    forall i: nat | Registered(s', i)
      ensures s'.all[i].status != Stopped
    {
      if i < |s.all| { assert s'.all[i].path != p && Registered(s, i) && i != if p in s.timers then s.timers[p] else i + 1; }
    }
  }

  lemma CommitOwed(s: State, id: nat)
    requires Owed(s) && Is(s, id, Fired) && Registered(s, id)
    ensures Owed(Step(s, Enter(id)))
  {
    CommitTidy(s, id);
    var s', p := Step(s, Enter(id)), s.all[id].path;
    forall q
      ensures CommitsSince(s'.log, q) == CommitsSince(s.log, q) + if q == p then 1 else 0
      ensures Wrote(q) in s'.log <==> Wrote(q) in s.log
    {
      LogPush(s.log, Commits(p), q);
    }
    hide CommitsSince, Tidy;
    assert forall i: nat :: Registered(s', i) ==> Registered(s, i) && s'.all[i] == s.all[i];
  }

  lemma MarkOwed(s: State, id: nat, status: Status)
    requires Owed(s) && id < |s.all| && status !in {Pending, Stopped} && (Registered(s, id) ==> status == Fired)
    ensures Owed(Mark(s, id, status))
  {
    MarkTidy(s, id, status);
    assert forall i: nat :: Registered(Mark(s, id, status), i) <==> Registered(s, i);
    hide Tidy, CommitsSince;
  }

  lemma HandleOwed(s: State, id: nat)
    requires Owed(s) && Is(s, id, Committed)
    ensures Owed(Step(s, Handle(id)))
  {
    MarkOwed(s, id, Finished);
    var s' := Step(s, Handle(id));
    forall q
      ensures CommitsSince(s'.log, q) == CommitsSince(s.log, q) && (Wrote(q) in s'.log <==> Wrote(q) in s.log)
    {
      LogPush(s.log, Reindexes(s.all[id].path), q);
    }
    hide CommitsSince;
    HandleTidy(s, id);
    assert forall i: nat :: Registered(s', i) <==> Registered(Mark(s, id, Finished), i);
    hide Tidy;
  }

  lemma StepOwed(s: State, e: Event)
    requires Owed(s) && e != Cancel
    ensures Owed(Step(s, e))
  {
    match e
    case Write(p) => WriteOwed(s, p);
    case Expire(id) => if Is(s, id, Pending) { MarkOwed(s, id, Fired); }
    case Enter(id) =>
      if Is(s, id, Fired) {
        if Registered(s, id) { CommitOwed(s, id); } else { MarkOwed(s, id, GaveUp); }
      }
    case Handle(id) => if Is(s, id, Committed) { HandleOwed(s, id); }
  }

  lemma {:induction false} RunOwed(events: seq<Event>)
    requires Cancel !in events
    ensures Owed(Run(events))
    decreases |events|
  {
    if events != [] {
      var front := events[..|events| - 1];
      assert forall e :: e in front ==> e in events;
      assert events[|events| - 1] in events;
      RunOwed(front);
      StepOwed(Run(front), events[|events| - 1]);
    }
  }

  /** Nothing is left to happen unless another write comes. */
  ghost predicate Quiet(s: State) {
    forall i :: 0 <= i < |s.all| ==> s.all[i].status !in {Pending, Fired, Committed}
  }

  /** Without cancellation, once everything has settled each written path's last write has been
      followed by exactly one commit to re-index it, and no timer is left registered. */
  lemma LastWriteCommitsOnce(events: seq<Event>, p: Path)
    requires Cancel !in events && Quiet(Run(events))
    ensures Run(events).timers == map[]
    ensures Wrote(p) in Run(events).log ==> CommitsSince(Run(events).log, p) == 1
  {
    RunOwed(events);
    var s := Run(events);
    forall q | q in s.timers
      ensures false
    {
      assert Registered(s, s.timers[q]);
    }
  }

  // -------- from the commit to the re-index itself

  /** Timers of p that committed and have not yet re-indexed. */
  ghost function InFlight(all: seq<Timer>, p: Path): nat {
    if all == [] then 0
    else InFlight(all[..|all| - 1], p) + if all[|all| - 1] == Timer(p, Committed) then 1 else 0
  }

  ghost function ReindexesSince(log: seq<Note>, p: Path): nat {
    if log == [] then 0
    else
      var rest := ReindexesSince(log[..|log| - 1], p);
      match log[|log| - 1]
      case Wrote(q) => if q == p then 0 else rest
      case Reindexes(q) => if q == p then rest + 1 else rest
      case Commits(_) => rest
  }

  /** How many re-indexes of p were already committed, and still to run, at its last write. */
  ghost function Backlog(events: seq<Event>, p: Path): nat {
    if events == [] then 0
    else
      var front := events[..|events| - 1];
      if events[|events| - 1] == Write(p) then InFlight(Run(front).all, p) else Backlog(front, p)
  }

  lemma {:induction false} InFlightUpdate(all: seq<Timer>, id: nat, t: Timer, p: Path)
    requires id < |all|
    ensures InFlight(all[id := t], p) + (if all[id] == Timer(p, Committed) then 1 else 0) ==
            InFlight(all, p) + (if t == Timer(p, Committed) then 1 else 0)
    decreases |all|
  {
    var last := |all| - 1;
    if id == last {
      assert all[id := t][..last] == all[..last];
    } else {
      assert all[id := t][..last] == all[..last][id := t];
      InFlightUpdate(all[..last], id, t, p);
    }
  }

  lemma {:induction false} InFlightSame(all: seq<Timer>, all': seq<Timer>, p: Path)
    requires |all| == |all'|
    requires forall i :: 0 <= i < |all| ==> (all[i] == Timer(p, Committed) <==> all'[i] == Timer(p, Committed))
    ensures InFlight(all, p) == InFlight(all', p)
    decreases |all|
  {
    if all != [] { InFlightSame(all[..|all| - 1], all'[..|all| - 1], p); }
  }

  lemma InFlightPush(all: seq<Timer>, t: Timer, p: Path)
    requires t.status == Pending
    ensures InFlight(all + [t], p) == InFlight(all, p)
  {
    assert (all + [t])[..|all|] == all;
  }

  lemma ReindexPush(log: seq<Note>, n: Note, p: Path)
    ensures ReindexesSince(log + [n], p) ==
      if n == Wrote(p) then 0 else ReindexesSince(log, p) + if n == Reindexes(p) then 1 else 0
  {
    assert (log + [n])[..|log|] == log;
  }

  /** One step moves at most one re-index of p along: committed, then run. */
  lemma StepFlow(s: State, e: Event, p: Path)
    ensures
      var s' := Step(s, e);
      if e == Write(p) then
        CommitsSince(s'.log, p) == 0 && ReindexesSince(s'.log, p) == 0 && InFlight(s'.all, p) == InFlight(s.all, p)
      else
        ReindexesSince(s'.log, p) + InFlight(s'.all, p) + CommitsSince(s.log, p) ==
        ReindexesSince(s.log, p) + InFlight(s.all, p) + CommitsSince(s'.log, p)
  {
    var s' := Step(s, e);
    match e
    case Write(q) =>
      var t := if q in s.timers then Stop(s, s.timers[q]) else s;
      InFlightSame(s.all, t.all, p);
      InFlightPush(t.all, Timer(q, Pending), p);
      LogPush(s.log, Wrote(q), p);
      ReindexPush(s.log, Wrote(q), p);
    case Expire(id) =>
      if Is(s, id, Pending) { InFlightUpdate(s.all, id, s.all[id].(status := Fired), p); }
    case Enter(id) =>
      if Is(s, id, Fired) {
        InFlightUpdate(s.all, id, s.all[id].(status := if Registered(s, id) then Committed else GaveUp), p);
        LogPush(s.log, Commits(s.all[id].path), p);
        ReindexPush(s.log, Commits(s.all[id].path), p);
      }
    case Handle(id) =>
      if Is(s, id, Committed) {
        InFlightUpdate(s.all, id, s.all[id].(status := Finished), p);
        LogPush(s.log, Reindexes(s.all[id].path), p);
        ReindexPush(s.log, Reindexes(s.all[id].path), p);
      }
    case Cancel => InFlightSame(s.all, s'.all, p);
  }

  lemma {:induction false} RunFlow(events: seq<Event>, p: Path)
    ensures ReindexesSince(Run(events).log, p) + InFlight(Run(events).all, p) ==
            CommitsSince(Run(events).log, p) + Backlog(events, p)
    decreases |events|
  {
    if events != [] {
      RunFlow(events[..|events| - 1], p);
      StepFlow(Run(events[..|events| - 1]), events[|events| - 1], p);
      hide Step, CommitsSince, ReindexesSince, InFlight;
    }
  }

  lemma {:induction false} QuietHasNoneInFlight(all: seq<Timer>, p: Path)
    requires forall i :: 0 <= i < |all| ==> all[i].status != Committed
    ensures InFlight(all, p) == 0
    decreases |all|
  {
    if all != [] { QuietHasNoneInFlight(all[..|all| - 1], p); }
  }

  /** Once settled, the last write of p has been followed by exactly one re-index of its own,
      beside those that were already committed when it came. */
  lemma LastWriteReindexed(events: seq<Event>, p: Path)
    requires Cancel !in events && Quiet(Run(events)) && Wrote(p) in Run(events).log
    ensures ReindexesSince(Run(events).log, p) == 1 + Backlog(events, p)
  {
    LastWriteCommitsOnce(events, p);
    RunFlow(events, p);
    QuietHasNoneInFlight(Run(events).all, p);
  }

  lemma RunSnoc(events: seq<Event>, e: Event, p: Path)
    ensures Run(events + [e]) == Step(Run(events), e)
    ensures Backlog(events + [e], p) == if e == Write(p) then InFlight(Run(events).all, p) else Backlog(events, p)
  {
    assert (events + [e])[..|events|] == events;
  }

  /** A write while an earlier write's re-index is about to run ... */
  function Overtaken(p: Path): (events: seq<Event>)
    ensures Cancel !in events
  {
    [Write(p), Expire(0), Enter(0), Write(p)] + [Handle(0), Expire(1), Enter(1), Handle(1)]
  }

  /** ... and two re-indexes follow the last write. */
  lemma TwoAfterLastWrite(p: Path)
    ensures
      && Quiet(Run(Overtaken(p))) && Wrote(p) in Run(Overtaken(p)).log
      && Backlog(Overtaken(p), p) == 1 && ReindexesSince(Run(Overtaken(p)).log, p) == 2
  {
    var two := [Write(p), Expire(0), Enter(0), Write(p)];
    SecondWrite(p);
    LastFour(two, p);
    assert Overtaken(p) == two + [Handle(0), Expire(1), Enter(1), Handle(1)];
    hide *;
    FinishBoth(Run(two), p);
    LastWriteReindexed(Overtaken(p), p);
  }

  lemma LastFour(two: seq<Event>, p: Path)
    ensures
      var events := two + [Handle(0), Expire(1), Enter(1), Handle(1)];
      && Run(events) == Step(Step(Step(Step(Run(two), Handle(0)), Expire(1)), Enter(1)), Handle(1))
      && Backlog(events, p) == Backlog(two, p)
  {
    RunSnoc(two, Handle(0), p);
    RunSnoc(two + [Handle(0)], Expire(1), p);
    RunSnoc(two + [Handle(0)] + [Expire(1)], Enter(1), p);
    RunSnoc(two + [Handle(0)] + [Expire(1)] + [Enter(1)], Handle(1), p);
    hide Run, Step, Backlog;
    assert two + [Handle(0)] + [Expire(1)] + [Enter(1)] + [Handle(1)] == two + [Handle(0), Expire(1), Enter(1), Handle(1)];
  }

  lemma SecondWrite(p: Path)
    ensures
      var two := [Write(p), Expire(0), Enter(0), Write(p)];
      && Run(two) == State(map[p := 1], [Timer(p, Committed), Timer(p, Pending)], [Wrote(p), Commits(p), Wrote(p)])
      && Backlog(two, p) == 1
  {
    var one := [Write(p), Expire(0), Enter(0)];
    FirstCommitted(p);
    RunSnoc(one, Write(p), p);
    assert InFlight([Timer(p, Committed)], p) == 1;
    hide Run, Backlog, InFlight;
    assert one + [Write(p)] == [Write(p), Expire(0), Enter(0), Write(p)];
  }

  lemma FinishBoth(s: State, p: Path)
    requires s == State(map[p := 1], [Timer(p, Committed), Timer(p, Pending)], [Wrote(p), Commits(p), Wrote(p)])
    ensures
      var t := Step(Step(Step(Step(s, Handle(0)), Expire(1)), Enter(1)), Handle(1));
      Quiet(t) && Wrote(p) in t.log
  {
    var t := Step(Step(s, Handle(0)), Expire(1));
    assert t == State(s.timers, [Timer(p, Finished), Timer(p, Fired)], s.log + [Reindexes(p)]);
    var u := Step(Step(t, Enter(1)), Handle(1));
    assert u.all == [Timer(p, Finished), Timer(p, Finished)] && u.log[2] == Wrote(p);
  }

  lemma FirstCommitted(p: Path)
    ensures Run([Write(p), Expire(0), Enter(0)]) == State(map[], [Timer(p, Committed)], [Wrote(p), Commits(p)])
  {
    var w := Write(p);
    RunSnoc([], w, p);
    assert [] + [w] == [w];
    assert Run([]) == IDLE;
    RunSnoc([w], Expire(0), p);
    assert [w] + [Expire(0)] == [w, Expire(0)];
    RunSnoc([w, Expire(0)], Enter(0), p);
    assert [w, Expire(0)] + [Enter(0)] == [w, Expire(0), Enter(0)];
    hide Run;
    var s := Run([w, Expire(0), Enter(0)]);
    assert s.timers == map[] && s.all == [Timer(p, Committed)] && s.log == [Wrote(p), Commits(p)];
  }
}
