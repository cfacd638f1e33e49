/**
  The server's admission gate: the accept branch of the accept loop and the
  session teardown, over a single lock that is either free or held by the one
  running session. Connections are accepted one at a time, so the server's
  life is a sequential trace of arrivals and session ends.
 */
module Admission {
  import opened Protocol

  /** Identity of an accepted connection. */
  type ConnId = nat

  /** The inference lock; `Held` names the session that took it. */
  datatype Slot = Free | Held(session: ConnId)

  /** The externally visible effects of the server, in the order it performs them. */
  datatype Action =
    | Acquire                               // the lock is taken
    | Release                               // the lock is given back
    | Send(conn: ConnId, text: string)      // a write that completed
    | SendFailed(conn: ConnId)              // a write that raised
    | Close(conn: ConnId)                   // the connection is closed
    | Spawn(conn: ConnId)                   // a session thread is started
    | Ask(conn: ConnId, request: string)    // a request is handed to the engine
    | Reset                                 // the engine's context is cleared

  /** The lock after a step, and what the step did. */
  datatype Step = Step(slot: Slot, actions: seq<Action>)

  /** The accept branch for a newly accepted connection `c`. A held lock turns
      the connection away with the busy signal; a free lock is taken for `c`
      before `c` is told it may proceed and before its session starts. */
  function Accept(s: Slot, c: ConnId): (r: Step)
    ensures s.Held? ==> r.slot == s
    ensures s.Held? ==> r.actions == [Send(c, Busy), Close(c)]
    ensures s.Free? ==> r.slot == Held(c)
    ensures s.Free? ==> r.actions == [Acquire, Send(c, Ready), Spawn(c)]
  {
    match s
    case Held(_) => Step(s, [Send(c, Busy), Close(c)])
    case Free => Step(Held(c), [Acquire, Send(c, Ready), Spawn(c)])
  }

  /** The teardown every session ends with: close its connection, clear the
      engine, give the lock back, in that order. */
  function DropClient(c: ConnId): (r: seq<Action>)
    ensures |r| == 3 && r[0] == Close(c) && r[1] == Reset && r[2] == Release
  {
    [Close(c), Reset, Release]
  }

  /** What happens next on the server. `Finish` is the running session
      reaching its teardown. */
  datatype Event = Arrive(conn: ConnId) | Finish

  /** One event. Only the session holding the lock runs a teardown, so a
      `Finish` while the lock is free has no thread to perform it and changes
      nothing. */
  function Next(s: Slot, e: Event): (r: Step)
    ensures e.Finish? && s.Held? ==> r.slot == Free && r.actions == DropClient(s.session)
    ensures e.Finish? && s.Free? ==> r.slot == Free && r.actions == []
    ensures e.Arrive? ==> r == Accept(s, e.conn)
  {
    match e
    case Arrive(c) => Accept(s, c)
    case Finish => if s.Held? then Step(Free, DropClient(s.session)) else Step(s, [])
  }

  /** The server's effects over a trace of events, starting from lock state `s`. */
  function Run(s: Slot, events: seq<Event>): (r: Step)
    decreases |events|
    ensures events == [] ==> r == Step(s, [])
    ensures events != [] ==> (r.slot == Free <==> events[|events| - 1] == Finish)
  {
    if events == [] then Step(s, [])
    else
      var first := Next(s, events[0]);
      var rest := Run(first.slot, events[1..]);
      Step(rest.slot, first.actions + rest.actions)
  }

  /** The lock state after the actions in `log`, starting from `held`. */
  function HeldAfter(held: bool, log: seq<Action>): bool
    decreases |log|
  {
    if log == [] then held
    else if log[0] == Acquire then HeldAfter(true, log[1..])
    else if log[0] == Release then HeldAfter(false, log[1..])
    else HeldAfter(held, log[1..])
  }

  /** Walking through `log` from lock state `held`, the lock is never taken
      while held (a second acquire would block the accept loop forever) and
      never given back while free (releasing an unlocked lock raises). */
  predicate LockDiscipline(held: bool, log: seq<Action>)
    decreases |log|
  {
    if log == [] then true
    else if log[0] == Acquire then !held && LockDiscipline(true, log[1..])
    else if log[0] == Release then held && LockDiscipline(false, log[1..])
    else LockDiscipline(held, log[1..])
  }

  /** Every `Release` in `log` directly follows a `Reset`, which directly
      follows the closing of a connection: only the teardown releases. */
  ghost predicate ReleaseAfterReset(log: seq<Action>)
  {
    forall k | 0 <= k < |log| && log[k] == Release :: 2 <= k && log[k - 1] == Reset && log[k - 2].Close?
  }

  /** Every session start in `log` directly follows the ready signal to the
      same connection, which directly follows taking the lock. */
  ghost predicate SpawnAfterGrant(log: seq<Action>)
  {
    forall k | 0 <= k < |log| && log[k].Spawn? :: 2 <= k && log[k - 1] == Send(log[k].conn, Ready) && log[k - 2] == Acquire
  }

  lemma {:induction false} DisciplineAppend(held: bool, a: seq<Action>, b: seq<Action>)
    ensures LockDiscipline(held, a + b) == (LockDiscipline(held, a) && LockDiscipline(HeldAfter(held, a), b))
    ensures HeldAfter(held, a + b) == HeldAfter(HeldAfter(held, a), b)
    decreases |a|
  {
    if a == [] {
      assert a + b == b;
    } else {
      assert (a + b)[0] == a[0];
      assert (a + b)[1..] == a[1..] + b;
      var h := if a[0] == Acquire then true else if a[0] == Release then false else held;
      DisciplineAppend(h, a[1..], b);
    }
  }

  lemma OrderAppend(a: seq<Action>, b: seq<Action>)
    requires ReleaseAfterReset(a) && ReleaseAfterReset(b)
    requires SpawnAfterGrant(a) && SpawnAfterGrant(b)
    ensures ReleaseAfterReset(a + b) && SpawnAfterGrant(a + b)
  {
    var ab := a + b;
    forall k | 0 <= k < |ab| && ab[k] == Release
      ensures 2 <= k && ab[k - 1] == Reset && ab[k - 2].Close?
    {
      if k >= |a| {
        assert b[k - |a|] == Release;
      }
    }
    forall k | 0 <= k < |ab| && ab[k].Spawn?
      ensures 2 <= k && ab[k - 1] == Send(ab[k].conn, Ready) && ab[k - 2] == Acquire
    {
      if k >= |a| {
        assert b[k - |a|].Spawn?;
      }
    }
  }

  /** One event keeps the lock discipline, leaves the lock held exactly when
      the new lock state says so, and orders its actions as required. */
  lemma NextSafe(s: Slot, e: Event)
    ensures LockDiscipline(s.Held?, Next(s, e).actions)
    ensures HeldAfter(s.Held?, Next(s, e).actions) == Next(s, e).slot.Held?
    ensures ReleaseAfterReset(Next(s, e).actions)
    ensures SpawnAfterGrant(Next(s, e).actions)
  {
    match e
    case Arrive(c) =>
      if s.Free? {
        assert LockDiscipline(true, [Spawn(c)]) && HeldAfter(true, [Spawn(c)]);
        assert [Acquire, Send(c, Ready), Spawn(c)][1..] == [Send(c, Ready), Spawn(c)];
      } else {
        assert LockDiscipline(true, [Close(c)]) && HeldAfter(true, [Close(c)]);
      }
    case Finish =>
      if s.Held? {
        var c := s.session;
        assert LockDiscipline(true, [Reset, Release]) && !HeldAfter(true, [Reset, Release]);
        assert DropClient(c)[1..] == [Reset, Release];
      }
  }

  /** Over any trace of arrivals and session ends the lock is never taken
      while held nor released while free, so at most one session holds it at
      any time; the lock ends up held exactly when the final state says so;
      only a teardown releases it; and a session starts only after the lock
      was taken and the ready signal sent. */
  lemma {:induction false} RunSafe(s: Slot, events: seq<Event>)
    ensures LockDiscipline(s.Held?, Run(s, events).actions)
    ensures HeldAfter(s.Held?, Run(s, events).actions) == Run(s, events).slot.Held?
    ensures ReleaseAfterReset(Run(s, events).actions)
    ensures SpawnAfterGrant(Run(s, events).actions)
    decreases |events|
  {
    if events != [] {
      var first := Next(s, events[0]);
      var rest := Run(first.slot, events[1..]);
      NextSafe(s, events[0]);
      RunSafe(first.slot, events[1..]);
      DisciplineAppend(s.Held?, first.actions, rest.actions);
      OrderAppend(first.actions, rest.actions);
    }
  }

  /** In a log walked from a held lock, an `Acquire` can only come after a
      `Release`. */
  lemma {:induction false} ReleaseBeforeReacquire(log: seq<Action>, m: nat)
    requires LockDiscipline(true, log)
    requires m < |log|
    ensures log[m] == Acquire ==> exists k :: 0 <= k < m && log[k] == Release
    decreases m
  {
    if m > 0 && log[0] != Release {
      ReleaseBeforeReacquire(log[1..], m - 1);
      if log[m] == Acquire {
        var k :| 0 <= k < m - 1 && log[1..][k] == Release;
        assert log[k + 1] == Release;
      }
    }
  }

  /** The lock discipline of what follows the first `i` actions. */
  lemma DisciplineSuffix(held: bool, log: seq<Action>, i: nat)
    requires LockDiscipline(held, log)
    requires i <= |log|
    ensures LockDiscipline(HeldAfter(held, log[..i]), log[i..])
  {
    assert log == log[..i] + log[i..];
    DisciplineAppend(held, log[..i], log[i..]);
  }

  /** Right after an `Acquire` in a disciplined log the lock is held. */
  lemma HeldAfterAcquire(held: bool, log: seq<Action>, i: nat)
    requires LockDiscipline(held, log)
    requires i < |log| && log[i] == Acquire
    ensures LockDiscipline(true, log[i + 1..])
  {
    DisciplineSuffix(held, log, i);
    var h := HeldAfter(held, log[..i]);
    assert log[i..][0] == Acquire;
    assert log[i..][1..] == log[i + 1..];
  }

  /** In a disciplined log whose releases all belong to a teardown, between
      any two grants of the lock there is a `Reset` followed directly by a
      `Release`. */
  lemma TeardownBetweenGrants(held: bool, log: seq<Action>, i: nat, j: nat)
    requires LockDiscipline(held, log) && ReleaseAfterReset(log)
    requires i < j < |log| && log[i] == Acquire && log[j] == Acquire
    ensures exists k :: i < k - 1 && k < j && log[k - 1] == Reset && log[k] == Release
  {
    HeldAfterAcquire(held, log, i);
    var tail := log[i + 1..];
    assert tail[j - i - 1] == Acquire;
    ReleaseBeforeReacquire(tail, j - i - 1);
    var k0 :| 0 <= k0 < j - i - 1 && tail[k0] == Release;
    var k := i + 1 + k0;
    assert log[k] == Release;
    assert log[k - 1] == Reset;
  }

  /** Between any two grants of the lock in the server's trace there is a
      teardown step: a `Reset` followed directly by a `Release`. */
  lemma ResetBeforeReuse(s: Slot, events: seq<Event>, i: nat, j: nat)
    requires i < j < |Run(s, events).actions|
    requires Run(s, events).actions[i] == Acquire && Run(s, events).actions[j] == Acquire
    ensures exists k :: i < k - 1 && k < j && Run(s, events).actions[k - 1] == Reset && Run(s, events).actions[k] == Release
  {
    RunSafe(s, events);
    TeardownBetweenGrants(s.Held?, Run(s, events).actions, i, j);
  }
}
