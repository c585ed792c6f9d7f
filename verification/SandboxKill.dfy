/** Releasing a sandbox: `Sandbox.kill` over the backend session's `terminate` and
    `close`, under any pattern of failures. */
module SandboxKill {

  /** What reaches the native client and the PTYs, and whether it succeeded. */
  datatype Event = NativeClose(ok: bool) | Delete(ok: bool) | PtyClose(ok: bool)

  /** Which of the operations of one call would fail. */
  datatype Faults = Faults(close: bool, delete: bool, pty: bool)

  datatype SessionState = SessionState(terminated: bool, closed: bool)

  /** A step: the new state, whether it raised, and the operations attempted. */
  datatype Step<T> = Step(state: T, raised: bool, events: seq<Event>)

  // ---------------------------------------------------------------------
  // The backend session
  // ---------------------------------------------------------------------

  function CloseStep(s: SessionState, f: Faults): Step<SessionState> {
    if s.closed then Step(s, false, [])
    else Step(s.(closed := true), f.close, [NativeClose(!f.close)])
  }

  function TerminateStep(s: SessionState, f: Faults): Step<SessionState> {
    if s.terminated then Step(s, false, [])
    else
      var c := CloseStep(s, f);
      if f.delete then Step(c.state, true, c.events + [Delete(false)])
      else Step(c.state.(terminated := true), c.raised, c.events + [Delete(true)])
  }

  class Session {
    var terminated: bool
    var closed: bool
    var trace: seq<Event>

    constructor ()
      ensures !terminated && !closed && trace == []
    {
      terminated, closed, trace := false, false, [];
    }

    function State(): SessionState
      reads this
    {
      SessionState(terminated, closed)
    }

    method Close(f: Faults) returns (raised: bool)
      modifies this
      ensures Step(State(), raised, []) == CloseStep(old(State()), f).(events := [])
      ensures trace == old(trace) + CloseStep(old(State()), f).events
    {
      if closed {
        return false;
      }
      trace := trace + [NativeClose(!f.close)];
      raised := f.close;
      closed := true;
    }

    method Terminate(f: Faults) returns (raised: bool)
      modifies this
      ensures Step(State(), raised, []) == TerminateStep(old(State()), f).(events := [])
      ensures trace == old(trace) + TerminateStep(old(State()), f).events
    {
      if terminated {
        return false;
      }
      var closeError := Close(f);
      trace := trace + [Delete(!f.delete)];
      if f.delete {
        return true;
      }
      terminated := true;
      raised := closeError;
    }
  }

  // ---------------------------------------------------------------------
  // The sandbox
  // ---------------------------------------------------------------------

  datatype KillResult = Returned | TerminateRaised | LocalRaised

  /** The client object; it has a session and a PTY factory once it is constructed, and
      counts as terminated from the start when detached. */
  datatype Client = Client(closed: bool, terminated: bool, session: SessionState, pty: bool, trace: seq<Event>)

  datatype Killed = Killed(client: Client, result: KillResult)

  function KillStep(c: Client, f: Faults): Killed {
    if c.closed && c.terminated then Killed(c, Returned)
    else
      var t := if c.terminated then Step(c.session, false, []) else TerminateStep(c.session, f);
      var terminated := c.terminated || !t.raised;
      if c.closed then
       Killed(Client(true, terminated, t.state, c.pty, c.trace + t.events), if t.raised then TerminateRaised else Returned)
      else
        var p := if c.pty then [PtyClose(!f.pty)] else [];
        var s := CloseStep(t.state, f);
       Killed(Client(true, terminated, s.state, c.pty, c.trace + t.events + p + s.events),
             if t.raised then TerminateRaised
             else if (c.pty && f.pty) || s.raised then LocalRaised
             else Returned)
  }

  class Sandbox {
    var session: Session
    var closed: bool
    var terminated: bool
    const hasPty: bool

    constructor (detached: bool, hasPty: bool)
      ensures fresh(session)
      ensures View() == Initial(detached, hasPty)
    {
      session := new Session();
      closed := false;
      terminated := detached;
      this.hasPty := hasPty;
    }

    function View(): Client
      reads this, session
    {
      Client(closed, terminated, session.State(), hasPty, session.trace)
    }

    method Kill(f: Faults) returns (r: KillResult)
      modifies this, session
      ensures session == old(session)
      ensures KillStep(old(View()), f) == Killed(View(), r)
    {
      if closed && terminated {
        return Returned;
      }
      var terminateError := false;
      if !terminated {
        terminateError := session.Terminate(f);
        if !terminateError {
          terminated := true;
        }
      }
      var localError := false;
      if !closed {
        if hasPty {
          session.trace := session.trace + [PtyClose(!f.pty)];
          localError := f.pty;
        }
        var closeError := session.Close(f);
        localError := localError || closeError;
        closed := true;
      }
      if terminateError {
        return TerminateRaised;
      }
      if localError {
        return LocalRaised;
      }
      r := Returned;
    }

    /** The rollback of a constructor that failed after the session was created, its own
        failures only logged: the native handle is closed first, then the remote sandbox
        is deleted, each attempted once whatever fails, detached or not. */
    method Rollback(terminating: Faults, closing: Faults)
      requires !session.terminated && !session.closed
      modifies this, session
      ensures session == old(session) && closed && terminated == old(terminated)
      ensures session.State() == SessionState(!terminating.delete, true)
      ensures session.trace == old(session.trace) + [NativeClose(!terminating.close), Delete(!terminating.delete)]
    {
      closed := true;
      var terminateError := session.Terminate(terminating);
      var closeError := session.Close(closing);
    }
  }

  // ---------------------------------------------------------------------
  // Runs
  // ---------------------------------------------------------------------

  function Initial(detached: bool, pty: bool): Client {
    Client(false, detached, SessionState(false, false), pty, [])
  }

  /** The client after one kill for each fault pattern. */
  function Run(c: Client, faults: seq<Faults>): Client
    decreases |faults|
  {
    if faults == [] then c else KillStep(Run(c, faults[..|faults| - 1]), faults[|faults| - 1]).client
  }

  /** How many events of the trace satisfy the test. */
  function Count(trace: seq<Event>, test: Event -> bool): nat {
    if trace == [] then 0
    else Count(trace[..|trace| - 1], test) + if test(trace[|trace| - 1]) then 1 else 0
  }

  lemma {:induction false} CountAppend(a: seq<Event>, b: seq<Event>, test: Event -> bool)
    ensures Count(a + b, test) == Count(a, test) + Count(b, test)
    decreases |b|
  {
    if b == [] {
      assert a + b == a;
    } else {
      assert (a + b)[..|a + b| - 1] == a + b[..|b| - 1];
      CountAppend(a, b[..|b| - 1], test);
    }
  }

  predicate IsNativeClose(e: Event) { e.NativeClose? }
  predicate IsDelete(e: Event) { e.Delete? }
  predicate IsDeleted(e: Event) { e == Delete(true) }
  predicate IsPtyClose(e: Event) { e.PtyClose? }

  /** Every delete finds the native handle closed and no earlier delete successful. */
  predicate Disciplined(trace: seq<Event>) {
    trace != [] ==>
      var before := trace[..|trace| - 1];
      && Disciplined(before)
      && (trace[|trace| - 1].Delete? ==> Count(before, IsNativeClose) > 0 && Count(before, IsDeleted) == 0)
  }

  lemma {:induction false} CountPositive(trace: seq<Event>, test: Event -> bool)
    ensures Count(trace, test) > 0 <==> exists i :: 0 <= i < |trace| && test(trace[i])
    decreases |trace|
  {
    if trace != [] {
      var before := trace[..|trace| - 1];
      CountPositive(before, test);
      if Count(before, test) > 0 {
        var i :| 0 <= i < |before| && test(before[i]);
        assert test(trace[i]);
      }
      assert forall i :: 0 <= i < |before| ==> before[i] == trace[i];
    }
  }

  /** Deletes come after the native close, and none after a successful one. */
  ghost predicate Ordered(trace: seq<Event>) {
    && (forall i :: 0 <= i < |trace| && trace[i].Delete? ==> exists j :: 0 <= j < i && trace[j].NativeClose?)
    && (forall i, j :: 0 <= i < j < |trace| && trace[i] == Delete(true) ==> !trace[j].Delete?)
  }

  lemma {:induction false} DisciplinedOrdered(trace: seq<Event>)
    requires Disciplined(trace)
    ensures Ordered(trace)
    decreases |trace|
  {
    if trace != [] {
      var before := trace[..|trace| - 1];
      DisciplinedOrdered(before);
      CountPositive(before, IsNativeClose);
      CountPositive(before, IsDeleted);
      forall i | 0 <= i < |trace| && trace[i].Delete? ensures exists j :: 0 <= j < i && trace[j].NativeClose? {
        if i < |before| {
          assert before[i].Delete?;
          var j :| 0 <= j < i && before[j].NativeClose?;
          assert trace[j].NativeClose?;
        } else {
          var j :| 0 <= j < |before| && IsNativeClose(before[j]);
          assert trace[j].NativeClose?;
        }
      }
      forall i, j | 0 <= i < j < |trace| && trace[i] == Delete(true) ensures !trace[j].Delete? {
        assert IsDeleted(before[i]);
        assert j < |before| ==> !before[j].Delete?;
      }
    }
  }

  /** The trace of a client whose native handle is closed, whose remote sandbox is
      deleted, and whose PTYs are closed, as the flags say: each attempted once. */
  ghost predicate TraceFacts(trace: seq<Event>, closed: bool, deleted: bool, ptyClosed: bool) {
    && Disciplined(trace)
    && Count(trace, IsNativeClose) == (if closed then 1 else 0)
    && Count(trace, IsDeleted) == (if deleted then 1 else 0)
    && Count(trace, IsPtyClose) == (if ptyClosed then 1 else 0)
  }

  lemma AddEvent(trace: seq<Event>, e: Event, closed: bool, deleted: bool, ptyClosed: bool)
    requires TraceFacts(trace, closed, deleted, ptyClosed)
    requires match e
             case NativeClose(_) => !closed
             case Delete(_) => closed && !deleted
             case PtyClose(_) => !ptyClosed
    ensures TraceFacts(trace + [e], closed || e.NativeClose?, deleted || e == Delete(true), ptyClosed || e.PtyClose?)
  {
    assert (trace + [e])[..|trace|] == trace;
  }

  /** What every reachable client satisfies. */
  ghost predicate Reachable(c: Client, detached: bool) {
    && TraceFacts(c.trace, c.session.closed, c.session.terminated, c.closed && c.pty)
    && (detached ==> c.terminated && Count(c.trace, IsDelete) == 0)
    && (!detached && c.terminated ==> c.session.terminated)
    && (c.closed ==> c.session.closed)
    && (c.session.closed ==> c.closed)
  }

  lemma TerminateKeeps(trace: seq<Event>, s: SessionState, f: Faults, ptyClosed: bool)
    requires TraceFacts(trace, s.closed, s.terminated, ptyClosed)
    ensures var t := TerminateStep(s, f);
            TraceFacts(trace + t.events, t.state.closed, t.state.terminated, ptyClosed)
  {
    assert trace + [] == trace;
    if !s.terminated {
      var c := CloseStep(s, f);
      CloseKeeps(trace, s, f, ptyClosed);
      AddEvent(trace + c.events, Delete(!f.delete), true, false, ptyClosed);
      assert trace + (c.events + [Delete(!f.delete)]) == trace + c.events + [Delete(!f.delete)];
    }
  }

  lemma CloseKeeps(trace: seq<Event>, s: SessionState, f: Faults, ptyClosed: bool)
    requires TraceFacts(trace, s.closed, s.terminated, ptyClosed)
    ensures var c := CloseStep(s, f);
            TraceFacts(trace + c.events, c.state.closed, c.state.terminated, ptyClosed)
  {
    assert trace + [] == trace;
    if !s.closed {
      AddEvent(trace, NativeClose(!f.close), false, s.terminated, ptyClosed);
    }
  }

  lemma KillKeeps(c: Client, f: Faults, detached: bool)
    requires Reachable(c, detached)
    ensures Reachable(KillStep(c, f).client, detached)
  {
    if !(c.closed && c.terminated) {
      var t := if c.terminated then Step(c.session, false, []) else TerminateStep(c.session, f);
      assert c.trace + [] == c.trace;
      TerminateKeeps(c.trace, c.session, f, c.closed && c.pty);
      if !c.closed {
        var p := if c.pty then [PtyClose(!f.pty)] else [];
        var front := c.trace + t.events;
        assert front + [] == front;
        if c.pty {
          AddEvent(front, p[0], t.state.closed, t.state.terminated, false);
        }
        CloseKeeps(front + p, t.state, f, c.pty);
      }
    }
  }

  lemma {:induction false} RunReachable(detached: bool, pty: bool, faults: seq<Faults>)
    ensures Reachable(Run(Initial(detached, pty), faults), detached)
    decreases |faults|
  {
    if faults != [] {
      RunReachable(detached, pty, faults[..|faults| - 1]);
      KillKeeps(Run(Initial(detached, pty), faults[..|faults| - 1]), faults[|faults| - 1], detached);
    }
  }

  // ---------------------------------------------------------------------
  // Over any number of kills with any failures
  // ---------------------------------------------------------------------

  /** The native handle is closed at most once and before any delete; the delete
      succeeds at most once and is not repeated after that; the PTYs are closed at most
      once; a detached sandbox is never deleted. */
  lemma KillsAreSafe(detached: bool, pty: bool, faults: seq<Faults>)
    ensures var trace := Run(Initial(detached, pty), faults).trace;
            && Count(trace, IsNativeClose) <= 1
            && Count(trace, IsDeleted) <= 1
            && Count(trace, IsPtyClose) <= 1
            && Ordered(trace)
            && (detached ==> forall e :: e in trace ==> !e.Delete?)
  {
    RunReachable(detached, pty, faults);
    var trace := Run(Initial(detached, pty), faults).trace;
    DisciplinedOrdered(trace);
    CountPositive(trace, IsDelete);
    forall e | e in trace && detached ensures !e.Delete? {
      var i :| 0 <= i < |trace| && trace[i] == e;
      assert !IsDelete(trace[i]);
    }
  }

  /** A kill that returns normally leaves everything released: the native handle and
      the PTYs have been closed, and unless detached the delete has succeeded. Every
      later kill returns normally and attempts nothing. */
  lemma NormalReturnMeansReleased(detached: bool, pty: bool, faults: seq<Faults>, f: Faults, later: Faults)
    ensures var k := KillStep(Run(Initial(detached, pty), faults), f);
            k.result == Returned ==>
              && Count(k.client.trace, IsNativeClose) == 1
              && Count(k.client.trace, IsPtyClose) == (if pty then 1 else 0)
              && (!detached ==> Delete(true) in k.client.trace)
              && KillStep(k.client, later) == Killed(k.client, Returned)
  {
    RunReachable(detached, pty, faults);
    RunKeepsPty(detached, pty, faults);
    KillKeeps(Run(Initial(detached, pty), faults), f, detached);
    DeletedInTrace(KillStep(Run(Initial(detached, pty), faults), f).client.trace);
  }

  lemma DeletedInTrace(trace: seq<Event>)
    ensures Delete(true) in trace <==> Count(trace, IsDeleted) > 0
  {
    CountPositive(trace, IsDeleted);
    if Count(trace, IsDeleted) > 0 {
      var i :| 0 <= i < |trace| && IsDeleted(trace[i]);
      assert trace[i] in trace;
    }
    if Delete(true) in trace {
      var i :| 0 <= i < |trace| && trace[i] == Delete(true);
      assert IsDeleted(trace[i]);
    }
  }

  lemma {:induction false} RunKeepsPty(detached: bool, pty: bool, faults: seq<Faults>)
    ensures Run(Initial(detached, pty), faults).pty == pty
    decreases |faults|
  {
    if faults != [] { RunKeepsPty(detached, pty, faults[..|faults| - 1]); }
  }

  lemma CountOne(e: Event, test: Event -> bool)
    ensures Count([e], test) == if test(e) then 1 else 0
  {
    assert [e][..0] == [];
  }

  lemma CloseDeletesNothing(s: SessionState, f: Faults)
    ensures Count(CloseStep(s, f).events, IsDelete) == 0
  {
    CountOne(NativeClose(!f.close), IsDelete);
  }

  lemma TerminateDeletes(s: SessionState, f: Faults)
    ensures Count(TerminateStep(s, f).events, IsDelete) == if s.terminated then 0 else 1
  {
    if !s.terminated {
      var close, delete := CloseStep(s, f).events, Delete(!f.delete);
      CloseDeletesNothing(s, f);
      CountAppend(close, [delete], IsDelete);
      CountOne(delete, IsDelete);
    }
  }

  /** One kill adds a delete exactly when neither the handle nor the session is done. */
  lemma KillDeletes(c: Client, f: Faults)
    ensures Count(KillStep(c, f).client.trace, IsDelete) ==
            Count(c.trace, IsDelete) + if c.terminated || c.session.terminated then 0 else 1
  {
    var t := if c.terminated then Step(c.session, false, []) else TerminateStep(c.session, f);
    TerminateDeletes(c.session, f);
    CountAppend(c.trace, t.events, IsDelete);
    if !c.closed {
      var p := if c.pty then [PtyClose(!f.pty)] else [];
      var events := CloseStep(t.state, f).events;
      CountOne(PtyClose(!f.pty), IsDelete);
      CloseDeletesNothing(t.state, f);
      CountAppend(c.trace + t.events, p, IsDelete);
      CountAppend(c.trace + t.events + p, events, IsDelete);
    } else {
      assert c.trace + [] == c.trace;
    }
  }

  /** A kill attempts the remote delete exactly when the sandbox is not detached and no
      delete has succeeded: failed deletes are retried, successful ones never. */
  lemma DeleteRetriedExactly(detached: bool, pty: bool, faults: seq<Faults>, f: Faults)
    ensures var c := Run(Initial(detached, pty), faults);
            var attempts := Count(KillStep(c, f).client.trace, IsDelete) - Count(c.trace, IsDelete);
            attempts == if !detached && Delete(true) !in c.trace then 1 else 0
  {
    RunReachable(detached, pty, faults);
    var c := Run(Initial(detached, pty), faults);
    KillDeletes(c, f);
    DeletedInTrace(c.trace);
  }

  /** Exactly when a kill returns normally, after any history: the local cleanup was
      done before or does not fail now, and the sandbox is detached, already deleted, or
      deleted now. */
  lemma NormalReturnExactly(detached: bool, pty: bool, faults: seq<Faults>, f: Faults)
    ensures var c := Run(Initial(detached, pty), faults);
            KillStep(c, f).result == Returned <==>
            && (c.closed || (!f.close && !(pty && f.pty)))
            && (detached || Delete(true) in c.trace || !f.delete)
  {
    RunReachable(detached, pty, faults);
    RunKeepsPty(detached, pty, faults);
    DeletedInTrace(Run(Initial(detached, pty), faults).trace);
  }
}
