/** What the PTY connection makes of the frames it receives: each frame has its effect,
    in every run, and the reader comes to an end. */
module PtyEffects {
  import opened Options
  import opened PtyTransport

  // ---------------------------------------------------------------------
  // Frames and their effects
  // ---------------------------------------------------------------------

  /** The frame ends the session. */
  predicate Ends(m: Message) {
    m.Exited? || m.RemoteError? || m.Malformed? || (m.Bytes? && m.callbackFails)
  }

  /** The session that a frame names. */
  predicate Names(m: Message, sid: string) {
    m == Started(sid) || (m.Exited? && m.sid == sid) || m == RemoteError(sid)
  }

  /** What a frame that ends the session has done, or the reader is about to do. */
  predicate EndEffect(s: State, m: Message) {
    match m
    case Exited(sid, code) =>
      s.reader == ExitedSession(sid, code) || s.reader == ExitedCode(code) || s.exitCode == Some(code)
    case RemoteError(sid) =>
      s.reader == RemoteSession(sid) || s.reader == ErrorWrite(RemoteFailed, CheckControl) || s.error == Some(RemoteFailed)
    case Malformed => s.reader == ErrorWrite(BadFrame, CheckControl) || s.error == Some(BadFrame)
    case Bytes(true) => s.reader == ErrorWrite(CallbackFailed, ReturnFromRun) || s.error == Some(CallbackFailed)
    case _ => true
  }

  /** The session of a frame is recorded, or the reader is about to record it. */
  predicate NameEffect(s: State, sid: string) {
    || s.sid == Some(sid)
    || s.reader == StartedSession(sid) || s.reader == RemoteSession(sid)
    || (s.reader.ExitedSession? && s.reader.sid == sid)
  }

  ghost predicate LastNaming(frames: seq<Message>, k: nat, sid: string) {
    && k < |frames| && Names(frames[k], sid)
    && forall l :: k < l < |frames| ==> !Named(frames[l])
  }

  predicate Named(m: Message) {
    m.Started? || m.Exited? || m.RemoteError?
  }

  /** No frame is received after one that ends the session, and every frame has its
      effect. */
  ghost predicate FramesTakeEffect(s: State) {
    && (forall k :: 0 <= k < |s.frames| - 1 ==> !Ends(s.frames[k]))
    && (forall k :: 0 <= k < |s.frames| ==> EndEffect(s, s.frames[k]))
    && (forall k: nat, sid :: LastNaming(s.frames, k, sid) ==> NameEffect(s, sid))
    && (s.sid.Some? ==> exists k :: 0 <= k < |s.frames| && Named(s.frames[k]))
    && (forall k :: 0 <= k < |s.frames| && s.frames[k].Started? ==> Announced(s))
  }

  /** Callers of start know about the session, or are about to. */
  predicate Announced(s: State) {
    s.ready || s.reader.StartedSession? || s.reader.StartedReady?
  }

  predicate LastIs(frames: seq<Message>, m: Message) {
    frames != [] && frames[|frames| - 1] == m
  }

  ghost predicate NoneEnds(frames: seq<Message>) {
    forall k :: 0 <= k < |frames| ==> !Ends(frames[k])
  }

  /** Where an error comes from. */
  ghost predicate CausedBy(frames: seq<Message>, cause: Cause) {
    match cause
    case RemoteFailed => exists sid :: LastIs(frames, RemoteError(sid))
    case BadFrame => LastIs(frames, Malformed)
    case CallbackFailed => LastIs(frames, Bytes(true))
    case _ => NoneEnds(frames)
  }

  /** Nothing happens to the session without a frame. */
  ghost predicate EffectsHaveFrames(s: State) {
    && (s.error.Some? ==> CausedBy(s.frames, s.error.value))
    && (s.exitCode.Some? ==> exists sid :: LastIs(s.frames, Exited(sid, s.exitCode.value)))
    && match s.reader
       case StartedSession(sid) => LastIs(s.frames, Started(sid))
       case ExitedSession(sid, code) => LastIs(s.frames, Exited(sid, code))
       case ExitedCode(code) => exists sid :: LastIs(s.frames, Exited(sid, code))
       case RemoteSession(sid) => LastIs(s.frames, RemoteError(sid))
       case ErrorWrite(cause, _) => CausedBy(s.frames, cause)
       case Receiving => NoneEnds(s.frames)
       case NotStarted | Importing | Registering | Connecting | Publishing | Resizing => s.frames == []
       case _ => true
  }

  ghost predicate Effective(s: State) {
    FramesTakeEffect(s) && EffectsHaveFrames(s)
  }

  // ---------------------------------------------------------------------
  // The effects over runs
  // ---------------------------------------------------------------------

  /** Nothing is recorded, and the reader is not about to record anything. */
  predicate Outside(s: State) {
    !Settled(s) && !s.reader.ExitedSession? && !s.reader.ExitedCode? && !s.reader.RemoteSession? && !s.reader.ErrorWrite?
  }

  /** Outside the handling of a frame, what ended the session is recorded. */
  lemma UnsettledMeansNoneEnds(s: State)
    requires FramesTakeEffect(s) && Outside(s)
    ensures NoneEnds(s.frames)
  {
    forall k | 0 <= k < |s.frames| ensures !Ends(s.frames[k]) {
      assert EndEffect(s, s.frames[k]);
    }
  }

  lemma ReceiveTakesEffect(s: State, t: State, m: Message)
    requires ReaderInvariant(s) && SharedInvariant(s) && Effective(s) && s.reader == Receiving
    requires t == s.(reader := Handle(m), frames := s.frames + [m])
    ensures Effective(t)
  {
    var last := |s.frames|;
    assert t.frames[last] == m;
    forall k | 0 <= k < |t.frames|
      ensures EndEffect(t, t.frames[k]) && (k < last ==> !Ends(t.frames[k])) && (t.frames[k].Started? ==> Announced(t))
    {
      assert k < last ==> t.frames[k] == s.frames[k];
    }
    forall k: nat, sid | LastNaming(t.frames, k, sid) ensures NameEffect(t, sid) {
      if k < last {
        assert !Named(t.frames[last]);
        assert forall l :: k < l < last ==> t.frames[l] == s.frames[l];
        assert LastNaming(s.frames, k, sid);
      }
    }
    if s.sid.Some? {
      var k :| 0 <= k < last && Named(s.frames[k]);
      assert Named(t.frames[k]);
    }
    assert !Ends(m) ==> NoneEnds(t.frames);
    assert m.RemoteError? ==> LastIs(t.frames, RemoteError(m.sid));
  }

  lemma Received(s: State, t: State) returns (m: Message)
    requires ReaderStep(s, t) && t.frames != s.frames
    ensures s.reader == Receiving && t == s.(reader := Handle(m), frames := s.frames + [m])
  {
    if s.reader != Receiving { OtherStepAdvances(s, t); }
    m :| t == s.(reader := Handle(m), frames := s.frames + [m]);
  }

  lemma ReaderTakesEffect(s: State, t: State)
    requires ReaderInvariant(s) && SharedInvariant(s) && Effective(s) && ReaderStep(s, t)
    ensures Effective(t)
  {
    if t.frames != s.frames {
      var m := Received(s, t);
      ReceiveTakesEffect(s, t, m);
    } else {
      SilentStepEffective(s, t);
    }
  }

  /** What a step of the reader that receives nothing does to the recorded outcome. */
  predicate RecordsStep(s: State, t: State) {
    && t.frames == s.frames
    && t.sid == (if Recording(s.reader) then Some(s.reader.sid) else s.sid)
    && t.exitCode == (if s.reader.ExitedCode? then Some(s.reader.code) else s.exitCode)
    && t.error == (if s.reader.ErrorWrite? && s.error == None then Some(s.reader.cause) else s.error)
  }

  predicate Recording(r: Reader) {
    r.StartedSession? || r.ExitedSession? || r.RemoteSession?
  }

  /** Before the first message can arrive. */
  predicate Early(r: Reader) {
    r.NotStarted? || SettingUp(r)
  }

  /** How such a step moves through the points at which something is yet to be recorded. */
  predicate MovesOn(s: State, t: State) {
    && !t.reader.StartedSession? && !t.reader.ExitedSession? && !t.reader.RemoteSession?
    && (s.reader.ExitedSession? ==> t.reader == ExitedCode(s.reader.code))
    && (t.reader.ExitedCode? ==> s.reader.ExitedSession?)
    && (s.reader.RemoteSession? ==> t.reader == ErrorWrite(RemoteFailed, CheckControl))
    && (t.reader.ErrorWrite? && !s.reader.RemoteSession? ==>
          Outside(s) && (t.reader.cause == ThreadFailed || t.reader.cause == ConnectionFailed || t.reader.cause == NoTerminalStatus))
    && (t.reader.Receiving? ==> Outside(s))
    && (Early(t.reader) ==> Early(s.reader))
    && (Announced(s) ==> Announced(t))
  }

  lemma SilentStepMoves(s: State, t: State)
    requires ReaderInvariant(s) && ReaderStep(s, t) && t.frames == s.frames
    ensures RecordsStep(s, t) && MovesOn(s, t)
  {
    if SettingUp(s.reader) {
      SetUpStepMoves(s, t);
    } else if s.reader == Receiving {
      NothingReceived(s, t);
    } else if Reporting(s.reader) {
      ReportStepMoves(s, t);
    } else if Exiting(s.reader) {
      ExitingStepMoves(s, t);
    } else if Failing(s.reader) {
      FailingStepMoves(s, t);
    } else if Caught(s.reader) {
      CaughtStepMoves(s, t);
    } else if CleaningUp(s.reader) {
      CleanUpStepMoves(s, t);
    } else if Judging(s.reader) {
      JudgingStepMoves(s, t);
    } else {
      FinalStepMoves(s, t);
    }
  }

  lemma NothingReceived(s: State, t: State)
    requires s.reader == Receiving && ReceiveStep(s, t) && t.frames == s.frames
    ensures RecordsStep(s, t) && MovesOn(s, t)
  {
  }

  lemma SetUpStepMoves(s: State, t: State)
    requires ReaderInvariant(s) && SettingUp(s.reader) && SetUpStep(s, t)
    ensures RecordsStep(s, t) && MovesOn(s, t)
  {
  }

  lemma ReportStepMoves(s: State, t: State)
    requires ReaderInvariant(s) && Reporting(s.reader) && ReportStep(s, t)
    ensures RecordsStep(s, t) && MovesOn(s, t)
  {
  }

  lemma ExitingStepMoves(s: State, t: State)
    requires ReaderInvariant(s) && Exiting(s.reader) && ExitingStep(s, t)
    ensures RecordsStep(s, t) && MovesOn(s, t)
  {
  }

  lemma FailingStepMoves(s: State, t: State)
    requires ReaderInvariant(s) && Failing(s.reader) && FailingStep(s, t)
    ensures RecordsStep(s, t) && MovesOn(s, t)
  {
  }

  lemma CaughtStepMoves(s: State, t: State)
    requires ReaderInvariant(s) && Caught(s.reader) && CaughtStep(s, t)
    ensures RecordsStep(s, t) && MovesOn(s, t)
  {
  }

  lemma CleanUpStepMoves(s: State, t: State)
    requires ReaderInvariant(s) && CleaningUp(s.reader) && CleanUpStep(s, t)
    ensures RecordsStep(s, t) && MovesOn(s, t)
  {
  }

  lemma JudgingStepMoves(s: State, t: State)
    requires ReaderInvariant(s) && Judging(s.reader) && JudgingStep(s, t)
    ensures RecordsStep(s, t) && MovesOn(s, t)
  {
  }

  lemma FinalStepMoves(s: State, t: State)
    requires ReaderInvariant(s) && Final(s.reader) && FinalStep(s, t)
    ensures RecordsStep(s, t) && MovesOn(s, t)
  {
  }

  lemma SilentStepEffective(s: State, t: State)
    requires ReaderInvariant(s) && SharedInvariant(s) && Effective(s) && ReaderStep(s, t) && t.frames == s.frames
    ensures Effective(t)
  {
    SilentStepMoves(s, t);
    if Outside(s) { UnsettledMeansNoneEnds(s); }
    EffectiveMovesOn(s, t);
  }

  lemma EffectiveMovesOn(s: State, t: State)
    requires ReaderInvariant(s) && Effective(s) && RecordsStep(s, t) && MovesOn(s, t)
    requires Outside(s) ==> NoneEnds(s.frames)
    ensures Effective(t)
  {
    forall k | 0 <= k < |t.frames| ensures EndEffect(t, t.frames[k]) {
      EndMovesOn(s, t, s.frames[k]);
    }
    forall k: nat, sid | LastNaming(t.frames, k, sid) ensures NameEffect(t, sid) {
      NameMovesOn(s, t, k, sid);
    }
    if t.sid != s.sid {
      assert Named(s.frames[|s.frames| - 1]);
    }
    forall k | 0 <= k < |t.frames| && t.frames[k].Started? ensures Announced(t) {
      assert s.frames[k].Started?;
    }
    CausesMoveOn(s, t);
  }

  lemma EndMovesOn(s: State, t: State, m: Message)
    requires ReaderInvariant(s) && RecordsStep(s, t) && MovesOn(s, t) && EndEffect(s, m)
    ensures EndEffect(t, m)
  {
  }

  lemma NameMovesOn(s: State, t: State, k: nat, sid: string)
    requires EffectsHaveFrames(s) && RecordsStep(s, t) && MovesOn(s, t)
    requires LastNaming(s.frames, k, sid) && NameEffect(s, sid)
    ensures NameEffect(t, sid)
  {
  }

  lemma CausesMoveOn(s: State, t: State)
    requires ReaderInvariant(s) && RecordsStep(s, t) && MovesOn(s, t) && EffectsHaveFrames(s)
    requires Outside(s) ==> NoneEnds(s.frames)
    ensures EffectsHaveFrames(t)
  {
    if s.reader.ExitedSession? { assert LastIs(s.frames, Exited(s.reader.sid, s.reader.code)); }
    if s.reader.RemoteSession? { assert LastIs(s.frames, RemoteError(s.reader.sid)); }
  }

  // ---------------------------------------------------------------------
  // Runs
  // ---------------------------------------------------------------------

  /** Calls touch neither the frames nor the recorded outcome. */
  lemma ClientStepEffective(s: State, t: State)
    requires Effective(s) && (Arrives(s, t) || CallStep(s, t))
    ensures Effective(t)
  {
    assert t.frames == s.frames && t.sid == s.sid && t.error == s.error && t.exitCode == s.exitCode;
    assert t.reader == s.reader || (s.reader == NotStarted && t.reader == Importing);
    forall k | 0 <= k < |t.frames| ensures EndEffect(t, t.frames[k]) {
      assert EndEffect(s, s.frames[k]);
    }
    forall k: nat, sid | LastNaming(t.frames, k, sid) ensures NameEffect(t, sid) {
      assert LastNaming(s.frames, k, sid);
    }
  }

  /** In every state of every run each frame has had its effect, or the reader is in the
      middle of it. */
  lemma {:induction false} RunEffective(run: seq<State>, i: nat)
    requires IsRun(run) && i < |run|
    ensures Effective(run[i])
  {
    if i == 0 {
      InitEffective(run[0]);
    } else {
      RunEffective(run, i - 1);
      RunInvariant(run, i - 1);
      assert StepAt(run, i - 1);
      StepEffective(run[i - 1], run[i]);
    }
  }

  lemma InitEffective(s: State)
    requires Init(s)
    ensures Effective(s)
  {
  }

  lemma StepEffective(s: State, t: State)
    requires ReaderInvariant(s) && SharedInvariant(s) && Effective(s) && NextState(s, t)
    ensures Effective(t)
  {
    if Arrives(s, t) || CallStep(s, t) { ClientStepEffective(s, t); } else { ReaderTakesEffect(s, t); }
  }

  /** Once done, the outcome is what the frames say: a frame that ends the session is the
      last one received, and its code or its cause is recorded, and nothing else; without
      one there is no code, and no error but that of a lost connection or thread. */
  lemma OutcomeFromFrames(run: seq<State>, i: nat)
    requires IsRun(run) && i < |run|
    ensures var s := run[i];
            && (forall k :: 0 <= k < |s.frames| - 1 ==> !Ends(s.frames[k]))
            && (forall sid, code :: s.done && Exited(sid, code) in s.frames ==>
                  s.exitCode == Some(code) && s.error == None && s.sid == Some(sid))
            && (forall sid :: s.done && RemoteError(sid) in s.frames ==>
                  s.error == Some(RemoteFailed) && s.exitCode == None && s.sid == Some(sid))
            && (s.done && Malformed in s.frames ==> s.error == Some(BadFrame) && s.exitCode == None)
            && (s.done && Bytes(true) in s.frames ==> s.error == Some(CallbackFailed) && s.exitCode == None)
            && (NoneEnds(s.frames) ==>
                  s.exitCode == None && s.error in {None, Some(ThreadFailed), Some(ConnectionFailed), Some(NoTerminalStatus)})
  {
    var s := run[i];
    RunInvariant(run, i);
    RunEffective(run, i);
    forall m | m in s.frames && Ends(m) ensures EndEffect(s, m) {
      EndedLast(s, m);
    }
    forall sid, code | Exited(sid, code) in s.frames ensures NameEffect(s, sid) {
      EndedNames(s, Exited(sid, code), sid);
    }
    forall sid | RemoteError(sid) in s.frames ensures NameEffect(s, sid) {
      EndedNames(s, RemoteError(sid), sid);
    }
    if NoneEnds(s.frames) { NoCauseWithoutFrame(s); }
  }

  /** The session is that of the last frame that names one, and once a started frame has
      been handled the callers of start are released. */
  lemma SessionFromFrames(run: seq<State>, i: nat)
    requires IsRun(run) && i < |run|
    ensures var s := run[i];
            && ((forall k :: 0 <= k < |s.frames| ==> !Named(s.frames[k])) ==> s.sid == None)
            && (forall k: nat, sid :: LastNaming(s.frames, k, sid) && !Recording(s.reader) ==> s.sid == Some(sid))
            && (forall sid :: Started(sid) in s.frames && !s.reader.StartedSession? && !s.reader.StartedReady? ==> s.ready)
  {
    RunEffective(run, i);
    var s := run[i];
    forall k: nat, sid | LastNaming(s.frames, k, sid) && !Recording(s.reader) ensures s.sid == Some(sid) {
      assert NameEffect(s, sid);
    }
    forall sid | Started(sid) in s.frames ensures Announced(s) {
      var k :| 0 <= k < |s.frames| && s.frames[k] == Started(sid);
    }
  }

  lemma EndedLast(s: State, m: Message)
    requires FramesTakeEffect(s) && m in s.frames && Ends(m)
    ensures LastIs(s.frames, m) && EndEffect(s, m)
  {
    var k :| 0 <= k < |s.frames| && s.frames[k] == m;
  }

  lemma EndedNames(s: State, m: Message, sid: string)
    requires FramesTakeEffect(s) && m in s.frames && Ends(m) && Names(m, sid)
    ensures NameEffect(s, sid)
  {
    EndedLast(s, m);
    assert LastNaming(s.frames, |s.frames| - 1, sid);
  }

  lemma NoCauseWithoutFrame(s: State)
    requires EffectsHaveFrames(s) && NoneEnds(s.frames)
    ensures s.exitCode == None && s.error in {None, Some(ThreadFailed), Some(ConnectionFailed), Some(NoTerminalStatus)}
  {
    forall m | LastIs(s.frames, m) ensures !Ends(m) {
    }
  }

  // ---------------------------------------------------------------------
  // What the callers get
  // ---------------------------------------------------------------------

  /** The one thing a wait can come back with, apart from its own timeout. */
  predicate ComesBackWith(c: Call, answer: Call) {
    InWait(c) || c == answer || c == Raised(TimedOut)
  }

  /** Every call to wait, begun before or after the frame, gets what the frame says: the
      exit code, or the error. */
  lemma WaitTellsFrames(run: seq<State>, i: nat, j: nat, id: nat)
    requires IsRun(run) && i <= j < |run|
    requires id in run[i].calls && InWait(run[i].calls[id])
    ensures id in run[j].calls
    ensures var frames, c := run[j].frames, run[j].calls[id];
            && (forall sid, code :: Exited(sid, code) in frames ==> ComesBackWith(c, WaitReturned(code)))
            && (forall sid :: RemoteError(sid) in frames ==> ComesBackWith(c, Raised(Failure(RemoteFailed))))
            && (Malformed in frames ==> ComesBackWith(c, Raised(Failure(BadFrame))))
            && (Bytes(true) in frames ==> ComesBackWith(c, Raised(Failure(CallbackFailed))))
  {
    WaitStaysWait(run, i, j, id);
    RunInvariant(run, j);
    RunEffective(run, j);
    OutcomeFromFrames(run, j);
    var c := run[j].calls[id];
    if !InWait(c) && c != Raised(TimedOut) { BackMeansDecided(run[j], c); }
    forall m | m in run[j].frames && Ends(m) ensures EndEffect(run[j], m) { EndedLast(run[j], m); }
  }

  /** A wait that is back without a timeout has seen done. */
  lemma BackMeansDecided(s: State, c: Call)
    requires Invariant(s) && CallInvariant(s, c) && OfWait(c) && !InWait(c) && c != Raised(TimedOut)
    ensures s.done || s.error.Some?
    ensures c.WaitReturned? ==> s.exitCode == Some(c.code) && s.error == None
    ensures c.Raised? ==> if c.reason.Failure? then s.error == Some(c.reason.cause) else !Settled(s)
  {
  }

  /** A call to start that has not come back, or what has become of it. */
  predicate OfStart(c: Call) {
    || c.StartWaiting? || c.StartTimedOut? || c.StartChecking? || c.StartReading? || c.StartReturned?
    || (c.Raised? && (c.reason.Failure? || c.reason in {TimedOut, NeverStarted}))
  }

  ghost predicate StartKnows(s: State, id: nat) {
    id in s.calls && OfStart(s.calls[id]) && (s.calls[id] == Raised(TimedOut) ==> s.closed)
  }

  lemma StepKeepsStart(s: State, t: State, id: nat)
    requires Invariant(s) && NextState(s, t) && StartKnows(s, id)
    ensures StartKnows(t, id)
  {
    if Arrives(s, t) {
      ArrivalKeepsOthers(s, t, id);
    } else if CallStep(s, t) {
      CallStepKeepsStart(s, t, id);
    } else {
      ReaderStepKeeps(s, t);
    }
  }

  lemma ArrivalKeepsOthers(s: State, t: State, id: nat)
    requires Arrives(s, t) && id in s.calls
    ensures id in t.calls && t.calls[id] == s.calls[id] && t.closed == s.closed && t.done == s.done && t.error == s.error
  {
  }

  lemma CallStepKeepsStart(s: State, t: State, id: nat)
    requires CallStep(s, t) && StartKnows(s, id)
    ensures StartKnows(t, id)
  {
  }

  /** A start that times out closes the connection. */
  lemma {:induction false} StartTimeoutCloses(run: seq<State>, i: nat, j: nat, id: nat)
    requires IsRun(run) && i <= j < |run| && id in run[i].calls && run[i].calls[id] == StartWaiting
    ensures StartKnows(run[j], id)
    decreases j
  {
    if i < j {
      StartTimeoutCloses(run, i, j - 1, id);
      RunInvariant(run, j - 1);
      assert StepAt(run, j - 1);
      StepKeepsStart(run[j - 1], run[j], id);
    }
  }

  /** A send that begins after done fails, with the recorded error if there is one. */
  predicate FailsToSend(s: State, id: nat) {
    && s.done && id in s.calls
    && (s.calls[id] == SendEntering || s.calls[id] == SendFailing
        || s.calls[id] == Raised(if s.error.Some? then Failure(s.error.value) else NotRunning))
  }

  lemma StepKeepsFailing(s: State, t: State, id: nat)
    requires Invariant(s) && NextState(s, t) && FailsToSend(s, id)
    ensures FailsToSend(t, id)
  {
    if Arrives(s, t) {
      ArrivalKeepsOthers(s, t, id);
    } else if CallStep(s, t) {
      CallStepKeepsFailing(s, t, id);
    } else {
      ReaderStepKeeps(s, t);
    }
  }

  lemma CallStepKeepsFailing(s: State, t: State, id: nat)
    requires CallStep(s, t) && FailsToSend(s, id)
    ensures FailsToSend(t, id)
  {
  }

  lemma {:induction false} SendAfterDoneFails(run: seq<State>, i: nat, j: nat, id: nat)
    requires IsRun(run) && i <= j < |run| && run[i].done && id in run[i].calls && run[i].calls[id] == SendEntering
    ensures FailsToSend(run[j], id)
    decreases j
  {
    if i < j {
      SendAfterDoneFails(run, i, j - 1, id);
      RunInvariant(run, j - 1);
      assert StepAt(run, j - 1);
      StepKeepsFailing(run[j - 1], run[j], id);
    }
  }

  /** A send that wrote found a connection at some time before. */
  lemma {:induction false} SendFoundConnection(run: seq<State>, j: nat, id: nat) returns (k: nat)
    requires IsRun(run) && j < |run| && id in run[j].calls
    requires run[j].calls[id] in {SendWriting, SendReturned, Raised(WriteFailed)}
    ensures k < j && run[k].websocket && id in run[k].calls && run[k].calls[id] == SendLocking
    decreases j
  {
    var s, t := run[j - 1], run[j];
    assert StepAt(run, j - 1);
    RunInvariant(run, j - 1);
    if SentBefore(s, t, id) {
      k := SendFoundConnection(run, j - 1, id);
    } else {
      k := j - 1;
      WritingBegins(s, t, id);
    }
  }

  ghost predicate SentBefore(s: State, t: State, id: nat) {
    id in s.calls && s.calls[id] in {SendWriting, SendReturned, Raised(WriteFailed)}
  }

  lemma WritingBegins(s: State, t: State, id: nat)
    requires Invariant(s) && NextState(s, t) && id in t.calls && !SentBefore(s, t, id)
    requires t.calls[id] in {SendWriting, SendReturned, Raised(WriteFailed)}
    ensures id in s.calls && s.calls[id] == SendLocking && s.websocket
  {
    if ReaderStep(s, t) {
      ReaderStepKeeps(s, t);
    } else if CallStep(s, t) {
      CallStepWrites(s, t, id);
    } else {
      NewCallsWriteNothing(s, t, id);
    }
  }

  lemma NewCallsWriteNothing(s: State, t: State, id: nat)
    requires Arrives(s, t) && id in t.calls && t.calls[id] in {SendWriting, SendReturned, Raised(WriteFailed)}
    ensures SentBefore(s, t, id)
  {
  }

  lemma CallStepWrites(s: State, t: State, id: nat)
    requires CallStep(s, t) && id in t.calls && !SentBefore(s, t, id)
    requires t.calls[id] in {SendWriting, SendReturned, Raised(WriteFailed)}
    ensures id in s.calls && s.calls[id] == SendLocking && s.websocket
  {
  }

  // ---------------------------------------------------------------------
  // Lost connections
  // ---------------------------------------------------------------------

  /** The connection broke before anything was decided: that will be the error, unless
      the client closes. */
  predicate Broken(s: State) {
    || s.closed
    || (!Settled(s) && s.reader in {CaughtClosed, CaughtDone, ErrorWrite(ConnectionFailed, LeaveTry)})
    || s.error == Some(ConnectionFailed)
  }

  lemma StepKeepsBroken(s: State, t: State)
    requires Invariant(s) && NextState(s, t) && Broken(s)
    ensures Broken(t)
  {
    StepKeeps(s, t);
    if ReaderStep(s, t) {
      ReaderKeepsBroken(s, t);
    } else {
      ClientKeepsReader(s, t);
    }
  }

  lemma ClientKeepsReader(s: State, t: State)
    requires Arrives(s, t) || CallStep(s, t)
    ensures t.reader == s.reader || s.reader == NotStarted
    ensures t.error == s.error && t.exitCode == s.exitCode
  {
  }

  lemma ReaderKeepsBroken(s: State, t: State)
    requires Invariant(s) && ReaderStep(s, t) && Broken(s) && Grows(s, t)
    ensures Broken(t)
  {
    if !s.closed && s.error == None {
      if Caught(s.reader) { CaughtKeepsBroken(s, t); } else { RecordedBroken(s, t); }
    }
  }

  lemma CaughtKeepsBroken(s: State, t: State)
    requires ReaderInvariant(s) && Caught(s.reader) && CaughtStep(s, t) && Broken(s) && !s.closed && s.error == None
    ensures Broken(t)
  {
  }

  lemma RecordedBroken(s: State, t: State)
    requires s.reader == ErrorWrite(ConnectionFailed, LeaveTry) && FailingStep(s, t) && s.error == None
    ensures Broken(t)
  {
  }

  /** A connection that breaks before anything was decided is reported as such, unless
      the client closed it. */
  lemma {:induction false} BrokenConnectionReported(run: seq<State>, i: nat, j: nat)
    requires IsRun(run) && i <= j < |run| && run[i].reader == CaughtClosed && !Settled(run[i])
    ensures Broken(run[j])
    ensures run[j].done && !run[j].closed ==> run[j].error == Some(ConnectionFailed)
    decreases j
  {
    if i < j {
      var k: nat := j - 1;
      BrokenConnectionReported(run, i, k);
      RunInvariant(run, k);
      StepOfRun(run, k);
      StepKeepsBroken(run[k], run[j]);
    }
    RunInvariant(run, j);
    if run[j].done && !run[j].closed { BrokenIsError(run[j]); }
  }

  lemma BrokenIsError(s: State)
    requires Invariant(s) && Broken(s) && s.done && !s.closed
    ensures s.error == Some(ConnectionFailed)
  {
  }

  // ---------------------------------------------------------------------
  // When there is a connection to send on
  // ---------------------------------------------------------------------

  /** The reader is between publishing the connection and hiding it again. */
  predicate InSession(r: Reader) {
    || r.Resizing? || r.Receiving? || Reporting(r) || Exiting(r) || r.Closing?
    || (Failing(r) && (r.next == CheckControl || r.next == ReturnFromRun))
  }

  /** The connection is not published yet, or hidden again. */
  predicate OutOfSession(r: Reader) {
    || r.NotStarted? || r.Importing? || r.Registering? || r.Connecting? || r.Publishing?
    || Judging(r) || Final(r) || r.Finished? || (Failing(r) && r.next == EndThread)
  }

  predicate Shown(s: State) {
    (InSession(s.reader) ==> s.websocket) && (OutOfSession(s.reader) ==> !s.websocket)
  }

  lemma SetUpStepShows(s: State, t: State)
    requires Shown(s) && SettingUp(s.reader) && SetUpStep(s, t)
    ensures Shown(t)
  {
  }

  lemma ReportStepShows(s: State, t: State)
    requires Shown(s) && Reporting(s.reader) && ReportStep(s, t)
    ensures Shown(t)
  {
  }

  lemma ExitingStepShows(s: State, t: State)
    requires Shown(s) && Exiting(s.reader) && ExitingStep(s, t)
    ensures Shown(t)
  {
  }

  lemma FailingStepShows(s: State, t: State)
    requires Shown(s) && Failing(s.reader) && FailingStep(s, t)
    ensures Shown(t)
  {
  }

  lemma CaughtStepShows(s: State, t: State)
    requires Shown(s) && Caught(s.reader) && CaughtStep(s, t)
    ensures Shown(t)
  {
  }

  lemma CleanUpStepShows(s: State, t: State)
    requires Shown(s) && CleaningUp(s.reader) && CleanUpStep(s, t)
    ensures Shown(t)
  {
  }

  lemma JudgingStepShows(s: State, t: State)
    requires Shown(s) && Judging(s.reader) && JudgingStep(s, t)
    ensures Shown(t)
  {
  }

  lemma FinalStepShows(s: State, t: State)
    requires Shown(s) && Final(s.reader) && FinalStep(s, t)
    ensures Shown(t)
  {
  }

  lemma ReceiveStepShows(s: State, t: State)
    requires Shown(s) && s.reader == Receiving && ReceiveStep(s, t)
    ensures Shown(t)
  {
    if t.frames != s.frames { var m := Received(s, t); }
  }

  lemma ReaderStepShows(s: State, t: State)
    requires Shown(s) && ReaderStep(s, t)
    ensures Shown(t)
  {
    if SettingUp(s.reader) {
      SetUpStepShows(s, t);
    } else if s.reader == Receiving {
      ReceiveStepShows(s, t);
    } else if Reporting(s.reader) {
      ReportStepShows(s, t);
    } else if Exiting(s.reader) {
      ExitingStepShows(s, t);
    } else if Failing(s.reader) {
      FailingStepShows(s, t);
    } else if Caught(s.reader) {
      CaughtStepShows(s, t);
    } else if CleaningUp(s.reader) {
      CleanUpStepShows(s, t);
    } else if Judging(s.reader) {
      JudgingStepShows(s, t);
    } else {
      FinalStepShows(s, t);
    }
  }

  lemma ClientKeepsShown(s: State, t: State)
    requires Shown(s) && (Arrives(s, t) || CallStep(s, t))
    ensures Shown(t)
  {
    assert t.websocket == s.websocket && (t.reader == s.reader || (s.reader == NotStarted && t.reader == Importing));
  }

  /** In every state of every run there is a connection to send on throughout the session,
      and none before and after. */
  lemma {:induction false} ConnectionShown(run: seq<State>, i: nat)
    requires IsRun(run) && i < |run|
    ensures Shown(run[i])
  {
    if i > 0 {
      var s, t := run[i - 1], run[i];
      ConnectionShown(run, i - 1);
      assert StepAt(run, i - 1);
      if ReaderStep(s, t) { ReaderStepShows(s, t); } else { ClientKeepsShown(s, t); }
    }
  }

  // ---------------------------------------------------------------------
  // The reader comes to an end
  // ---------------------------------------------------------------------

  /** How many steps the reader has left if nothing more is received. */
  function StepsLeft(r: Reader): nat {
    match r
    case NotStarted => 41
    case Importing => 40
    case Registering => 39
    case Connecting => 38
    case Publishing => 37
    case Resizing => 36
    case StartedSession(_) => 23
    case StartedReady => 22
    case ExitedSession(_, _) => 25
    case ExitedCode(_) => 24
    case ExitedReady => 23
    case ExitedDone => 22
    case RemoteSession(_) => 25
    case ErrorWrite(_, next) => After(next) + 3
    case ErrorReady(next) => After(next) + 2
    case ErrorDone(next) => After(next) + 1
    case AfterControl => 21
    case Receiving => 20
    case Closing => 15
    case CaughtClosed => 14
    case CaughtDone => 13
    case Cleaning(_) => 9
    case EndClosed => 8
    case EndDone => 7
    case FinalReady => 3
    case FinalDone => 2
    case NotifyDone => 1
    case Finished => 0
  }

  function After(next: Next): nat {
    match next
    case CheckControl => 21
    case ReturnFromRun => 15
    case LeaveTry => 9
    case EndThread => 3
  }

  /** A step receives a frame, or leaves fewer steps. */
  lemma ReaderStepAdvances(s: State, t: State)
    requires ReaderStep(s, t)
    ensures if |t.frames| == |s.frames| then StepsLeft(t.reader) < StepsLeft(s.reader)
            else |t.frames| == |s.frames| + 1 && s.reader == Receiving && StepsLeft(t.reader) <= 25
    ensures t.reader != NotStarted
  {
    if s.reader != Receiving {
      OtherStepAdvances(s, t);
    } else if t.frames != s.frames {
      var m := Received(s, t);
    } else {
      assert t.reader == Cleaning(false) || t.reader == CaughtClosed by { NothingReceived(s, t); }
    }
  }

  /** A step that does not receive keeps the frames and leaves fewer steps. */
  lemma OtherStepAdvances(s: State, t: State)
    requires ReaderStep(s, t) && s.reader != Receiving
    ensures t.frames == s.frames && StepsLeft(t.reader) < StepsLeft(s.reader) && t.reader != NotStarted
  {
    if SettingUp(s.reader) {
      SetUpAdvances(s, t);
    } else if Reporting(s.reader) {
      ReportAdvances(s, t);
    } else if Exiting(s.reader) {
      ExitingAdvances(s, t);
    } else if Failing(s.reader) {
      FailingAdvances(s, t);
    } else if Caught(s.reader) {
      CaughtAdvances(s, t);
    } else if CleaningUp(s.reader) {
      CleanUpAdvances(s, t);
    } else if Judging(s.reader) {
      JudgingAdvances(s, t);
    } else {
      FinalAdvances(s, t);
    }
  }

  lemma SetUpAdvances(s: State, t: State)
    requires SettingUp(s.reader) && SetUpStep(s, t)
    ensures t.frames == s.frames && StepsLeft(t.reader) < StepsLeft(s.reader) && t.reader != NotStarted
  {
  }

  lemma ReportAdvances(s: State, t: State)
    requires Reporting(s.reader) && ReportStep(s, t)
    ensures t.frames == s.frames && StepsLeft(t.reader) < StepsLeft(s.reader) && t.reader != NotStarted
  {
  }

  lemma ExitingAdvances(s: State, t: State)
    requires Exiting(s.reader) && ExitingStep(s, t)
    ensures t.frames == s.frames && StepsLeft(t.reader) < StepsLeft(s.reader) && t.reader != NotStarted
  {
  }

  lemma FailingAdvances(s: State, t: State)
    requires Failing(s.reader) && FailingStep(s, t)
    ensures t.frames == s.frames && StepsLeft(t.reader) < StepsLeft(s.reader) && t.reader != NotStarted
  {
  }

  lemma CaughtAdvances(s: State, t: State)
    requires Caught(s.reader) && CaughtStep(s, t)
    ensures t.frames == s.frames && StepsLeft(t.reader) < StepsLeft(s.reader) && t.reader != NotStarted
  {
  }

  lemma CleanUpAdvances(s: State, t: State)
    requires CleaningUp(s.reader) && CleanUpStep(s, t)
    ensures t.frames == s.frames && StepsLeft(t.reader) < StepsLeft(s.reader) && t.reader != NotStarted
  {
  }

  lemma JudgingAdvances(s: State, t: State)
    requires Judging(s.reader) && JudgingStep(s, t)
    ensures t.frames == s.frames && StepsLeft(t.reader) < StepsLeft(s.reader) && t.reader != NotStarted
  {
  }

  lemma FinalAdvances(s: State, t: State)
    requires Final(s.reader) && FinalStep(s, t)
    ensures t.frames == s.frames && StepsLeft(t.reader) < StepsLeft(s.reader) && t.reader != NotStarted
  {
  }

  /** The reader is never stuck before its end. */
  lemma ReaderCanStep(s: State) returns (t: State)
    requires s.reader != NotStarted && s.reader != Finished
    ensures ReaderStep(s, t)
  {
    var r := s.reader;
    if SettingUp(r) {
      t := SetUpCanStep(s);
    } else if r == Receiving {
      t := s.(reader := CaughtClosed);
    } else if Reporting(r) {
      t := ReportCanStep(s);
    } else if Exiting(r) {
      t := ExitingCanStep(s);
    } else if Failing(r) {
      t := FailingCanStep(s);
    } else {
      t := EndingCanStep(s);
    }
  }

  lemma SetUpCanStep(s: State) returns (t: State)
    requires SettingUp(s.reader)
    ensures SetUpStep(s, t)
  {
    match s.reader {
      case Importing => t := s.(reader := Registering);
      case Registering => t := s.(reader := Connecting);
      case Connecting => t := s.(reader := CaughtClosed);
      case Publishing => t := s.(reader := Resizing, websocket := true);
      case Resizing => t := s.(reader := Receiving);
    }
  }

  lemma ReportCanStep(s: State) returns (t: State)
    requires Reporting(s.reader)
    ensures ReportStep(s, t)
  {
    match s.reader {
      case StartedSession(sid) => t := s.(reader := StartedReady, sid := Some(sid));
      case StartedReady => t := s.(reader := AfterControl, ready := true);
      case RemoteSession(sid) => t := s.(reader := ErrorWrite(RemoteFailed, CheckControl), sid := Some(sid));
      case AfterControl => t := s.(reader := if s.done then Closing else Receiving);
    }
  }

  lemma ExitingCanStep(s: State) returns (t: State)
    requires Exiting(s.reader)
    ensures ExitingStep(s, t)
  {
    match s.reader {
      case ExitedSession(sid, code) => t := s.(reader := ExitedCode(code), sid := Some(sid));
      case ExitedCode(code) => t := s.(reader := ExitedReady, exitCode := Some(code));
      case ExitedReady => t := s.(reader := ExitedDone, ready := true);
      case ExitedDone => t := s.(reader := AfterControl, done := true);
    }
  }

  lemma FailingCanStep(s: State) returns (t: State)
    requires Failing(s.reader)
    ensures FailingStep(s, t)
  {
    match s.reader {
      case ErrorWrite(cause, next) => t := s.(reader := ErrorReady(next), error := if s.error == None then Some(cause) else s.error);
      case ErrorReady(next) => t := s.(reader := ErrorDone(next), ready := true);
      case ErrorDone(next) => t := s.(reader := Continue(next), done := true);
    }
  }

  predicate Ending(r: Reader) {
    Caught(r) || CleaningUp(r) || Judging(r) || Final(r)
  }

  lemma EndingCanStep(s: State) returns (t: State)
    requires Ending(s.reader)
    ensures ReaderStep(s, t)
  {
    match s.reader {
      case CaughtClosed => t := s.(reader := if s.closed then Cleaning(false) else CaughtDone);
      case CaughtDone => t := s.(reader := if s.done then Cleaning(false) else ErrorWrite(ConnectionFailed, LeaveTry));
      case Closing => t := s.(reader := CaughtClosed);
      case Cleaning(returning) => t := s.(reader := if returning then FinalReady else EndClosed, websocket := false);
      case EndClosed => t := s.(reader := if s.closed then FinalReady else EndDone);
      case EndDone => t := s.(reader := if s.done then FinalReady else ErrorWrite(NoTerminalStatus, EndThread));
      case FinalReady => t := s.(reader := FinalDone, ready := true);
      case FinalDone => t := s.(reader := NotifyDone, done := true);
      case NotifyDone => t := s.(reader := Finished);
    }
  }

  /** The steps of the reader between two states of a run. */
  ghost function ReaderSteps(run: seq<State>, i: nat, j: nat): nat
    requires i <= j < |run|
    decreases j
  {
    if i == j then 0
    else ReaderSteps(run, i, j - 1) + if ReaderStep(run[j - 1], run[j]) then 1 else 0
  }

  /** A started reader takes at most forty steps and six for every frame it receives: when
      nothing more arrives and the awaits return or raise, it finishes. */
  lemma {:induction false} ReaderEnds(run: seq<State>, i: nat, j: nat)
    requires IsRun(run) && i <= j < |run| && run[i].reader != NotStarted
    ensures run[j].reader != NotStarted && |run[i].frames| <= |run[j].frames|
    ensures ReaderSteps(run, i, j) + StepsLeft(run[j].reader)
            <= StepsLeft(run[i].reader) + 6 * (|run[j].frames| - |run[i].frames|)
    decreases j
  {
    if i < j {
      var k: nat := j - 1;
      ReaderEnds(run, i, k);
      StepOfRun(run, k);
      StepCounted(run[k], run[j]);
      assert ReaderSteps(run, i, j) == ReaderSteps(run, i, k) + if ReaderStep(run[k], run[j]) then 1 else 0;
    }
  }

  lemma StepOfRun(run: seq<State>, k: nat)
    requires IsRun(run) && k + 1 < |run|
    ensures NextState(run[k], run[k + 1])
  {
    assert StepAt(run, k);
  }

  lemma StepCounted(s: State, t: State)
    requires NextState(s, t) && s.reader != NotStarted
    ensures t.reader != NotStarted && |s.frames| <= |t.frames|
    ensures (if ReaderStep(s, t) then 1 else 0) + StepsLeft(t.reader) <= StepsLeft(s.reader) + 6 * (|t.frames| - |s.frames|)
  {
    if ReaderStep(s, t) { ReaderStepAdvances(s, t); } else { ClientStepSilent(s, t); }
  }

  lemma ClientStepSilent(s: State, t: State)
    requires Arrives(s, t) || CallStep(s, t)
    ensures s.reader != NotStarted ==> t.reader == s.reader
    ensures t.frames == s.frames
  {
  }
}
