/** The PTY connection: the reader thread and any number of client calls, interleaved
    one shared access at a time. */
module PtyTransport {
  import opened Options

  // ---------------------------------------------------------------------
  // State
  // ---------------------------------------------------------------------

  /** A message of the stream. Malformed stands for every control frame that is
      rejected; Bytes says whether the data callback fails on it. */
  datatype Message =
    | Bytes(callbackFails: bool)
    | Started(sid: string)
    | Exited(sid: string, code: int)
    | RemoteError(sid: string)
    | Malformed

  datatype Cause = ThreadFailed | CallbackFailed | BadFrame | RemoteFailed | ConnectionFailed | NoTerminalStatus

  /** Where the reader goes on once an error has been recorded. */
  datatype Next = ReturnFromRun | CheckControl | LeaveTry | EndThread

  /** The reader's program counter: one shared read or write a step. */
  datatype Reader =
    | NotStarted
    | Importing
    | Registering
    | Connecting
    | Publishing
    | Resizing
    | Receiving
    | StartedSession(sid: string)
    | StartedReady
    | ExitedSession(sid: string, code: int)
    | ExitedCode(code: int)
    | ExitedReady
    | ExitedDone
    | RemoteSession(sid: string)
    | ErrorWrite(cause: Cause, next: Next)
    | ErrorReady(next: Next)
    | ErrorDone(next: Next)
    | AfterControl
    | Closing
    | CaughtClosed
    | CaughtDone
    | Cleaning(returning: bool)
    | EndClosed
    | EndDone
    | FinalReady
    | FinalDone
    | NotifyDone
    | Finished

  datatype Reason = TimedOut | Failure(cause: Cause) | NeverStarted | ClosedByClient | NoExitStatus | NotRunning | NotConnected | WriteFailed

  /** A client call's program counter. */
  datatype Call =
    | StartWaiting
    | StartTimedOut
    | StartChecking
    | StartReading
    | StartReturned
    | WaitWaiting
    | WaitChecking
    | WaitReading
    | WaitDeciding
    | WaitReturned(code: int)
    | CloseEntering
    | CloseReturned
    | SendEntering
    | SendFailing
    | SendLocking
    | SendWriting
    | SendReturned
    | Raised(reason: Reason)

  datatype State = State(
    reader: Reader,
    ready: bool,
    done: bool,
    sid: Option<string>,
    exitCode: Option<int>,
    error: Option<Cause>,
    closed: bool,
    websocket: bool,
    frames: seq<Message>,
    calls: map<nat, Call>)

  predicate Init(s: State) {
    s == State(NotStarted, false, false, None, None, None, false, false, [], map[])
  }

  // ---------------------------------------------------------------------
  // Reader steps
  // ---------------------------------------------------------------------

  function Continue(next: Next): Reader {
    match next
    case ReturnFromRun => Closing
    case CheckControl => AfterControl
    case LeaveTry => Cleaning(false)
    case EndThread => FinalReady
  }

  function Handle(m: Message): Reader {
    match m
    case Bytes(fails) => if fails then ErrorWrite(CallbackFailed, ReturnFromRun) else Receiving
    case Started(sid) => StartedSession(sid)
    case Exited(sid, code) => ExitedSession(sid, code)
    case RemoteError(sid) => RemoteSession(sid)
    case Malformed => ErrorWrite(BadFrame, CheckControl)
  }

  /** Up to the first message. */
  predicate SettingUp(r: Reader) {
    r.Importing? || r.Registering? || r.Connecting? || r.Publishing? || r.Resizing?
  }

  /** The frames that report a start or an error. */
  predicate Reporting(r: Reader) {
    r.StartedSession? || r.StartedReady? || r.RemoteSession? || r.AfterControl?
  }

  predicate Exiting(r: Reader) {
    r.ExitedSession? || r.ExitedCode? || r.ExitedReady? || r.ExitedDone?
  }

  predicate Failing(r: Reader) {
    r.ErrorWrite? || r.ErrorReady? || r.ErrorDone?
  }

  /** In the exception handler. */
  predicate Caught(r: Reader) {
    r.CaughtClosed? || r.CaughtDone?
  }

  predicate CleaningUp(r: Reader) {
    r.Closing? || r.Cleaning?
  }

  /** Deciding whether the connection ended without a terminal status. */
  predicate Judging(r: Reader) {
    r.EndClosed? || r.EndDone?
  }

  predicate Final(r: Reader) {
    r.FinalReady? || r.FinalDone? || r.NotifyDone?
  }

  /** One step of `_thread_main` and `_run`. Awaits may also raise, for a broken
      connection or a cancellation. */
  ghost predicate ReaderStep(s: State, t: State) {
    || (SettingUp(s.reader) && SetUpStep(s, t))
    || (s.reader == Receiving && ReceiveStep(s, t))
    || (Reporting(s.reader) && ReportStep(s, t))
    || (Exiting(s.reader) && ExitingStep(s, t))
    || (Failing(s.reader) && FailingStep(s, t))
    || (Caught(s.reader) && CaughtStep(s, t))
    || (CleaningUp(s.reader) && CleanUpStep(s, t))
    || (Judging(s.reader) && JudgingStep(s, t))
    || (Final(s.reader) && FinalStep(s, t))
  }

  predicate SetUpStep(s: State, t: State)
    requires SettingUp(s.reader)
  {
    match s.reader
    case Importing => t == s.(reader := Registering) || t == s.(reader := ErrorWrite(ThreadFailed, EndThread))
    case Registering => t == s.(reader := Connecting)
    case Connecting => t == s.(reader := Publishing) || t == s.(reader := CaughtClosed)
    case Publishing => t == s.(reader := Resizing, websocket := true)
    case Resizing => t == s.(reader := Receiving) || t == s.(reader := CaughtClosed)
  }

  ghost predicate ReceiveStep(s: State, t: State) {
    || (exists m: Message :: t == s.(reader := Handle(m), frames := s.frames + [m]))
    || t == s.(reader := Cleaning(false))
    || t == s.(reader := CaughtClosed)
  }

  predicate ReportStep(s: State, t: State)
    requires Reporting(s.reader)
  {
    match s.reader
    case StartedSession(sid) => t == s.(reader := StartedReady, sid := Some(sid))
    case StartedReady => t == s.(reader := AfterControl, ready := true)
    case RemoteSession(sid) => t == s.(reader := ErrorWrite(RemoteFailed, CheckControl), sid := Some(sid))
    case AfterControl => t == s.(reader := if s.done then Closing else Receiving)
  }

  predicate ExitingStep(s: State, t: State)
    requires Exiting(s.reader)
  {
    match s.reader
    case ExitedSession(sid, code) => t == s.(reader := ExitedCode(code), sid := Some(sid))
    case ExitedCode(code) => t == s.(reader := ExitedReady, exitCode := Some(code))
    case ExitedReady => t == s.(reader := ExitedDone, ready := true)
    case ExitedDone => t == s.(reader := AfterControl, done := true)
  }

  /** `_set_error`: the first error is kept. */
  predicate FailingStep(s: State, t: State)
    requires Failing(s.reader)
  {
    match s.reader
    case ErrorWrite(cause, next) =>
      t == s.(reader := ErrorReady(next), error := if s.error == None then Some(cause) else s.error)
    case ErrorReady(next) => t == s.(reader := ErrorDone(next), ready := true)
    case ErrorDone(next) => t == s.(reader := Continue(next), done := true)
  }

  predicate CaughtStep(s: State, t: State)
    requires Caught(s.reader)
  {
    match s.reader
    case CaughtClosed => t == s.(reader := if s.closed then Cleaning(false) else CaughtDone)
    case CaughtDone => t == s.(reader := if s.done then Cleaning(false) else ErrorWrite(ConnectionFailed, LeaveTry))
  }

  predicate CleanUpStep(s: State, t: State)
    requires CleaningUp(s.reader)
  {
    match s.reader
    case Closing => t == s.(reader := Cleaning(true)) || t == s.(reader := CaughtClosed)
    case Cleaning(returning) => t == s.(reader := if returning then FinalReady else EndClosed, websocket := false)
  }

  predicate JudgingStep(s: State, t: State)
    requires Judging(s.reader)
  {
    match s.reader
    case EndClosed => t == s.(reader := if s.closed then FinalReady else EndDone)
    case EndDone => t == s.(reader := if s.done then FinalReady else ErrorWrite(NoTerminalStatus, EndThread))
  }

  predicate FinalStep(s: State, t: State)
    requires Final(s.reader)
  {
    match s.reader
    case FinalReady => t == s.(reader := FinalDone, ready := true)
    case FinalDone => t == s.(reader := NotifyDone, done := true)
    case NotifyDone => t == s.(reader := Finished)
  }

  // ---------------------------------------------------------------------
  // Client steps
  // ---------------------------------------------------------------------

  /** A new call arrives; start runs the thread. */
  ghost predicate Arrives(s: State, t: State) {
    exists id: nat :: id !in s.calls && Begins(s, t, id)
  }

  ghost predicate Begins(s: State, t: State, id: nat) {
    || t == s.(calls := s.calls[id := WaitWaiting])
    || t == s.(calls := s.calls[id := CloseEntering])
    || t == s.(calls := s.calls[id := SendEntering])
    || (s.reader == NotStarted && t == s.(reader := Importing, calls := s.calls[id := StartWaiting]))
  }

  /** The call's next program counter, given what it reads. */
  ghost predicate CallMoves(s: State, c: Call, d: Call) {
    match c
    case StartWaiting => if s.ready then d == StartChecking || d == StartTimedOut else d == StartTimedOut
    case StartTimedOut => d == Raised(TimedOut)
    case StartChecking => d == if s.error.Some? then Raised(Failure(s.error.value)) else StartReading
    case StartReading => d == if s.sid == None then Raised(NeverStarted) else StartReturned
    case WaitWaiting => (s.done && d == WaitChecking) || d == Raised(TimedOut)
    case WaitChecking => d == if s.error.Some? then Raised(Failure(s.error.value)) else WaitReading
    case WaitReading => d == if s.exitCode == None then WaitDeciding else WaitReturned(s.exitCode.value)
    case WaitDeciding => d == Raised(if s.closed then ClosedByClient else NoExitStatus)
    case CloseEntering => d == CloseReturned
    case SendEntering => d == if s.done then SendFailing else SendLocking
    case SendFailing => d == Raised(if s.error.Some? then Failure(s.error.value) else NotRunning)
    case SendLocking => d == if s.websocket then SendWriting else Raised(NotConnected)
    case SendWriting => d == SendReturned || d == Raised(WriteFailed)
    case _ => false
  }

  /** Of the shared state a call changes only the closed flag. */
  ghost predicate CallStep(s: State, t: State) {
    exists id: nat, d: Call :: id in s.calls && CallMoves(s, s.calls[id], d) &&
      t == s.(calls := s.calls[id := d],
              closed := s.closed || s.calls[id] == CloseEntering || s.calls[id] == StartTimedOut)
  }

  ghost predicate NextState(s: State, t: State) {
    ReaderStep(s, t) || Arrives(s, t) || CallStep(s, t)
  }

  // ---------------------------------------------------------------------
  // The invariant
  // ---------------------------------------------------------------------

  predicate Settled(s: State) {
    s.error.Some? || s.exitCode.Some?
  }

  /** An exited frame with this code has arrived. */
  ghost predicate ExitSeen(frames: seq<Message>, code: int) {
    exists sid :: Exited(sid, code) in frames
  }

  /** Before any terminal event. */
  predicate Quiet(s: State) {
    !s.done && s.error == None && s.exitCode == None
  }

  /** Nothing terminal has been recorded yet. */
  predicate BeforeEvent(r: Reader) {
    || r.NotStarted? || SettingUp(r) || r.Receiving? || r.StartedSession? || r.StartedReady? || r.RemoteSession?
    || r.ExitedSession? || r.ExitedCode? || r.ErrorWrite?
  }

  /** What is recorded has been announced. */
  predicate AfterEvent(r: Reader) {
    r.AfterControl? || CleaningUp(r) || Caught(r) || Judging(r) || r.FinalReady? || r.FinalDone?
  }

  /** What is known at each point of the reader. */
  ghost predicate ReaderInvariant(s: State) {
    var r := s.reader;
    && (BeforeEvent(r) ==> Quiet(s))
    && (r.StartedReady? ==> s.sid.Some?)
    && (r.ExitedSession? ==> Exited(r.sid, r.code) in s.frames)
    && (r.ExitedCode? ==> s.sid.Some? && ExitSeen(s.frames, r.code))
    && (r.ExitedReady? || r.ExitedDone? ==> !s.done && s.exitCode.Some? && s.error == None)
    && (r.ErrorReady? || r.ErrorDone? ==> !s.done && s.error.Some? && s.exitCode == None)
    && (AfterEvent(r) ==> (s.done <==> Settled(s)))
    && (r.Closing? || (r.Cleaning? && r.returning) ==> s.done)
    && (r.FinalReady? || r.FinalDone? ==> s.done || s.closed)
    && (r.ExitedDone? || r.ErrorDone? || r.FinalDone? ==> s.ready)
    && (r.NotifyDone? || r.Finished? ==> s.ready && s.done && (Settled(s) || s.closed))
  }

  ghost predicate SharedInvariant(s: State) {
    && !(s.error.Some? && s.exitCode.Some?)
    && (s.done ==> s.ready)
    && (s.done ==> Settled(s) || s.closed)
    && (s.exitCode.Some? ==> s.sid.Some? && ExitSeen(s.frames, s.exitCode.value))
    && (s.ready ==> Answered(s))
  }

  /** There is a session, or a reason why there is none. */
  predicate Answered(s: State) {
    s.sid.Some? || s.error.Some? || s.closed
  }

  /** What a call has learned stays true. */
  ghost predicate CallInvariant(s: State, c: Call) {
    match c
    case StartChecking => s.ready
    case StartReading => s.sid.Some? || s.closed
    case StartReturned => s.sid.Some?
    case CloseReturned => s.closed
    case WaitChecking => s.done
    case WaitReading => s.done && s.error == None
    case WaitDeciding => s.done && s.error == None && s.exitCode == None
    case WaitReturned(code) => s.done && s.error == None && s.exitCode == Some(code)
    case SendFailing => s.done
    case Raised(reason) =>
      (match reason
       case Failure(cause) => s.error == Some(cause)
       case ClosedByClient => s.done && s.closed && !Settled(s)
       case NoExitStatus => false
       case NotRunning => s.done && s.error == None
       case NeverStarted => s.closed
       case _ => true)
    case _ => true
  }

  ghost predicate Invariant(s: State) {
    && ReaderInvariant(s)
    && SharedInvariant(s)
    && forall id :: id in s.calls ==> CallInvariant(s, s.calls[id])
  }

  /** Once done, the outcome is final; session and closed flag are never taken back. */
  ghost predicate Grows(s: State, t: State) {
    && (s.done ==> t.done && t.error == s.error && t.exitCode == s.exitCode)
    && (s.ready ==> t.ready)
    && (s.closed ==> t.closed)
    && (s.sid.Some? ==> t.sid.Some?)
    && (s.error.Some? ==> t.error == s.error)
    && (s.exitCode.Some? ==> t.exitCode == s.exitCode)
    && s.frames <= t.frames
  }

  /** The reader handles what it received. */
  lemma ReceiveKeeps(s: State, m: Message)
    requires ReaderInvariant(s) && SharedInvariant(s) && s.reader == Receiving
    ensures var t := s.(reader := Handle(m), frames := s.frames + [m]);
            ReaderInvariant(t) && SharedInvariant(t) && Grows(s, t)
  {
    assert m in s.frames + [m];
  }

  lemma ReaderStepKeeps(s: State, t: State)
    requires ReaderInvariant(s) && SharedInvariant(s) && ReaderStep(s, t)
    ensures ReaderInvariant(t) && SharedInvariant(t) && Grows(s, t)
    ensures t.calls == s.calls
  {
    if SettingUp(s.reader) {
      SetUpStepKeeps(s, t);
    } else if s.reader == Receiving {
      ReceiveStepKeeps(s, t);
    } else if Reporting(s.reader) {
      ReportStepKeeps(s, t);
    } else if Exiting(s.reader) {
      ExitingStepKeeps(s, t);
    } else if Failing(s.reader) {
      FailingStepKeeps(s, t);
    } else if Caught(s.reader) {
      CaughtStepKeeps(s, t);
    } else if CleaningUp(s.reader) {
      CleanUpStepKeeps(s, t);
    } else if Judging(s.reader) {
      JudgingStepKeeps(s, t);
    } else {
      FinalStepKeeps(s, t);
    }
  }

  lemma ReceiveStepKeeps(s: State, t: State)
    requires ReaderInvariant(s) && SharedInvariant(s) && s.reader == Receiving && ReceiveStep(s, t)
    ensures ReaderInvariant(t) && SharedInvariant(t) && Grows(s, t) && t.calls == s.calls
  {
    if t != s.(reader := Cleaning(false)) && t != s.(reader := CaughtClosed) {
      var m: Message :| t == s.(reader := Handle(m), frames := s.frames + [m]);
      ReceiveKeeps(s, m);
    }
  }

  lemma SetUpStepKeeps(s: State, t: State)
    requires ReaderInvariant(s) && SharedInvariant(s) && SettingUp(s.reader) && SetUpStep(s, t)
    ensures ReaderInvariant(t) && SharedInvariant(t) && Grows(s, t) && t.calls == s.calls
  {
    SetUpMoves(s, t);
    OnlyMoved(s, t);
  }

  lemma SetUpMoves(s: State, t: State)
    requires SettingUp(s.reader) && SetUpStep(s, t)
    ensures t == s.(reader := t.reader, websocket := t.websocket)
    ensures SettingUp(t.reader) || t.reader in {Receiving, CaughtClosed, ErrorWrite(ThreadFailed, EndThread)}
  {
  }

  /** The reader has only moved on or hidden the connection. */
  lemma OnlyMoved(s: State, t: State)
    requires SharedInvariant(s) && t == s.(reader := t.reader, websocket := t.websocket)
    ensures SharedInvariant(t) && Grows(s, t) && t.calls == s.calls
  {
  }

  lemma ReportStepKeeps(s: State, t: State)
    requires ReaderInvariant(s) && SharedInvariant(s) && Reporting(s.reader) && ReportStep(s, t)
    ensures ReaderInvariant(t) && SharedInvariant(t) && Grows(s, t) && t.calls == s.calls
  {
  }

  lemma ExitingStepKeeps(s: State, t: State)
    requires ReaderInvariant(s) && SharedInvariant(s) && Exiting(s.reader) && ExitingStep(s, t)
    ensures ReaderInvariant(t) && SharedInvariant(t) && Grows(s, t) && t.calls == s.calls
  {
    if s.reader.ExitedSession? { assert ExitSeen(s.frames, s.reader.code); }
  }

  lemma FailingStepKeeps(s: State, t: State)
    requires ReaderInvariant(s) && SharedInvariant(s) && Failing(s.reader) && FailingStep(s, t)
    ensures ReaderInvariant(t) && SharedInvariant(t) && Grows(s, t) && t.calls == s.calls
  {
  }

  lemma CaughtStepKeeps(s: State, t: State)
    requires ReaderInvariant(s) && SharedInvariant(s) && Caught(s.reader) && CaughtStep(s, t)
    ensures ReaderInvariant(t) && SharedInvariant(t) && Grows(s, t) && t.calls == s.calls
  {
  }

  lemma CleanUpStepKeeps(s: State, t: State)
    requires ReaderInvariant(s) && SharedInvariant(s) && CleaningUp(s.reader) && CleanUpStep(s, t)
    ensures ReaderInvariant(t) && SharedInvariant(t) && Grows(s, t) && t.calls == s.calls
  {
  }

  lemma JudgingStepKeeps(s: State, t: State)
    requires ReaderInvariant(s) && SharedInvariant(s) && Judging(s.reader) && JudgingStep(s, t)
    ensures ReaderInvariant(t) && SharedInvariant(t) && Grows(s, t) && t.calls == s.calls
  {
  }

  lemma FinalStepKeeps(s: State, t: State)
    requires ReaderInvariant(s) && SharedInvariant(s) && Final(s.reader) && FinalStep(s, t)
    ensures ReaderInvariant(t) && SharedInvariant(t) && Grows(s, t) && t.calls == s.calls
  {
  }

  lemma CallInvariantGrows(s: State, t: State, c: Call)
    requires CallInvariant(s, c) && Grows(s, t)
    ensures CallInvariant(t, c)
  {
  }

  lemma CallMoveKeeps(s: State, c: Call, d: Call)
    requires SharedInvariant(s) && CallInvariant(s, c) && CallMoves(s, c, d)
    ensures CallInvariant(s.(closed := s.closed || c == CloseEntering), d)
  {
  }

  /** Every step of every thread keeps the invariant. */
  lemma StepKeeps(s: State, t: State)
    requires Invariant(s) && NextState(s, t)
    ensures Invariant(t) && Grows(s, t)
  {
    if ReaderStep(s, t) {
      ReaderStepKeeps(s, t);
      CallsKept(s, t);
    } else if CallStep(s, t) {
      CallStepKeeps(s, t);
    } else {
      ArrivalKeeps(s, t);
    }
  }

  lemma CallsKept(s: State, t: State)
    requires Grows(s, t) && t.calls == s.calls
    requires forall id :: id in s.calls ==> CallInvariant(s, s.calls[id])
    ensures forall id :: id in t.calls ==> CallInvariant(t, t.calls[id])
  {
    forall id | id in t.calls ensures CallInvariant(t, t.calls[id]) {
      CallInvariantGrows(s, t, s.calls[id]);
    }
  }

  /** What calls write disturbs neither the reader nor what is already decided. */
  lemma ClientWrites(s: State, calls: map<nat, Call>, closed: bool) returns (t: State)
    requires ReaderInvariant(s) && SharedInvariant(s) && (s.closed ==> closed)
    ensures t == s.(calls := calls, closed := closed)
    ensures ReaderInvariant(t) && SharedInvariant(t) && Grows(s, t)
  {
    t := s.(calls := calls, closed := closed);
  }

  lemma CallStepKeeps(s: State, t: State)
    requires Invariant(s) && CallStep(s, t)
    ensures Invariant(t) && Grows(s, t)
  {
    var id: nat, d: Call :| id in s.calls && CallMoves(s, s.calls[id], d) &&
      t == s.(calls := s.calls[id := d],
              closed := s.closed || s.calls[id] == CloseEntering || s.calls[id] == StartTimedOut);
    CallMoveKeeps(s, s.calls[id], d);
    var u := ClientWrites(s, t.calls, t.closed);
    CallInvariantGrows(s.(closed := s.closed || s.calls[id] == CloseEntering), t, d);
    MovedCallsKept(s, t, id, d);
  }

  lemma MovedCallsKept(s: State, t: State, id: nat, d: Call)
    requires Grows(s, t) && id in s.calls && t.calls == s.calls[id := d] && CallInvariant(t, d)
    requires forall k :: k in s.calls ==> CallInvariant(s, s.calls[k])
    ensures forall k :: k in t.calls ==> CallInvariant(t, t.calls[k])
  {
    forall k | k in t.calls && k != id ensures CallInvariant(t, t.calls[k]) {
      CallInvariantGrows(s, t, s.calls[k]);
    }
  }

  lemma ArrivalKeeps(s: State, t: State)
    requires Invariant(s) && Arrives(s, t)
    ensures Invariant(t) && Grows(s, t)
  {
    var id: nat :| id !in s.calls && Begins(s, t, id);
    ArrivalGrows(s, t, id);
    NewCallKnowsNothing(s, t, id);
    ArrivedCallsKept(s, t, id, t.calls[id]);
  }

  lemma ArrivalGrows(s: State, t: State, id: nat)
    requires ReaderInvariant(s) && SharedInvariant(s) && Begins(s, t, id)
    ensures ReaderInvariant(t) && SharedInvariant(t) && Grows(s, t)
  {
    BeginsWrites(s, t, id);
    var u := ClientWrites(s, t.calls, s.closed);
    if t != u {
      ThreadStarted(u);
    }
  }

  /** An arrival writes the calls, and the first one starts the thread. */
  lemma BeginsWrites(s: State, t: State, id: nat)
    requires Begins(s, t, id)
    ensures var u := s.(calls := t.calls);
            t == u || (u.reader == NotStarted && t == u.(reader := Importing))
  {
  }

  lemma NewCallKnowsNothing(s: State, t: State, id: nat)
    requires Begins(s, t, id)
    ensures id in t.calls && t.calls == s.calls[id := t.calls[id]]
    ensures CallInvariant(t, t.calls[id])
  {
  }

  lemma ArrivedCallsKept(s: State, t: State, id: nat, c: Call)
    requires Grows(s, t) && t.calls == s.calls[id := c] && CallInvariant(t, c)
    requires forall k :: k in s.calls ==> CallInvariant(s, s.calls[k])
    ensures forall k :: k in t.calls ==> CallInvariant(t, t.calls[k])
  {
    forall k | k in t.calls && k != id ensures CallInvariant(t, t.calls[k]) {
      CallInvariantGrows(s, t, s.calls[k]);
    }
  }

  lemma ThreadStarted(s: State)
    requires ReaderInvariant(s) && SharedInvariant(s) && s.reader == NotStarted
    ensures var t := s.(reader := Importing); ReaderInvariant(t) && SharedInvariant(t) && Grows(s, t)
  {
  }

  lemma GrowsTransitive(s: State, t: State, u: State)
    requires Grows(s, t) && Grows(t, u)
    ensures Grows(s, u)
  {
  }

  // ---------------------------------------------------------------------
  // Runs
  // ---------------------------------------------------------------------

  ghost predicate IsRun(run: seq<State>) {
    && run != [] && Init(run[0])
    && forall i :: 0 <= i < |run| - 1 ==> StepAt(run, i)
  }

  ghost predicate StepAt(run: seq<State>, i: nat)
    requires i + 1 < |run|
  {
    NextState(run[i], run[i + 1])
  }

  lemma {:induction false} RunInvariant(run: seq<State>, i: nat)
    requires IsRun(run) && i < |run|
    ensures Invariant(run[i])
  {
    if i > 0 {
      RunInvariant(run, i - 1);
      assert StepAt(run, i - 1);
      StepKeeps(run[i - 1], run[i]);
    }
  }

  lemma {:induction false} RunGrows(run: seq<State>, i: nat, j: nat)
    requires IsRun(run) && i <= j < |run|
    ensures Grows(run[i], run[j])
    decreases j
  {
    if i < j {
      RunGrows(run, i, j - 1);
      RunInvariant(run, j - 1);
      assert StepAt(run, j - 1);
      StepKeeps(run[j - 1], run[j]);
      GrowsTransitive(run[i], run[j - 1], run[j]);
    }
  }

  /** In every interleaving: done is never cleared, the error is written at most once,
      and once done the outcome does not change any more. */
  lemma OutcomeIsFinal(run: seq<State>, i: nat, j: nat)
    requires IsRun(run) && i <= j < |run|
    ensures run[i].done ==> run[j].done && run[j].error == run[i].error && run[j].exitCode == run[i].exitCode
    ensures run[i].error.Some? ==> run[j].error == run[i].error
    ensures run[i].exitCode.Some? ==> run[j].exitCode == run[i].exitCode
  {
    RunGrows(run, i, j);
  }

  /** An exit code and an error are never both set; a finished reader leaves ready and
      done set; and a connection that ended unsettled was closed by the client. */
  lemma OutcomeIsConsistent(run: seq<State>, i: nat)
    requires IsRun(run) && i < |run|
    ensures !(run[i].error.Some? && run[i].exitCode.Some?)
    ensures run[i].reader == Finished ==> run[i].ready && run[i].done
    ensures run[i].done && !run[i].closed ==> Settled(run[i])
  {
    RunInvariant(run, i);
  }

  /** What a returned or failed call says about the connection: start returns only with
      a session, and misses one only when the client closed; a returned close has set the
      closed flag; wait returns n only after an exited frame carrying n and without an
      error; a reported failure is the recorded one; and wait never reports a missing
      exit status. */
  lemma CallsTellTheTruth(run: seq<State>, i: nat, id: nat)
    requires IsRun(run) && i < |run| && id in run[i].calls
    ensures run[i].calls[id] == StartReturned ==> run[i].sid.Some?
    ensures run[i].calls[id] == Raised(NeverStarted) ==> run[i].closed
    ensures run[i].calls[id] == CloseReturned ==> run[i].closed
    ensures run[i].calls[id].WaitReturned? ==>
              && run[i].error == None
              && ExitSeen(run[i].frames, run[i].calls[id].code)
    ensures run[i].calls[id].Raised? && run[i].calls[id].reason.Failure? ==>
              run[i].error == Some(run[i].calls[id].reason.cause)
    ensures run[i].calls[id] == Raised(ClosedByClient) ==> run[i].closed && !Settled(run[i])
    ensures run[i].calls[id] != Raised(NoExitStatus)
  {
    RunInvariant(run, i);
  }

  /** A call to wait that has not come back. */
  predicate InWait(c: Call) {
    c.WaitWaiting? || c.WaitChecking? || c.WaitReading? || c.WaitDeciding?
  }

  /** What a call to wait can be at any later time. */
  predicate OfWait(c: Call) {
    || InWait(c) || c.WaitReturned?
    || (c.Raised? && (c.reason.Failure? || c.reason in {TimedOut, ClosedByClient, NoExitStatus}))
  }

  lemma StepKeepsWait(s: State, t: State, id: nat)
    requires Invariant(s) && NextState(s, t) && id in s.calls && OfWait(s.calls[id])
    ensures id in t.calls && OfWait(t.calls[id])
  {
    if ReaderStep(s, t) {
      ReaderStepKeeps(s, t);
    } else if CallStep(s, t) {
      CallStepKeepsWait(s, t, id);
    }
  }

  lemma CallStepKeepsWait(s: State, t: State, id: nat)
    requires CallStep(s, t) && id in s.calls && OfWait(s.calls[id])
    ensures id in t.calls && OfWait(t.calls[id])
  {
  }

  lemma {:induction false} WaitStaysWait(run: seq<State>, i: nat, j: nat, id: nat)
    requires IsRun(run) && i <= j < |run| && id in run[i].calls && OfWait(run[i].calls[id])
    ensures id in run[j].calls && OfWait(run[j].calls[id])
    decreases j
  {
    if i < j {
      WaitStaysWait(run, i, j - 1, id);
      RunInvariant(run, j - 1);
      assert StepAt(run, j - 1);
      StepKeepsWait(run[j - 1], run[j], id);
    }
  }

  /** Once a wait has returned a code, every call to wait, begun before or after, is
      still waiting, has returned the same code, or has timed out. */
  lemma WaitsAgree(run: seq<State>, i: nat, k: nat, j: nat, a: nat, b: nat)
    requires IsRun(run) && i <= j < |run| && k <= j
    requires a in run[i].calls && run[i].calls[a].WaitReturned?
    requires b in run[k].calls && InWait(run[k].calls[b])
    ensures b in run[j].calls
    ensures var c := run[j].calls[b];
            InWait(c) || c == WaitReturned(run[i].calls[a].code) || c == Raised(TimedOut)
  {
    RunInvariant(run, i);
    RunInvariant(run, j);
    RunGrows(run, i, j);
    WaitStaysWait(run, k, j, b);
    assert CallInvariant(run[j], run[j].calls[b]);
  }
}
