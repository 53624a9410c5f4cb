// How the HTTP client of btor/httplib.h shares one socket between threads: send
// (which may be called again by the thread that is inside a request), stop, and
// the closing of the socket at the end of a response, as a step relation.
module ClientSocket {
  import opened Wrappers

  type Thread = nat

  // Where a call of send, stop or lock_socket_and_shutdown_and_close has got.
  // The calls of a thread are a stack; the last one is the active one.
  datatype Frame =
    | Entered                   // send: holds request_mutex_
    | Clearing                  // send: locked socket_mutex_
    | Opening                   // send: cleared the flag, about to test the socket
    | Connecting                // send: no live socket, about to connect
    | Marking                   // send: about to count the request
    | Requesting                // send: socket_mutex_ released, request going on
    | Finishing(close: bool)    // send: locked again; close: close_connection || !ret
    | Deciding(close: bool)     // send: request no longer counted
    | Stopping                  // stop: locked socket_mutex_
    | ClosingSelf               // lock_socket_and_shutdown_and_close: locked

  datatype State = State(
    stacks: seq<seq<Frame>>,       // the calls of each thread
    requestOwner: Option<Thread>,  // request_mutex_ is recursive
    requestDepth: nat,
    socketHolder: Option<Thread>,  // socket_mutex_
    socketOpen: bool,
    inFlight: int,                 // socket_requests_in_flight_
    fromThread: Option<Thread>,    // socket_requests_are_from_thread_
    closeWhenDone: bool            // socket_should_be_closed_when_request_is_done_
  )

  predicate Init(s: State) {
    && (forall t | 0 <= t < |s.stacks| :: s.stacks[t] == [])
    && s.requestOwner == None && s.requestDepth == 0 && s.socketHolder == None
    && s.inFlight == 0 && s.fromThread == None && !s.closeWhenDone
  }

  datatype Step =
    | CallSend(t: Thread)
    | LockToOpen(t: Thread)
    | ClearFlag(t: Thread)
    | TestSocket(t: Thread, alive: bool)
    | Connect(t: Thread, ok: bool)
    | Mark(t: Thread)
    | LockToFinish(t: Thread, close: bool)
    | Unmark(t: Thread)
    | Decide(t: Thread)
    | CallStop(t: Thread)
    | DoStop(t: Thread)
    | CallCloseSelf(t: Thread)
    | DoCloseSelf(t: Thread)
    | Destroy(t: Thread)

  function Top(s: State, t: Thread): Option<Frame> {
    if t < |s.stacks| && s.stacks[t] != [] then Some(s.stacks[t][|s.stacks[t]| - 1]) else None
  }

  // The thread runs code of its own: outside all calls, or inside a request.
  predicate AtLarge(s: State, t: Thread) {
    t < |s.stacks| && (s.stacks[t] == [] || Top(s, t) == Some(Requesting))
  }

  // No thread is inside a call.
  predicate AllAway(s: State) { forall t | 0 <= t < |s.stacks| :: s.stacks[t] == [] }

  predicate Enabled(s: State, step: Step) {
    match step
    case CallSend(t) => AtLarge(s, t) && (s.requestOwner == None || s.requestOwner == Some(t))
    case LockToOpen(t) => Top(s, t) == Some(Entered) && s.socketHolder == None
    case ClearFlag(t) => Top(s, t) == Some(Clearing)
    case TestSocket(t, _) => Top(s, t) == Some(Opening)
    case Connect(t, _) => Top(s, t) == Some(Connecting)
    case Mark(t) => Top(s, t) == Some(Marking)
    case LockToFinish(t, _) => Top(s, t) == Some(Requesting) && s.socketHolder == None
    case Unmark(t) => Top(s, t).Some? && Top(s, t).value.Finishing?
    case Decide(t) => Top(s, t).Some? && Top(s, t).value.Deciding?
    case CallStop(t) => AtLarge(s, t) && s.socketHolder == None
    case DoStop(t) => Top(s, t) == Some(Stopping)
    case CallCloseSelf(t) => Top(s, t) == Some(Requesting) && s.socketHolder == None
    case DoCloseSelf(t) => Top(s, t) == Some(ClosingSelf)
    // The destructor, when no thread is using the client any more.
    case Destroy(t) =>
      t < |s.stacks| && s.socketHolder == None && AllAway(s)
  }

  function Push(s: State, t: Thread, f: Frame): State
    requires t < |s.stacks|
  {
    s.(stacks := s.stacks[t := s.stacks[t] + [f]])
  }

  function Pop(s: State, t: Thread): State
    requires t < |s.stacks| && s.stacks[t] != []
  {
    s.(stacks := s.stacks[t := s.stacks[t][..|s.stacks[t]| - 1]])
  }

  function Go(s: State, t: Thread, f: Frame): State
    requires t < |s.stacks| && s.stacks[t] != []
  {
    s.(stacks := s.stacks[t := s.stacks[t][|s.stacks[t]| - 1 := f]])
  }

  // Leaving send: the request mutex is released once.
  function Return(s: State, t: Thread): State
    requires t < |s.stacks| && s.stacks[t] != []
  {
    Pop(s, t).(
      requestDepth := if s.requestDepth == 0 then 0 else s.requestDepth - 1,
      requestOwner := if s.requestDepth <= 1 then None else s.requestOwner)
  }

  function Apply(s: State, step: Step): State
    requires Enabled(s, step)
  {
    match step
    case CallSend(t) => Push(s, t, Entered).(requestOwner := Some(t), requestDepth := s.requestDepth + 1)
    case LockToOpen(t) => Go(s, t, Clearing).(socketHolder := Some(t))
    case ClearFlag(t) => Go(s, t, Opening).(closeWhenDone := false)
    case TestSocket(t, alive) =>
      if s.socketOpen && alive then Go(s, t, Marking)
      else Go(s, t, Connecting).(socketOpen := false)
    case Connect(t, ok) =>
      if ok then Go(s, t, Marking).(socketOpen := true)
      else Return(s, t).(socketHolder := None)
    case Mark(t) => Go(s, t, Requesting).(inFlight := s.inFlight + 1, fromThread := Some(t), socketHolder := None)
    case LockToFinish(t, close) => Go(s, t, Finishing(close)).(socketHolder := Some(t))
    case Unmark(t) =>
      Go(s, t, Deciding(Top(s, t).value.close)).(
        inFlight := s.inFlight - 1,
        fromThread := if s.inFlight - 1 <= 0 then None else s.fromThread)
    case Decide(t) =>
      Return(s, t).(
        socketOpen := s.socketOpen && !(s.closeWhenDone || Top(s, t).value.close),
        socketHolder := None)
    case CallStop(t) => Push(s, t, Stopping).(socketHolder := Some(t))
    case DoStop(t) =>
      if s.inFlight > 0 then Pop(s, t).(closeWhenDone := true, socketHolder := None)
      else Pop(s, t).(socketOpen := false, socketHolder := None)
    case CallCloseSelf(t) => Push(s, t, ClosingSelf).(socketHolder := Some(t))
    case DoCloseSelf(t) => Pop(s, t).(socketOpen := false, socketHolder := None)
    case Destroy(_) => s.(socketOpen := false)
  }

  ghost predicate IsRun(run: seq<State>, steps: seq<Step>) {
    && |run| == |steps| + 1 && Init(run[0])
    && forall i | 0 <= i < |steps| :: Enabled(run[i], steps[i]) && run[i + 1] == Apply(run[i], steps[i])
  }

  // The step calls close_socket.
  predicate Closes(s: State, step: Step)
    requires Enabled(s, step)
  {
    match step
    case TestSocket(t, alive) => s.socketOpen && !alive
    case Decide(t) => s.closeWhenDone || Top(s, t).value.close
    case DoStop(t) => s.inFlight <= 0
    case DoCloseSelf(t) => true
    case Destroy(t) => true
    case _ => false
  }

  // ---- the invariant ----

  predicate IsSend(f: Frame) { !f.Stopping? && !f.ClosingSelf? }

  // The request of this call is counted in socket_requests_in_flight_.
  predicate Counted(f: Frame) { f.Requesting? || f.Finishing? }

  // A call in this state holds socket_mutex_.
  predicate Locks(f: Frame) { !f.Entered? && !f.Requesting? }

  predicate LocksNow(frames: seq<Frame>) { frames != [] && Locks(frames[|frames| - 1]) }

  function CountSends(frames: seq<Frame>): nat {
    if frames == [] then 0
    else CountSends(frames[..|frames| - 1]) + (if IsSend(frames[|frames| - 1]) then 1 else 0)
  }

  // How deeply requests are nested in these calls.
  function Nesting(frames: seq<Frame>): nat {
    if frames == [] then 0
    else Nesting(frames[..|frames| - 1]) + (if Counted(frames[|frames| - 1]) then 1 else 0)
  }

  // Below the active call, all calls are requests that are going on.
  predicate Stacked(frames: seq<Frame>) {
    && (forall k | 0 <= k < |frames| - 1 :: frames[k] == Requesting)
    && (frames != [] && frames[|frames| - 1] == ClosingSelf ==> |frames| > 1)
  }

  ghost predicate Nested(s: State) {
    forall t | 0 <= t < |s.stacks| :: Stacked(s.stacks[t])
  }

  // request_mutex_: only its owner is inside send.
  ghost predicate RequestMutex(s: State) {
    && (forall t | 0 <= t < |s.stacks| && s.requestOwner != Some(t) :: CountSends(s.stacks[t]) == 0)
    && match s.requestOwner
       case None => s.requestDepth == 0
       case Some(t) => t < |s.stacks| && s.requestDepth == CountSends(s.stacks[t]) > 0
  }

  // socket_mutex_: only its holder is in a section that it protects.
  ghost predicate SocketMutex(s: State) {
    forall t | 0 <= t < |s.stacks| :: s.socketHolder == Some(t) <==> LocksNow(s.stacks[t])
  }

  // The counter is the nesting depth of the thread inside send, and names it.
  ghost predicate Counter(s: State) {
    && s.inFlight == (match s.requestOwner
                      case None => 0
                      case Some(t) => if t < |s.stacks| then Nesting(s.stacks[t]) else 0)
    && s.fromThread == (if s.inFlight > 0 then s.requestOwner else None)
  }

  ghost predicate Inv(s: State) { Nested(s) && RequestMutex(s) && SocketMutex(s) && Counter(s) }

  lemma {:induction false} CountMore(frames: seq<Frame>, f: Frame)
    ensures CountSends(frames + [f]) == CountSends(frames) + (if IsSend(f) then 1 else 0)
    ensures Nesting(frames + [f]) == Nesting(frames) + (if Counted(f) then 1 else 0)
  {
    assert (frames + [f])[..|frames|] == frames;
  }

  lemma CountLast(frames: seq<Frame>, f: Frame)
    requires frames != []
    ensures var n := |frames| - 1;
            && CountSends(frames[n := f]) == CountSends(frames[..n]) + (if IsSend(f) then 1 else 0)
            && Nesting(frames[n := f]) == Nesting(frames[..n]) + (if Counted(f) then 1 else 0)
  {
    var n := |frames| - 1;
    assert frames[n := f][..n] == frames[..n];
  }

  lemma {:induction false} NestingOfNone(frames: seq<Frame>)
    requires CountSends(frames) == 0
    ensures Nesting(frames) == 0
  {
    if frames != [] {
      NestingOfNone(frames[..|frames| - 1]);
    }
  }

  lemma InitInv(s: State)
    requires Init(s)
    ensures Inv(s)
  {
  }

  // A thread whose active call is send owns the request mutex.
  lemma OwnerOfSend(s: State, t: Thread)
    requires RequestMutex(s) && Top(s, t).Some? && IsSend(Top(s, t).value)
    ensures s.requestOwner == Some(t)
  {
  }

  // What the last call contributes to the counts of its thread.
  lemma CountActive(frames: seq<Frame>, f: Frame)
    requires frames != []
    ensures var n := |frames| - 1;
            && CountSends(frames) == CountSends(frames[..n]) + (if IsSend(frames[n]) then 1 else 0)
            && Nesting(frames) == Nesting(frames[..n]) + (if Counted(frames[n]) then 1 else 0)
            && CountSends(frames[n := f]) == CountSends(frames[..n]) + (if IsSend(f) then 1 else 0)
            && Nesting(frames[n := f]) == Nesting(frames[..n]) + (if Counted(f) then 1 else 0)
            && (CountSends(frames[..n]) == 0 ==> Nesting(frames[..n]) == 0)
  {
    var n := |frames| - 1;
    CountLast(frames, frames[n]);
    CountLast(frames, f);
    assert frames[n := frames[n]] == frames;
    if CountSends(frames[..n]) == 0 {
      NestingOfNone(frames[..n]);
    }
  }

  // How a step changes the number of sends, and of counted requests, of its thread.
  function SendsChange(s: State, step: Step): int
    requires Enabled(s, step)
  {
    match step
    case CallSend(_) => 1
    case Connect(_, ok) => if ok then 0 else -1
    case Decide(_) => -1
    case _ => 0
  }

  function NestingChange(s: State, step: Step): int
    requires Enabled(s, step)
  {
    match step
    case Mark(_) => 1
    case Unmark(_) => -1
    case _ => 0
  }

  datatype Move = Pushed(f: Frame) | Replaced(before: Frame, f: Frame) | Popped(before: Frame) | Unmoved

  // What a step does to the calls of its thread.
  function MoveOf(s: State, step: Step): Move
    requires Enabled(s, step)
  {
    match step
    case CallSend(_) => Pushed(Entered)
    case LockToOpen(_) => Replaced(Entered, Clearing)
    case ClearFlag(_) => Replaced(Clearing, Opening)
    case TestSocket(_, alive) => Replaced(Opening, if s.socketOpen && alive then Marking else Connecting)
    case Connect(_, ok) => if ok then Replaced(Connecting, Marking) else Popped(Connecting)
    case Mark(_) => Replaced(Marking, Requesting)
    case LockToFinish(_, close) => Replaced(Requesting, Finishing(close))
    case Unmark(t) => Replaced(Top(s, t).value, Deciding(Top(s, t).value.close))
    case Decide(t) => Popped(Top(s, t).value)
    case CallStop(_) => Pushed(Stopping)
    case DoStop(_) => Popped(Stopping)
    case CallCloseSelf(_) => Pushed(ClosingSelf)
    case DoCloseSelf(_) => Popped(ClosingSelf)
    case Destroy(_) => Unmoved
  }

  ghost predicate Moved(frames: seq<Frame>, frames': seq<Frame>, move: Move) {
    match move
    case Pushed(f) => frames' == frames + [f]
    case Replaced(before, f) =>
      frames != [] && frames[|frames| - 1] == before && frames' == frames[|frames| - 1 := f]
    case Popped(before) => frames != [] && frames[|frames| - 1] == before && frames' == frames[..|frames| - 1]
    case Unmoved => frames' == frames == []
  }

  lemma MoveIsRight(s: State, step: Step)
    requires Enabled(s, step)
    ensures Moved(s.stacks[step.t], Apply(s, step).stacks[step.t], MoveOf(s, step))
  {
  }

  function Sends(f: Frame): int { if IsSend(f) then 1 else 0 }

  function Counts(f: Frame): int { if Counted(f) then 1 else 0 }

  lemma MoveChanges(s: State, step: Step)
    requires Enabled(s, step)
    ensures match MoveOf(s, step)
            case Pushed(f) => SendsChange(s, step) == Sends(f) && NestingChange(s, step) == Counts(f)
            case Replaced(before, f) =>
              && SendsChange(s, step) == Sends(f) - Sends(before)
              && NestingChange(s, step) == Counts(f) - Counts(before)
            case Popped(before) =>
              SendsChange(s, step) == -Sends(before) && NestingChange(s, step) == -Counts(before)
            case Unmoved => SendsChange(s, step) == 0 && NestingChange(s, step) == 0
  {
  }

  lemma CountsChange(s: State, step: Step)
    requires Enabled(s, step)
    ensures var frames, frames' := s.stacks[step.t], Apply(s, step).stacks[step.t];
            && CountSends(frames') == CountSends(frames) + SendsChange(s, step)
            && Nesting(frames') == Nesting(frames) + NestingChange(s, step)
            && (CountSends(frames') == 0 ==> Nesting(frames') == 0)
  {
    var frames, frames' := s.stacks[step.t], Apply(s, step).stacks[step.t];
    MoveIsRight(s, step);
    MoveChanges(s, step);
    if CountSends(frames') == 0 {
      NestingOfNone(frames');
    }
    match MoveOf(s, step)
    case Pushed(f) => CountMore(frames, f);
    case Replaced(_, f) => CountActive(frames, f);
    case Popped(_) => CountActive(frames, Entered);
    case Unmoved =>
    hide Apply, CountSends, Nesting, MoveOf, SendsChange, NestingChange;
  }

  lemma OnlyActor(s: State, step: Step)
    requires Enabled(s, step)
    ensures var s' := Apply(s, step);
            && |s'.stacks| == |s.stacks| && step.t < |s.stacks|
            && forall t | 0 <= t < |s.stacks| && t != step.t :: s'.stacks[t] == s.stacks[t]
  {
  }

  lemma MoveAllowed(s: State, step: Step)
    requires Enabled(s, step)
    ensures var frames := s.stacks[step.t];
            match MoveOf(s, step)
            case Pushed(f) =>
              (frames == [] || frames[|frames| - 1] == Requesting) && (f == ClosingSelf ==> frames != [])
            case Replaced(_, f) => f != ClosingSelf
            case _ => true
  {
  }

  lemma StackedMove(frames: seq<Frame>, frames': seq<Frame>, move: Move)
    requires Stacked(frames) && Moved(frames, frames', move)
    requires move.Pushed? ==> frames == [] || frames[|frames| - 1] == Requesting
    requires move.Pushed? && move.f == ClosingSelf ==> frames != []
    requires move.Replaced? ==> move.f != ClosingSelf
    ensures Stacked(frames')
    ensures move.Popped? && frames' != [] ==> frames'[|frames'| - 1] == Requesting
  {
  }

  lemma NestedStep(s: State, step: Step)
    requires Nested(s) && Enabled(s, step)
    ensures Nested(Apply(s, step))
  {
    hide Apply, Enabled, MoveOf, Moved, Stacked;
    OnlyActor(s, step);
    MoveIsRight(s, step);
    MoveAllowed(s, step);
    StackedMove(s.stacks[step.t], Apply(s, step).stacks[step.t], MoveOf(s, step));
  }

  // Whether the active call locks socket_mutex_, before and after a step.
  lemma LocksMove(s: State, step: Step)
    requires Nested(s) && Enabled(s, step)
    ensures LocksNow(s.stacks[step.t]) == (match MoveOf(s, step)
                                           case Pushed(_) => false
                                           case Replaced(before, _) => Locks(before)
                                           case Popped(before) => Locks(before)
                                           case Unmoved => false)
    ensures LocksNow(Apply(s, step).stacks[step.t]) == (match MoveOf(s, step)
                                                        case Pushed(f) => Locks(f)
                                                        case Replaced(_, f) => Locks(f)
                                                        case _ => false)
  {
    hide Apply, Enabled, MoveOf;
    OnlyActor(s, step);
    MoveIsRight(s, step);
    MoveAllowed(s, step);
    StackedMove(s.stacks[step.t], Apply(s, step).stacks[step.t], MoveOf(s, step));
  }

  // A step takes the mutex only when it is free, and gives it back.
  lemma HolderAfter(s: State, step: Step)
    requires Enabled(s, step)
    ensures var before := match MoveOf(s, step)
                          case Replaced(b, _) => Locks(b) case Popped(b) => Locks(b) case _ => false;
            var after := match MoveOf(s, step)
                         case Pushed(f) => Locks(f) case Replaced(_, f) => Locks(f) case _ => false;
            && (after && !before ==> s.socketHolder == None && Apply(s, step).socketHolder == Some(step.t))
            && (after == before ==> Apply(s, step).socketHolder == s.socketHolder)
            && (before && !after ==> Apply(s, step).socketHolder == None)
  {
  }

  lemma SocketMutexStep(s: State, step: Step)
    requires Nested(s) && SocketMutex(s) && Enabled(s, step)
    ensures SocketMutex(Apply(s, step))
  {
    hide Apply, Enabled, MoveOf, LocksNow, Locks, Nested;
    OnlyActor(s, step);
    LocksMove(s, step);
    HolderAfter(s, step);
  }

  lemma ActorOwns(s: State, step: Step)
    requires RequestMutex(s) && Enabled(s, step)
    ensures SendsChange(s, step) == -1 || NestingChange(s, step) != 0 ==> s.requestOwner == Some(step.t)
    ensures SendsChange(s, step) == 1 ==> s.requestOwner == None || s.requestOwner == Some(step.t)
  {
    if Top(s, step.t).Some? && IsSend(Top(s, step.t).value) {
      OwnerOfSend(s, step.t);
    }
  }

  lemma RequestMutexStep(s: State, step: Step)
    requires RequestMutex(s) && Enabled(s, step)
    ensures RequestMutex(Apply(s, step))
  {
    CountsChange(s, step);
    OnlyActor(s, step);
    ActorOwns(s, step);
    OwnerAfter(s, step);
    hide Apply, CountSends, Nesting, Enabled;
  }

  lemma OwnerAfter(s: State, step: Step)
    requires Enabled(s, step)
    ensures var s' := Apply(s, step);
            match SendsChange(s, step)
            case 1 => s'.requestOwner == Some(step.t) && s'.requestDepth == s.requestDepth + 1
            case 0 => s'.requestOwner == s.requestOwner && s'.requestDepth == s.requestDepth
            case _ =>
              && s'.requestOwner == (if s.requestDepth <= 1 then None else s.requestOwner)
              && s'.requestDepth == (if s.requestDepth == 0 then 0 else s.requestDepth - 1)
  {
  }

  lemma CounterAfter(s: State, step: Step)
    requires Enabled(s, step)
    ensures var s' := Apply(s, step);
            && s'.inFlight == s.inFlight + NestingChange(s, step)
            && s'.fromThread == (match NestingChange(s, step)
                                 case 1 => Some(step.t)
                                 case 0 => s.fromThread
                                 case _ => if s'.inFlight <= 0 then None else s.fromThread)
  {
  }

  lemma CounterStep(s: State, step: Step)
    requires RequestMutex(s) && Counter(s) && Enabled(s, step)
    ensures Counter(Apply(s, step))
  {
    CountsChange(s, step);
    OnlyActor(s, step);
    ActorOwns(s, step);
    OwnerAfter(s, step);
    CounterAfter(s, step);
    NestingOfNone(s.stacks[step.t][..0]);
    if CountSends(s.stacks[step.t]) == 0 {
      NestingOfNone(s.stacks[step.t]);
    }
    hide Apply, CountSends, Nesting, Enabled;
  }

  lemma StepKeepsInv(s: State, step: Step)
    requires Inv(s) && Enabled(s, step)
    ensures Inv(Apply(s, step))
  {
    NestedStep(s, step);
    SocketMutexStep(s, step);
    RequestMutexStep(s, step);
    CounterStep(s, step);
  }

  lemma {:induction false} RunKeepsInv(run: seq<State>, steps: seq<Step>, i: nat)
    requires IsRun(run, steps) && i < |run|
    ensures Inv(run[i])
  {
    if i == 0 {
      InitInv(run[0]);
    } else {
      RunKeepsInv(run, steps, i - 1);
      StepKeepsInv(run[i - 1], steps[i - 1]);
    }
  }

  // ---- what holds in every state of every run ----

  // socket_requests_in_flight_ is the nesting depth of the requests of a single
  // thread, socket_requests_are_from_thread_ names that thread, and no other
  // thread has a request going on.
  lemma CounterNamesTheThread(run: seq<State>, steps: seq<Step>, i: nat, t: Thread)
    requires IsRun(run, steps) && i < |run| && t < |run[i].stacks|
    ensures Nesting(run[i].stacks[t]) == (if run[i].fromThread == Some(t) then run[i].inFlight else 0)
    ensures run[i].inFlight >= 0 && (run[i].inFlight > 0 <==> run[i].fromThread.Some?)
  {
    RunKeepsInv(run, steps, i);
    NestingNowhere(run[i]);
  }

  lemma NestingNowhere(s: State)
    requires Inv(s)
    ensures forall t | 0 <= t < |s.stacks| && s.requestOwner != Some(t) :: Nesting(s.stacks[t]) == 0
    ensures s.inFlight >= 0
  {
    forall t | 0 <= t < |s.stacks| && s.requestOwner != Some(t)
      ensures Nesting(s.stacks[t]) == 0
    {
      NestingOfNone(s.stacks[t]);
    }
  }

  // No thread closes the socket while a request of another thread is going on;
  // in particular the assertion in close_socket never fails.
  lemma NobodyElseCloses(run: seq<State>, steps: seq<Step>, i: nat)
    requires IsRun(run, steps) && i < |steps| && Closes(run[i], steps[i])
    ensures run[i].inFlight == 0 || run[i].fromThread == Some(steps[i].t)
    ensures forall t | 0 <= t < |run[i].stacks| && t != steps[i].t :: Nesting(run[i].stacks[t]) == 0
  {
    var s, step := run[i], steps[i];
    RunKeepsInv(run, steps, i);
    NestingNowhere(s);
    if step.DoCloseSelf? {
      InsideRequest(s, step.t);
    } else if !step.DoStop? && !step.Destroy? {
      OwnerOfSend(s, step.t);
    } else {
      forall t | 0 <= t < |s.stacks| && s.requestOwner == Some(t)
        ensures Nesting(s.stacks[t]) == 0
      {
      }
    }
  }

  // The connection is closed in the middle of a request only by its own thread.
  lemma InsideRequest(s: State, t: Thread)
    requires Nested(s) && RequestMutex(s) && Top(s, t) == Some(ClosingSelf)
    ensures s.requestOwner == Some(t)
  {
    var frames := s.stacks[t];
    assert frames[|frames| - 2] == Requesting;
    assert frames[..|frames| - 1][|frames| - 2] == Requesting;
    assert CountSends(frames[..|frames| - 1]) > 0;
  }

  // The thread that counts a request finds no request of another thread.
  lemma MarkedByOne(run: seq<State>, steps: seq<Step>, i: nat)
    requires IsRun(run, steps) && i < |steps| && steps[i].Mark?
    ensures run[i].inFlight == 0 || run[i].fromThread == Some(steps[i].t)
  {
    RunKeepsInv(run, steps, i);
    OwnerOfSend(run[i], steps[i].t);
  }

  // At most one thread is inside the sections protected by socket_mutex_.
  lemma OneInSection(run: seq<State>, steps: seq<Step>, i: nat, t: Thread, u: Thread)
    requires IsRun(run, steps) && i < |run|
    requires Top(run[i], t).Some? && Locks(Top(run[i], t).value)
    requires Top(run[i], u).Some? && Locks(Top(run[i], u).value)
    ensures t == u
  {
    RunKeepsInv(run, steps, i);
    assert run[i].socketHolder == Some(t);
  }

  // ---- stop() during a request ----

  // stop() finds a request going on.
  predicate StopsRequest(s: State, step: Step) { step.DoStop? && s.inFlight > 0 }

  // Between the steps k and i, no send clears the flag.
  ghost predicate NoSendStarts(steps: seq<Step>, k: nat, i: nat) {
    forall j | k <= j < i && j < |steps| :: !steps[j].ClearFlag?
  }

  ghost predicate StoppedSince(run: seq<State>, steps: seq<Step>, i: nat)
    requires |run| == |steps| + 1 && i < |run|
  {
    exists k :: 0 <= k < i && StopsRequest(run[k], steps[k]) && NoSendStarts(steps, k, i)
  }

  // The flag is set exactly when stop() has been called during a request since
  // the last send cleared it.
  lemma {:induction false} FlagMeansStopped(run: seq<State>, steps: seq<Step>, i: nat)
    requires IsRun(run, steps) && i < |run|
    ensures run[i].closeWhenDone <==> StoppedSince(run, steps, i)
  {
    if i > 0 {
      FlagMeansStopped(run, steps, i - 1);
      FlagStep(run[i - 1], steps[i - 1]);
      StoppedSinceStep(run, steps, i);
      hide Apply, StoppedSince;
    }
  }

  lemma StoppedSinceStep(run: seq<State>, steps: seq<Step>, i: nat)
    requires |run| == |steps| + 1 && 0 < i < |run|
    ensures StoppedSince(run, steps, i) <==>
            StopsRequest(run[i - 1], steps[i - 1]) || (StoppedSince(run, steps, i - 1) && !steps[i - 1].ClearFlag?)
  {
    if StopsRequest(run[i - 1], steps[i - 1]) {
      assert NoSendStarts(steps, i - 1, i);
    } else if StoppedSince(run, steps, i - 1) && !steps[i - 1].ClearFlag? {
      var k :| 0 <= k < i - 1 && StopsRequest(run[k], steps[k]) && NoSendStarts(steps, k, i - 1);
      assert NoSendStarts(steps, k, i);
    }
    if StoppedSince(run, steps, i) {
      var k :| 0 <= k < i && StopsRequest(run[k], steps[k]) && NoSendStarts(steps, k, i);
      assert !steps[i - 1].ClearFlag?;
      if k < i - 1 {
        assert NoSendStarts(steps, k, i - 1);
      }
    }
  }

  lemma FlagStep(s: State, step: Step)
    requires Enabled(s, step)
    ensures Apply(s, step).closeWhenDone == (StopsRequest(s, step) || (s.closeWhenDone && !step.ClearFlag?))
  {
  }

  // The end of a request leaves the socket closed exactly when it was closed
  // already, or keep-alive is off or the request failed, or stop() was called
  // since the last send began.
  lemma EndLeavesClosedExactly(run: seq<State>, steps: seq<Step>, i: nat)
    requires IsRun(run, steps) && i < |steps| && steps[i].Decide?
    ensures !run[i + 1].socketOpen <==>
            !run[i].socketOpen || Top(run[i], steps[i].t).value.close || StoppedSince(run, steps, i)
  {
    FlagMeansStopped(run, steps, i);
  }

  // So a stop() during a request, with no later nested send, leaves the socket
  // closed when that request ends.
  lemma StopLeavesClosed(run: seq<State>, steps: seq<Step>, k: nat, i: nat)
    requires IsRun(run, steps) && k < i < |steps|
    requires StopsRequest(run[k], steps[k]) && NoSendStarts(steps, k, i)
    requires steps[i].Decide?
    ensures !run[i + 1].socketOpen
  {
    FlagMeansStopped(run, steps, i);
  }

  // Two threads, the first with the calls frames, owning request_mutex_ as often
  // as there are calls.
  function Two(
    frames: seq<Frame>, other: seq<Frame>, holder: Option<Thread>, open: bool, inFlight: int, flag: bool): State
  {
    State([frames, other], if frames == [] then None else Some(0), |frames|, holder, open, inFlight,
          if inFlight > 0 then Some(0) else None, flag)
  }

  lemma Extend(run: seq<State>, steps: seq<Step>, step: Step, next: State)
    returns (run': seq<State>, steps': seq<Step>)
    requires IsRun(run, steps) && Enabled(run[|run| - 1], step)
    requires Apply(run[|run| - 1], step).(stacks := next.stacks) == next
    requires |next.stacks| == 2 && |run[|run| - 1].stacks| == 2
    requires forall t | 0 <= t < 2 :: Apply(run[|run| - 1], step).stacks[t] == next.stacks[t]
    ensures IsRun(run', steps') && run' == run + [next] && steps' == steps + [step]
  {
    OnlyActor(run[|run| - 1], step);
    assert Apply(run[|run| - 1], step).stacks == next.stacks;
    run', steps' := run + [next], steps + [step];
  }

  // A nested send forgets a stop() that came before it: a run in which the socket
  // is still open after all requests have ended.
  lemma NestedSendForgetsStop() returns (run: seq<State>, steps: seq<Step>, k: nat)
    ensures IsRun(run, steps) && k < |steps| && StopsRequest(run[k], steps[k])
    ensures run[|run| - 1].socketOpen && run[|run| - 1].inFlight == 0
    ensures steps[|steps| - 1].Decide?
    ensures forall j | k < j < |steps| :: !steps[j].DoStop?
  {
    hide IsRun, Two;
    run, steps := FirstRequest();
    k := |steps| + 1;
    run, steps := StopMeanwhile(run, steps);
    run, steps := NestedOpening(run, steps);
    run, steps := NestedEnding(run, steps);
    run, steps := FirstEnding(run, steps);
  }

  lemma StopMeanwhile(run: seq<State>, steps: seq<Step>) returns (run': seq<State>, steps': seq<Step>)
    requires IsRun(run, steps) && run[|run| - 1] == Two([Requesting], [], None, true, 1, false)
    ensures IsRun(run', steps') && run <= run' && steps <= steps' && |run'| == |run| + 2 == |steps'| + 1
    ensures StopsRequest(run'[|run|], steps'[|run|])
    ensures run'[|run'| - 1] == Two([Requesting], [], None, true, 1, true)
  {
    run', steps' := Extend(run, steps, CallStop(1), Two([Requesting], [Stopping], Some(1), true, 1, false));
    run', steps' := Extend(run', steps', DoStop(1), Two([Requesting], [], None, true, 1, true));
  }

  lemma FirstEnding(run: seq<State>, steps: seq<Step>) returns (run': seq<State>, steps': seq<Step>)
    requires IsRun(run, steps) && run[|run| - 1] == Two([Requesting], [], None, true, 1, false)
    ensures Continues(run, steps, run', steps')
    ensures run'[|run'| - 1].socketOpen && run'[|run'| - 1].inFlight == 0
    ensures |steps'| > |steps| && steps'[|steps'| - 1].Decide?
  {
    hide IsRun, AllAway;
    run', steps' := Extend(run, steps, LockToFinish(0, false), Two([Finishing(false)], [], Some(0), true, 1, false));
    run', steps' := Extend(run', steps', Unmark(0), Two([Deciding(false)], [], Some(0), true, 0, false));
    run', steps' := Extend(run', steps', Decide(0), Two([], [], None, true, 0, false));
  }

  lemma FirstRequest() returns (run: seq<State>, steps: seq<Step>)
    ensures IsRun(run, steps) && |run| == |steps| + 1
    ensures run[|run| - 1] == Two([Requesting], [], None, true, 1, false)
  {
    run, steps := [Two([], [], None, false, 0, false)], [];
    assert IsRun(run, steps);
    hide IsRun, AllAway;
    run, steps := Extend(run, steps, CallSend(0), Two([Entered], [], None, false, 0, false));
    run, steps := Extend(run, steps, LockToOpen(0), Two([Clearing], [], Some(0), false, 0, false));
    run, steps := Extend(run, steps, ClearFlag(0), Two([Opening], [], Some(0), false, 0, false));
    run, steps := FirstOpening(run, steps);
  }

  lemma FirstOpening(run: seq<State>, steps: seq<Step>) returns (run': seq<State>, steps': seq<Step>)
    requires IsRun(run, steps) && run[|run| - 1] == Two([Opening], [], Some(0), false, 0, false)
    ensures IsRun(run', steps') && |run'| == |steps'| + 1
    ensures run'[|run'| - 1] == Two([Requesting], [], None, true, 1, false)
  {
    hide IsRun, AllAway;
    run', steps' := Extend(run, steps, TestSocket(0, false), Two([Connecting], [], Some(0), false, 0, false));
    run', steps' := Extend(run', steps', Connect(0, true), Two([Marking], [], Some(0), true, 0, false));
    run', steps' := Extend(run', steps', Mark(0), Two([Requesting], [], None, true, 1, false));
  }

  // What the two halves of the nested send add to the run.
  ghost predicate Continues(run: seq<State>, steps: seq<Step>, run': seq<State>, steps': seq<Step>) {
    && IsRun(run', steps') && run <= run' && steps <= steps' && |run'| == |steps'| + 1
    && forall j | |steps| <= j < |steps'| :: !steps'[j].DoStop?
  }

  lemma NestedOpening(run: seq<State>, steps: seq<Step>) returns (run': seq<State>, steps': seq<Step>)
    requires IsRun(run, steps) && run[|run| - 1] == Two([Requesting], [], None, true, 1, true)
    ensures Continues(run, steps, run', steps')
    ensures run'[|run'| - 1] == Two([Requesting, Marking], [], Some(0), true, 1, false)
  {
    hide IsRun, AllAway;
    run', steps' := Extend(run, steps, CallSend(0), Two([Requesting, Entered], [], None, true, 1, true));
    run', steps' := Extend(run', steps', LockToOpen(0), Two([Requesting, Clearing], [], Some(0), true, 1, true));
    run', steps' := Extend(run', steps', ClearFlag(0), Two([Requesting, Opening], [], Some(0), true, 1, false));
    run', steps' := Extend(run', steps', TestSocket(0, true), Two([Requesting, Marking], [], Some(0), true, 1, false));
  }

  lemma NestedEnding(run: seq<State>, steps: seq<Step>) returns (run': seq<State>, steps': seq<Step>)
    requires IsRun(run, steps) && run[|run| - 1] == Two([Requesting, Marking], [], Some(0), true, 1, false)
    ensures Continues(run, steps, run', steps')
    ensures run'[|run'| - 1] == Two([Requesting], [], None, true, 1, false)
  {
    hide IsRun, AllAway;
    run', steps' := Extend(run, steps, Mark(0), Two([Requesting, Requesting], [], None, true, 2, false));
    var finishing := Two([Requesting, Finishing(false)], [], Some(0), true, 2, false);
    run', steps' := Extend(run', steps', LockToFinish(0, false), finishing);
    run', steps' := Extend(run', steps', Unmark(0), Two([Requesting, Deciding(false)], [], Some(0), true, 1, false));
    run', steps' := Extend(run', steps', Decide(0), Two([Requesting], [], None, true, 1, false));
  }
}
