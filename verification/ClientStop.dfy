// What the steps of ClientSocket do to the socket: which of them close it, that a
// request is counted only with the socket open, that a stop is final unless another
// send begins, and that the calls that have begun can always be completed.
module ClientStop {
  import opened ClientSocket
  import opened Wrappers

  // ---- open and closed ----

  // The socket is open after a step exactly when the step connected it, or it was
  // open and the step did not close it.
  lemma OpenAfterStep(run: seq<State>, steps: seq<Step>, i: nat)
    requires IsRun(run, steps) && i < |steps|
    ensures run[i + 1].socketOpen <==>
            if steps[i].Connect? then steps[i].ok || run[i].socketOpen
            else run[i].socketOpen && !Closes(run[i], steps[i])
  {
  }

  // A thread about to connect has found the socket closed; one about to count its
  // request has it open.
  ghost predicate SocketReady(s: State) {
    forall t | 0 <= t < |s.stacks| ::
      && (Top(s, t) == Some(Connecting) ==> !s.socketOpen)
      && (Top(s, t) == Some(Marking) ==> s.socketOpen)
  }

  // Only a thread that holds socket_mutex_, or one that finds nobody else, opens or
  // closes the socket.
  lemma OnlyHolderChanges(s: State, step: Step)
    requires Inv(s) && Enabled(s, step)
    ensures s.socketHolder == Some(step.t) || AllAway(s) || Apply(s, step).socketOpen == s.socketOpen
  {
  }

  // What the thread that makes a step is doing after it.
  lemma TopAfter(s: State, step: Step)
    requires Nested(s) && Enabled(s, step)
    ensures var top := Top(Apply(s, step), step.t);
            match MoveOf(s, step)
            case Pushed(f) => top == Some(f)
            case Replaced(_, f) => top == Some(f)
            case _ => top == None || top == Some(Requesting)
  {
    OnlyActor(s, step);
    MoveIsRight(s, step);
    MoveAllowed(s, step);
    StackedMove(s.stacks[step.t], Apply(s, step).stacks[step.t], MoveOf(s, step));
    hide Apply, Enabled, MoveOf, Stacked;
  }

  lemma OpenAfter(s: State, step: Step)
    requires Enabled(s, step)
    ensures match MoveOf(s, step)
            case Replaced(_, Connecting) => !Apply(s, step).socketOpen
            case Replaced(_, Marking) => Apply(s, step).socketOpen
            case _ => true
  {
  }

  lemma ReadyActor(s: State, step: Step)
    requires Nested(s) && Enabled(s, step)
    ensures var s' := Apply(s, step);
            && (Top(s', step.t) == Some(Connecting) ==> !s'.socketOpen)
            && (Top(s', step.t) == Some(Marking) ==> s'.socketOpen)
  {
    TopAfter(s, step);
    OpenAfter(s, step);
    MovePushes(s, step);
    hide Apply, Enabled, MoveOf, Top;
  }

  lemma MovePushes(s: State, step: Step)
    requires Enabled(s, step)
    ensures MoveOf(s, step).Pushed? ==> MoveOf(s, step).f != Connecting && MoveOf(s, step).f != Marking
    ensures MoveOf(s, step).Pushed? ==> MoveOf(s, step).f != Opening
    ensures match MoveOf(s, step)
            case Replaced(_, Opening) => step.ClearFlag?
            case Replaced(before, Connecting) => Top(s, step.t) == Some(Opening)
            case Replaced(before, Marking) => Top(s, step.t) == Some(Opening) || Top(s, step.t) == Some(Connecting)
            case _ => true
  {
  }

  lemma ReadyStep(s: State, step: Step)
    requires Inv(s) && SocketReady(s) && Enabled(s, step)
    ensures SocketReady(Apply(s, step))
  {
    var s' := Apply(s, step);
    OnlyActor(s, step);
    OnlyHolderChanges(s, step);
    ReadyActor(s, step);
    hide Apply, Enabled, RequestMutex, Counter, Nested;
    forall t | 0 <= t < |s'.stacks| && t != step.t
      ensures Top(s', t) == Some(Connecting) ==> !s'.socketOpen
      ensures Top(s', t) == Some(Marking) ==> s'.socketOpen
    {
      assert Top(s', t) == Top(s, t);
      assert LocksNow(s.stacks[t]) ==> s.socketHolder == Some(t);
    }
  }

  lemma {:induction false} RunKeepsReady(run: seq<State>, steps: seq<Step>, i: nat)
    requires IsRun(run, steps) && i < |run|
    ensures SocketReady(run[i])
  {
    if i > 0 {
      RunKeepsReady(run, steps, i - 1);
      RunKeepsInv(run, steps, i - 1);
      ReadyStep(run[i - 1], steps[i - 1]);
      hide Apply, Enabled, Inv, SocketReady;
    }
  }

  // A request is counted only with the socket open, and connecting never replaces a
  // socket that is open.
  lemma CountedWithSocket(run: seq<State>, steps: seq<Step>, i: nat)
    requires IsRun(run, steps) && i < |steps|
    ensures steps[i].Mark? ==> run[i].socketOpen && run[i + 1].socketOpen
    ensures steps[i].Connect? ==> !run[i].socketOpen && (run[i + 1].socketOpen <==> steps[i].ok)
  {
    RunKeepsReady(run, steps, i);
  }

  // A dead socket is closed before send connects again; the closing at the end of a
  // response and the destructor leave it closed; the steps that only lock, count or
  // release leave it as it is.
  lemma ClosedBy(run: seq<State>, steps: seq<Step>, i: nat)
    requires IsRun(run, steps) && i < |steps|
    ensures match steps[i]
            case TestSocket(_, alive) => run[i + 1].socketOpen <==> run[i].socketOpen && alive
            case DoCloseSelf(_) => !run[i + 1].socketOpen
            case Destroy(_) => !run[i + 1].socketOpen
            case Connect(_, _) => true
            case Decide(_) => true
            case DoStop(_) => true
            case _ => run[i + 1].socketOpen == run[i].socketOpen
  {
  }

  // ---- stop is final ----

  predicate Serving(f: Frame) { f.Requesting? || f.Finishing? || f.Deciding? }

  ghost predicate Serves(frames: seq<Frame>) { exists k :: 0 <= k < |frames| && Serving(frames[k]) }

  // No thread is between clearing the flag and counting its request.
  ghost predicate NobodyOpens(s: State) {
    forall t | 0 <= t < |s.stacks| ::
      Top(s, t) != Some(Opening) && Top(s, t) != Some(Connecting) && Top(s, t) != Some(Marking)
  }

  // The socket is closed, or it will be when the requests going on are done.
  ghost predicate Stopped(s: State) {
    && NobodyOpens(s)
    && (s.socketOpen ==> s.closeWhenDone && exists t :: 0 <= t < |s.stacks| && Serves(s.stacks[t]))
  }

  lemma {:induction false} NestingServes(frames: seq<Frame>)
    requires Nesting(frames) > 0
    ensures Serves(frames)
  {
    if Counted(frames[|frames| - 1]) {
      assert Serving(frames[|frames| - 1]);
    } else {
      NestingServes(frames[..|frames| - 1]);
      var k :| 0 <= k < |frames| - 1 && Serving(frames[..|frames| - 1][k]);
      assert Serving(frames[k]);
    }
  }

  lemma StopStops(s: State, step: Step)
    requires Inv(s) && Enabled(s, step) && step.DoStop?
    ensures Stopped(Apply(s, step))
  {
    var s' := Apply(s, step);
    StepKeepsInv(s, step);
    assert forall t | 0 <= t < |s'.stacks| :: !LocksNow(s'.stacks[t]);
    if s.inFlight > 0 {
      assert s'.inFlight > 0;
      NestingServes(s'.stacks[s'.requestOwner.value]);
    }
  }

  lemma ServesOn(s: State, step: Step, t: Thread)
    requires Enabled(s, step) && NobodyOpens(s) && t < |s.stacks| && Serves(s.stacks[t])
    requires !step.Decide?
    ensures t < |Apply(s, step).stacks| && Serves(Apply(s, step).stacks[t])
  {
    OnlyActor(s, step);
    var k :| 0 <= k < |s.stacks[t]| && Serving(s.stacks[t][k]);
    assert Serving(Apply(s, step).stacks[t][k]);
  }

  lemma NobodyOpensAfter(s: State, step: Step)
    requires Inv(s) && NobodyOpens(s) && Enabled(s, step) && !step.ClearFlag?
    ensures NobodyOpens(Apply(s, step))
  {
    var s' := Apply(s, step);
    OnlyActor(s, step);
    TopAfter(s, step);
    MovePushes(s, step);
    hide Apply, Enabled, MoveOf, RequestMutex, Counter, Nested, SocketMutex;
    forall t | 0 <= t < |s'.stacks| && t != step.t
      ensures Top(s', t) == Top(s, t)
    {
    }
  }

  lemma StoppedStep(s: State, step: Step)
    requires Inv(s) && Stopped(s) && Enabled(s, step) && !step.ClearFlag?
    ensures Stopped(Apply(s, step))
  {
    var s' := Apply(s, step);
    OnlyActor(s, step);
    NobodyOpensAfter(s, step);
    if s'.socketOpen {
      assert s.socketOpen;
      var t :| 0 <= t < |s.stacks| && Serves(s.stacks[t]);
      ServesOn(s, step, t);
    }
  }

  lemma {:induction false} StaysStopped(run: seq<State>, steps: seq<Step>, k: nat, i: nat)
    requires IsRun(run, steps) && k < i < |run|
    requires steps[k].DoStop? && NoSendStarts(steps, k, i)
    ensures Stopped(run[i])
  {
    hide Apply, Enabled, Inv, Stopped;
    if i == k + 1 {
      RunKeepsInv(run, steps, k);
      StopStops(run[k], steps[k]);
    } else {
      assert NoSendStarts(steps, k, i - 1);
      StaysStopped(run, steps, k, i - 1);
      RunKeepsInv(run, steps, i - 1);
      StoppedStep(run[i - 1], steps[i - 1]);
    }
  }

  // After a stop, whether or not a request was going on, the socket is closed as soon
  // as all calls have returned, unless another send has begun since.
  lemma StopIsFinal(run: seq<State>, steps: seq<Step>, k: nat, i: nat)
    requires IsRun(run, steps) && k < i < |run|
    requires steps[k].DoStop? && NoSendStarts(steps, k, i)
    requires AllAway(run[i])
    ensures !run[i].socketOpen
  {
    StaysStopped(run, steps, k, i);
  }

  // With no request going on in any thread, it is closed at once; otherwise it is left
  // to that request.
  lemma StopAtOnce(run: seq<State>, steps: seq<Step>, k: nat)
    requires IsRun(run, steps) && k < |steps| && steps[k].DoStop?
    ensures if exists t :: 0 <= t < |run[k].stacks| && Nesting(run[k].stacks[t]) > 0
            then run[k + 1].socketOpen == run[k].socketOpen && run[k + 1].closeWhenDone
            else !run[k + 1].socketOpen && run[k + 1].closeWhenDone == run[k].closeWhenDone
  {
    RunKeepsInv(run, steps, k);
    NestingNowhere(run[k]);
  }

  // ---- the calls that have begun can be completed ----

  predicate NewCall(step: Step) { step.CallSend? || step.CallStop? || step.CallCloseSelf? || step.Destroy? }

  // What a call in this state does next.
  function NextOf(f: Frame, t: Thread): (step: Step)
    ensures !NewCall(step)
  {
    match f
    case Entered => LockToOpen(t)
    case Clearing => ClearFlag(t)
    case Opening => TestSocket(t, true)
    case Connecting => Connect(t, true)
    case Marking => Mark(t)
    case Requesting => LockToFinish(t, false)
    case Finishing(_) => Unmark(t)
    case Deciding(_) => Decide(t)
    case Stopping => DoStop(t)
    case ClosingSelf => DoCloseSelf(t)
  }

  lemma {:induction false} HolderIsThread(run: seq<State>, steps: seq<Step>, i: nat)
    requires IsRun(run, steps) && i < |run|
    ensures run[i].socketHolder.Some? ==> run[i].socketHolder.value < |run[i].stacks|
  {
    if i > 0 {
      HolderIsThread(run, steps, i - 1);
      OnlyActor(run[i - 1], steps[i - 1]);
    }
  }

  // As long as a call has not returned, a call that has begun can go on: there is no
  // deadlock, with nested sends and stops during requests.
  lemma SomeCallGoesOn(run: seq<State>, steps: seq<Step>, i: nat)
    requires IsRun(run, steps) && i < |run| && !AllAway(run[i])
    ensures exists step :: Enabled(run[i], step) && !NewCall(step)
  {
    var s := run[i];
    RunKeepsInv(run, steps, i);
    HolderIsThread(run, steps, i);
    var t :| 0 <= t < |s.stacks| && s.stacks[t] != [];
    NextIsEnabled(s, if s.socketHolder.Some? then s.socketHolder.value else t);
    hide IsRun, Enabled, NewCall, RequestMutex, Counter, Nested;
  }

  lemma NextIsEnabled(s: State, t: Thread)
    requires t < |s.stacks| && Top(s, t).Some?
    requires Locks(Top(s, t).value) || s.socketHolder == None
    ensures Enabled(s, NextOf(Top(s, t).value, t))
  {
  }

  // How many steps a call still has to make at most.
  function StepsLeft(f: Frame): nat {
    match f
    case Entered => 8
    case Clearing => 7
    case Opening => 6
    case Connecting => 5
    case Marking => 4
    case Requesting => 3
    case Finishing(_) => 2
    case _ => 1
  }

  function Left(frames: seq<Frame>): nat {
    if frames == [] then 0 else Left(frames[..|frames| - 1]) + StepsLeft(frames[|frames| - 1])
  }

  function LeftInAll(stacks: seq<seq<Frame>>): nat {
    if stacks == [] then 0 else LeftInAll(stacks[..|stacks| - 1]) + Left(stacks[|stacks| - 1])
  }

  lemma {:induction false} LeftInAllSet(stacks: seq<seq<Frame>>, t: nat, frames: seq<Frame>)
    requires t < |stacks|
    ensures LeftInAll(stacks[t := frames]) + Left(stacks[t]) == LeftInAll(stacks) + Left(frames)
  {
    var n := |stacks| - 1;
    if t == n {
      assert stacks[t := frames][..n] == stacks[..n];
    } else {
      assert stacks[t := frames][..n] == stacks[..n][t := frames];
      LeftInAllSet(stacks[..n], t, frames);
    }
  }

  lemma LeftMove(s: State, step: Step)
    requires Enabled(s, step) && !NewCall(step)
    ensures step.t < |s.stacks| == |Apply(s, step).stacks|
    ensures Left(Apply(s, step).stacks[step.t]) < Left(s.stacks[step.t])
  {
    OnlyActor(s, step);
    MoveIsRight(s, step);
    MoveShortens(s, step);
    LeftMoved(s.stacks[step.t], Apply(s, step).stacks[step.t], MoveOf(s, step));
    hide Apply, Enabled, MoveOf, Left;
  }

  lemma MoveShortens(s: State, step: Step)
    requires Enabled(s, step) && !NewCall(step)
    ensures match MoveOf(s, step)
            case Replaced(before, f) => StepsLeft(f) < StepsLeft(before)
            case Popped(before) => true
            case _ => false
  {
  }

  lemma LeftMoved(frames: seq<Frame>, frames': seq<Frame>, move: Move)
    requires Moved(frames, frames', move)
    requires match move
             case Replaced(before, f) => StepsLeft(f) < StepsLeft(before)
             case Popped(_) => true
             case _ => false
    ensures Left(frames') < Left(frames)
  {
    var n := |frames| - 1;
    if move.Replaced? {
      assert frames'[..n] == frames[..n];
    }
  }

  lemma LeftDecreases(s: State, step: Step)
    requires Enabled(s, step) && !NewCall(step)
    ensures LeftInAll(Apply(s, step).stacks) < LeftInAll(s.stacks)
  {
    LeftMove(s, step);
    OnlyActor(s, step);
    assert Apply(s, step).stacks == s.stacks[step.t := Apply(s, step).stacks[step.t]];
    LeftInAllSet(s.stacks, step.t, Apply(s, step).stacks[step.t]);
    hide Apply, Enabled, Left;
  }

  lemma LeftDecreasesAt(run: seq<State>, steps: seq<Step>, i: nat)
    requires IsRun(run, steps) && i < |steps| && !NewCall(steps[i])
    ensures i + 1 < |run| && LeftInAll(run[i + 1].stacks) < LeftInAll(run[i].stacks)
  {
    LeftDecreases(run[i], steps[i]);
    hide Apply, Enabled, LeftInAll, NewCall;
  }

  // No call begins in the steps i to j - 1.
  ghost predicate NoNewCalls(steps: seq<Step>, i: nat, j: nat) {
    forall k | i <= k < j && k < |steps| :: !NewCall(steps[k])
  }

  lemma NoNewCallsBefore(steps: seq<Step>, i: nat, j: nat)
    requires i < j <= |steps| && NoNewCalls(steps, i, j)
    ensures NoNewCalls(steps, i, j - 1) && !NewCall(steps[j - 1])
  {
  }

  // And the calls that have begun are over after a bounded number of their steps.
  lemma {:induction false} CallsEnd(run: seq<State>, steps: seq<Step>, i: nat, j: nat)
    requires IsRun(run, steps) && |run| == |steps| + 1
    requires i <= j <= |steps| && NoNewCalls(steps, i, j)
    ensures LeftInAll(run[j].stacks) + (j - i) <= LeftInAll(run[i].stacks)
  {
    hide *;
    if i < j {
      NoNewCallsBefore(steps, i, j);
      CallsEnd(run, steps, i, j - 1);
      LeftDecreasesAt(run, steps, j - 1);
    }
  }

  // So every run can be continued until all calls have returned, and then every thread
  // can call send or stop, or end the client.
  lemma {:induction false} CallsReturn(run: seq<State>, steps: seq<Step>)
    returns (run': seq<State>, steps': seq<Step>)
    requires IsRun(run, steps)
    ensures IsRun(run', steps') && run <= run' && steps <= steps' && AllAway(run'[|steps'|])
    ensures forall k | |steps| <= k < |steps'| :: !NewCall(steps'[k])
    ensures forall t | 0 <= t < |run'[|steps'|].stacks| ::
              var s := run'[|steps'|];
              Enabled(s, CallSend(t)) && Enabled(s, CallStop(t)) && Enabled(s, Destroy(t))
    decreases LeftInAll(run[|steps|].stacks)
  {
    hide Apply, LeftInAll, NewCall;
    var s := run[|steps|];
    if AllAway(s) {
      run', steps' := run, steps;
      RunKeepsInv(run, steps, |steps|);
      HolderIsThread(run, steps, |steps|);
      NobodyHolds(s);
    } else {
      SomeCallGoesOn(run, steps, |steps|);
      var step :| Enabled(s, step) && !NewCall(step);
      LeftDecreases(s, step);
      run', steps' := CallsReturn(run + [Apply(s, step)], steps + [step]);
    }
  }

  lemma NobodyHolds(s: State)
    requires Inv(s) && AllAway(s) && (s.socketHolder.Some? ==> s.socketHolder.value < |s.stacks|)
    ensures s.socketHolder == None && s.requestOwner == None
  {
    assert forall t | 0 <= t < |s.stacks| :: !LocksNow(s.stacks[t]) && CountSends(s.stacks[t]) == 0;
  }

  // ---- two short runs ----

  // A thread closes the connection during its own request.
  lemma ClosingItself() returns (run: seq<State>, steps: seq<Step>)
    ensures IsRun(run, steps) && |run| == |steps| + 1 && |steps| > 0 && steps[|steps| - 1].DoCloseSelf?
    ensures run[|steps| - 1].socketOpen && !run[|steps|].socketOpen && run[|steps|].inFlight == 1
  {
    hide IsRun, AllAway;
    run, steps := FirstRequest();
    var closing := State([[Requesting, ClosingSelf], []], Some(0), 1, Some(0), true, 1, Some(0), false);
    run, steps := Extend(run, steps, CallCloseSelf(0), closing);
    run, steps := Extend(run, steps, DoCloseSelf(0), Two([Requesting], [], None, false, 1, false));
  }

  // Connecting fails, and send returns.
  lemma ConnectingFails() returns (run: seq<State>, steps: seq<Step>)
    ensures IsRun(run, steps) && |run| == |steps| + 1 && |steps| > 0 && steps[|steps| - 1].Connect?
    ensures !run[|steps|].socketOpen && AllAway(run[|steps|]) && run[|steps|].inFlight == 0
  {
    run, steps := [Two([], [], None, false, 0, false)], [];
    assert IsRun(run, steps);
    hide IsRun;
    run, steps := Extend(run, steps, CallSend(0), Two([Entered], [], None, false, 0, false));
    run, steps := Extend(run, steps, LockToOpen(0), Two([Clearing], [], Some(0), false, 0, false));
    run, steps := Extend(run, steps, ClearFlag(0), Two([Opening], [], Some(0), false, 0, false));
    run, steps := FailedConnection(run, steps);
  }

  lemma FailedConnection(run: seq<State>, steps: seq<Step>) returns (run': seq<State>, steps': seq<Step>)
    requires IsRun(run, steps) && run[|run| - 1] == Two([Opening], [], Some(0), false, 0, false)
    ensures IsRun(run', steps') && |run'| == |steps'| + 1 && |steps'| > 0 && steps'[|steps'| - 1].Connect?
    ensures run'[|run'| - 1] == Two([], [], None, false, 0, false)
  {
    hide IsRun, AllAway;
    run', steps' := Extend(run, steps, TestSocket(0, false), Two([Connecting], [], Some(0), false, 0, false));
    run', steps' := Extend(run', steps', Connect(0, false), Two([], [], None, false, 0, false));
  }
}
