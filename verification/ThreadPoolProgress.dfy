// That the thread pool of ThreadPool gets its work done: it stops moving only when
// the queue is empty and every job is done, and it does stop unless something new
// comes from outside.
module ThreadPoolProgress {
  import opened ThreadPool

  // Steps that nothing in the pool waits for: a thread calls enqueue or shutdown, or
  // a worker wakes up without having been notified.
  predicate FromOutside(step: Step) { step.EnqueueLock? || step.ShutdownLock? || step.SpuriousWake? }

  ghost predicate CanGoOn(s: State) { exists step :: Enabled(s, step) && !FromOutside(step) }

  // Nothing is left to do: the queue is empty, no thread is inside enqueue or in the
  // middle of shutdown, every worker sleeps or has exited.
  predicate Idle(s: State) {
    && s.jobs == [] && s.holder == Free && (s.closing == NotCalled || s.closing == Returned)
    && forall w | 0 <= w < |s.workers| :: s.workers[w] == Asleep || s.workers[w] == Exited
  }

  lemma HeldGoesOn(s: State)
    requires Inv(s) && s.holder != Free
    ensures CanGoOn(s)
  {
    match s.holder
    case ByEnqueuer(Locked) => assert Enabled(s, EnqueuePush);
    case ByEnqueuer(Pushed) =>
      if exists w :: 0 <= w < |s.workers| && s.workers[w] == Asleep {
        var w :| 0 <= w < |s.workers| && s.workers[w] == Asleep;
        assert Enabled(s, NotifyOne(w));
      } else {
        assert Enabled(s, NotifyNobody);
      }
    case ByEnqueuer(Notified) => assert Enabled(s, EnqueueUnlock);
    case ByCloser => assert Enabled(s, ShutdownSet);
    case ByWorker(w) =>
      if s.jobs != [] {
        assert Enabled(s, Take(w));
      } else if s.shutdown {
        assert Enabled(s, Exit(w));
      } else {
        assert Enabled(s, Wait(w));
      }
  }

  lemma BusyWorkerGoesOn(s: State, w: nat)
    requires Inv(s) && s.holder == Free && w < |s.workers| && s.workers[w] != Asleep && s.workers[w] != Exited
    ensures CanGoOn(s)
  {
    if s.workers[w].Running? {
      assert Enabled(s, Finish(w));
    } else {
      assert Enabled(s, Lock(w));
    }
  }

  lemma GoesOnUnlessIdle(s: State)
    requires Inv(s) && !Idle(s)
    ensures CanGoOn(s)
  {
    if s.holder != Free {
      HeldGoesOn(s);
    } else if exists w :: 0 <= w < |s.workers| && WillLook(s.workers[w]) {
      var w :| 0 <= w < |s.workers| && WillLook(s.workers[w]);
      BusyWorkerGoesOn(s, w);
    } else if s.closing == FlagSet {
      assert Enabled(s, NotifyAll);
    } else {
      assert forall w | 0 <= w < |s.workers| :: !WillLook(s.workers[w]);
      assert s.closing == Joining;
      assert Enabled(s, Join);
    }
  }

  // In every state of every run, the pool can go on by itself exactly when it is not
  // idle; so never while a job is queued or running does it need anything from outside.
  lemma StuckOnlyWhenIdle(run: seq<State>, steps: seq<Step>, i: nat)
    requires IsRun(run, steps) && i < |run|
    ensures CanGoOn(run[i]) <==> !Idle(run[i])
    ensures run[i].jobs != [] ==> CanGoOn(run[i])
  {
    RunKeepsInv(run, steps, i);
    if !Idle(run[i]) {
      GoesOnUnlessIdle(run[i]);
    }
  }

  // ---- how much there is to do ----

  function EnqueueEffort(holder: Holder): nat {
    match holder
    case ByEnqueuer(Locked) => 8
    case ByEnqueuer(Pushed) => 4
    case ByEnqueuer(Notified) => 1
    case _ => 0
  }

  function ClosingEffort(closing: Closing, workers: nat): nat {
    match closing
    case Setting => 2 * workers + 3
    case FlagSet => 2 * workers + 2
    case Joining => 1
    case _ => 0
  }

  function Effort(s: State): nat {
    Work(s) + EnqueueEffort(s.holder) + ClosingEffort(s.closing, |s.workers|)
  }

  lemma {:induction false} RanksWoken(workers: seq<Worker>, woken: seq<Worker>)
    requires |workers| == |woken| && forall w | 0 <= w < |workers| :: woken[w] == Wake(workers[w])
    ensures Ranks(woken) <= Ranks(workers) + 2 * |workers|
  {
    if workers != [] {
      RanksWoken(workers[..|workers| - 1], woken[..|workers| - 1]);
    }
  }

  lemma EffortDecreases(s: State, step: Step)
    requires Inv(s) && Enabled(s, step) && !FromOutside(step)
    ensures Effort(Apply(s, step)) < Effort(s) && Apply(s, step).enqueued >= s.enqueued
  {
    hide Ranks, Conserved, Watched;
    match step
    case NotifyOne(w) => RanksSet(s.workers, w, Woken);
    case Lock(w) => RanksSet(s.workers, w, Checking);
    case Wait(w) => RanksSet(s.workers, w, Asleep);
    case Take(w) => RanksSet(s.workers, w, Running(s.jobs[0]));
    case Exit(w) => RanksSet(s.workers, w, Exited);
    case Finish(w) => RanksSet(s.workers, w, Starting);
    case NotifyAll => RanksWoken(s.workers, Apply(s, step).workers);
    case _ =>
  }

  lemma EffortDecreasesAt(run: seq<State>, steps: seq<Step>, i: nat)
    requires IsRun(run, steps) && i < |steps| && !FromOutside(steps[i])
    ensures i + 1 < |run|
    ensures Effort(run[i + 1]) < Effort(run[i]) && run[i + 1].enqueued >= run[i].enqueued
  {
    RunKeepsInv(run, steps, i);
    EffortDecreases(run[i], steps[i]);
    hide Inv, Effort, FromOutside;
  }

  // Nothing comes from outside in the steps i to k - 1.
  ghost predicate LeftAlone(steps: seq<Step>, i: nat, k: nat) {
    forall j | i <= j < k && j < |steps| :: !FromOutside(steps[j])
  }

  lemma LeftAloneBefore(steps: seq<Step>, i: nat, k: nat)
    requires i < k <= |steps| && LeftAlone(steps, i, k)
    ensures LeftAlone(steps, i, k - 1) && !FromOutside(steps[k - 1])
  {
  }

  // Without anything from outside, only a bounded number of steps is possible.
  lemma {:induction false} StepsBounded(run: seq<State>, steps: seq<Step>, i: nat, k: nat)
    requires IsRun(run, steps) && |run| == |steps| + 1
    requires i <= k <= |steps| && LeftAlone(steps, i, k)
    ensures Effort(run[k]) + (k - i) <= Effort(run[i])
    ensures run[k].enqueued >= run[i].enqueued
    decreases k
  {
    hide *;
    if i < k {
      LeftAloneBefore(steps, i, k);
      StepsBounded(run, steps, i, k - 1);
      EffortDecreasesAt(run, steps, k - 1);
    }
  }

  // And the pool can come to rest by itself, after any run.
  lemma {:induction false} ComesToRest(run: seq<State>, steps: seq<Step>)
    returns (run': seq<State>, steps': seq<Step>)
    requires IsRun(run, steps)
    ensures IsRun(run', steps') && run <= run' && steps <= steps' && Idle(run'[|steps'|])
    ensures forall k | |steps| <= k < |steps'| :: !FromOutside(steps'[k])
    decreases Effort(run[|steps|])
  {
    hide Inv, Effort, Apply, Enabled, Idle;
    StuckOnlyWhenIdle(run, steps, |steps|);
    if Idle(run[|steps|]) {
      run', steps' := run, steps;
    } else {
      RunKeepsInv(run, steps, |steps|);
      var step :| Enabled(run[|steps|], step) && !FromOutside(step);
      EffortDecreases(run[|steps|], step);
      run', steps' := ComesToRest(run + [Apply(run[|steps|], step)], steps + [step]);
    }
  }

  // In an idle state every job that was ever enqueued is done, once.
  lemma IdleMeansDone(run: seq<State>, steps: seq<Step>, i: nat, j: Job)
    requires IsRun(run, steps) && i < |run| && Idle(run[i])
    ensures multiset(run[i].done)[j] == if j < run[i].enqueued then 1 else 0
  {
    var s := run[i];
    RunKeepsInv(run, steps, i);
    NoRunningJobs(s.workers);
    assert s.taken + s.jobs == s.taken;
    OnceIn(s.taken, s.enqueued, j);
  }

  // A run that nothing from outside joins after state i, and that has gone on for as
  // long as it could, has made a bounded number of steps and has done every job that
  // was enqueued, whether or not shutdown was called.
  lemma EveryJobIsDone(run: seq<State>, steps: seq<Step>, i: nat, j: Job)
    requires IsRun(run, steps) && |run| == |steps| + 1
    requires i <= |steps| && LeftAlone(steps, i, |steps|)
    requires !CanGoOn(run[|steps|])
    ensures |steps| - i <= Effort(run[i])
    ensures run[|steps|].jobs == [] && run[|steps|].enqueued >= run[i].enqueued
    ensures multiset(run[|steps|].done)[j] == if j < run[|steps|].enqueued then 1 else 0
  {
    StepsBounded(run, steps, i, |steps|);
    StuckOnlyWhenIdle(run, steps, |steps|);
    IdleMeansDone(run, steps, |steps|, j);
  }

  lemma Append(run: seq<State>, steps: seq<Step>, step: Step) returns (run': seq<State>, steps': seq<Step>)
    requires IsRun(run, steps) && Enabled(run[|steps|], step)
    ensures IsRun(run', steps') && |run'| == |steps'| + 1 == |run| + 1
    ensures run'[0] == run[0] && run'[|steps'|] == Apply(run[|steps|], step)
  {
    hide Apply, Enabled;
    run', steps' := run + [Apply(run[|steps|], step)], steps + [step];
  }

  // Any number of jobs can be enqueued before a worker takes the first, and shutdown can
  // be called then.
  lemma {:induction false} QueueOf(first: State, n: nat) returns (run: seq<State>, steps: seq<Step>)
    requires Init(first)
    ensures IsRun(run, steps) && |run| == |steps| + 1
    ensures run[0] == first && run[|steps|] == first.(jobs := UpTo(n), enqueued := n)
    ensures Enabled(run[|steps|], ShutdownLock)
  {
    if n == 0 {
      run, steps := [first], [];
    } else {
      run, steps := QueueOf(first, n - 1);
      hide IsRun;
      assert UpTo(n - 1) + [n - 1] == UpTo(n);
      run, steps := Append(run, steps, EnqueueLock);
      run, steps := Append(run, steps, EnqueuePush);
      run, steps := Append(run, steps, NotifyNobody);
      run, steps := Append(run, steps, EnqueueUnlock);
    }
  }
}
