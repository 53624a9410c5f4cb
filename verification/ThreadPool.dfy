// The thread pool of btor/httplib.h as a step relation over its workers, the
// mutex, the condition variable, the threads that enqueue and the thread that
// shuts the pool down.
module ThreadPool {

  // The k-th job ever enqueued is job k.
  type Job = nat

  datatype Worker =
    | Starting           // at the top of the loop, about to lock the mutex
    | Checking           // holds the mutex, about to evaluate the wait predicate
    | Asleep             // blocked in wait, the mutex released
    | Woken              // notified or woken spuriously, about to lock again
    | Running(job: Job)  // outside the mutex, executing a job
    | Exited

  datatype Holder =
    | Free
    | ByWorker(w: nat)
    | ByEnqueuer(phase: EnqueuePhase)
    | ByCloser

  datatype EnqueuePhase = Locked | Pushed | Notified

  // How far shutdown() has got.
  datatype Closing = NotCalled | Setting | FlagSet | Joining | Returned

  datatype State = State(
    workers: seq<Worker>,
    jobs: seq<Job>,
    shutdown: bool,
    holder: Holder,
    closing: Closing,
    // history
    enqueued: nat,     // how many jobs were enqueued
    taken: seq<Job>,   // the jobs in the order they left the queue
    done: seq<Job>     // the jobs in the order they were finished
  )

  predicate Init(s: State) {
    && s.workers != [] && (forall w | 0 <= w < |s.workers| :: s.workers[w] == Starting)
    && s.jobs == [] && !s.shutdown && s.holder == Free && s.closing == NotCalled
    && s.enqueued == 0 && s.taken == [] && s.done == []
  }

  function SetWorker(s: State, w: nat, pc: Worker): State
    requires w < |s.workers|
  {
    s.(workers := s.workers[w := pc])
  }

  datatype Step =
    | EnqueueLock
    | EnqueuePush
    | NotifyOne(woken: nat)
    | NotifyNobody
    | EnqueueUnlock
    | Lock(w: nat)
    | Wait(w: nat)
    | Take(w: nat)
    | Exit(w: nat)
    | SpuriousWake(w: nat)
    | Finish(w: nat)
    | ShutdownLock
    | ShutdownSet
    | NotifyAll
    | Join

  // A sleeping worker is woken.
  function Wake(pc: Worker): Worker { if pc == Asleep then Woken else pc }

  predicate Enabled(s: State, step: Step) {
    match step
    // No thread calls enqueue once shutdown_ is set.
    case EnqueueLock => s.holder == Free && !s.shutdown
    case EnqueuePush => s.holder == ByEnqueuer(Locked)
    case NotifyOne(w) => s.holder == ByEnqueuer(Pushed) && w < |s.workers| && s.workers[w] == Asleep
    case NotifyNobody =>
      s.holder == ByEnqueuer(Pushed) && forall w | 0 <= w < |s.workers| :: s.workers[w] != Asleep
    case EnqueueUnlock => s.holder == ByEnqueuer(Notified)
    case Lock(w) => s.holder == Free && w < |s.workers| && (s.workers[w] == Starting || s.workers[w] == Woken)
    case Wait(w) => s.holder == ByWorker(w) && w < |s.workers| && s.jobs == [] && !s.shutdown
    case Take(w) => s.holder == ByWorker(w) && w < |s.workers| && s.jobs != []
    case Exit(w) => s.holder == ByWorker(w) && w < |s.workers| && s.jobs == [] && s.shutdown
    case SpuriousWake(w) => w < |s.workers| && s.workers[w] == Asleep
    case Finish(w) => w < |s.workers| && s.workers[w].Running?
    case ShutdownLock => s.holder == Free && s.closing == NotCalled
    case ShutdownSet => s.holder == ByCloser
    case NotifyAll => s.closing == FlagSet
    case Join => s.closing == Joining && forall w | 0 <= w < |s.workers| :: s.workers[w] == Exited
  }

  function Apply(s: State, step: Step): State
    requires Enabled(s, step)
  {
    match step
    case EnqueueLock => s.(holder := ByEnqueuer(Locked))
    case EnqueuePush => s.(jobs := s.jobs + [s.enqueued], enqueued := s.enqueued + 1, holder := ByEnqueuer(Pushed))
    case NotifyOne(w) => SetWorker(s, w, Woken).(holder := ByEnqueuer(Notified))
    case NotifyNobody => s.(holder := ByEnqueuer(Notified))
    case EnqueueUnlock => s.(holder := Free)
    case Lock(w) => SetWorker(s, w, Checking).(holder := ByWorker(w))
    case Wait(w) => SetWorker(s, w, Asleep).(holder := Free)
    case Take(w) =>
      SetWorker(s, w, Running(s.jobs[0])).(jobs := s.jobs[1..], taken := s.taken + [s.jobs[0]], holder := Free)
    case Exit(w) => SetWorker(s, w, Exited).(holder := Free)
    case SpuriousWake(w) => SetWorker(s, w, Woken)
    case Finish(w) => SetWorker(s, w, Starting).(done := s.done + [s.workers[w].job])
    case ShutdownLock => s.(holder := ByCloser, closing := Setting)
    case ShutdownSet => s.(shutdown := true, holder := Free, closing := FlagSet)
    case NotifyAll =>
      s.(workers := seq(|s.workers|, w requires 0 <= w < |s.workers| => Wake(s.workers[w])), closing := Joining)
    case Join => s.(closing := Returned)
  }

  // A run of the pool under any schedule.
  ghost predicate IsRun(run: seq<State>, steps: seq<Step>) {
    && |run| == |steps| + 1 && Init(run[0])
    && forall i | 0 <= i < |steps| :: Enabled(run[i], steps[i]) && run[i + 1] == Apply(run[i], steps[i])
  }

  // ---- the invariant ----

  function UpTo(n: nat): (s: seq<Job>)
    ensures |s| == n && forall i | 0 <= i < n :: s[i] == i
  {
    seq(n, i => i)
  }

  function JobOf(pc: Worker): multiset<Job> {
    if pc.Running? then multiset{pc.job} else multiset{}
  }

  function RunningJobs(workers: seq<Worker>): multiset<Job> {
    if workers == [] then multiset{}
    else RunningJobs(workers[..|workers| - 1]) + JobOf(workers[|workers| - 1])
  }

  // A worker that will look at the queue again.
  predicate WillLook(pc: Worker) { pc != Asleep && pc != Exited }

  ghost predicate Conserved(s: State) {
    && s.taken + s.jobs == UpTo(s.enqueued)
    && multiset(s.taken) == multiset(s.done) + RunningJobs(s.workers)
  }

  ghost predicate Locking(s: State) {
    && (forall w | 0 <= w < |s.workers| :: s.workers[w] == Checking <==> s.holder == ByWorker(w))
    && (s.holder.ByWorker? ==> s.holder.w < |s.workers|)
    && (s.holder.ByEnqueuer? ==> !s.shutdown)
    && (s.holder == ByCloser <==> s.closing == Setting)
    && (s.shutdown <==> s.closing == FlagSet || s.closing == Joining || s.closing == Returned)
  }

  ghost predicate Watched(s: State) {
    && s.workers != []
    && (forall w | 0 <= w < |s.workers| :: s.workers[w] == Exited ==> s.shutdown && s.jobs == [])
    && (s.jobs != [] && s.holder != ByEnqueuer(Pushed) ==> exists w :: 0 <= w < |s.workers| && WillLook(s.workers[w]))
    && (s.closing == Joining || s.closing == Returned ==>
          forall w | 0 <= w < |s.workers| :: s.workers[w] != Asleep)
    && (s.closing == Returned ==> forall w | 0 <= w < |s.workers| :: s.workers[w] == Exited)
  }

  ghost predicate Inv(s: State) { Conserved(s) && Locking(s) && Watched(s) }

  lemma {:induction false} RunningJobsSet(workers: seq<Worker>, w: nat, pc: Worker)
    requires w < |workers|
    ensures RunningJobs(workers[w := pc]) + JobOf(workers[w]) == RunningJobs(workers) + JobOf(pc)
  {
    hide JobOf;
    var n := |workers| - 1;
    var after, front, last := workers[w := pc], RunningJobs(workers[..n]), JobOf(workers[n]);
    if w == n {
      assert after[..n] == workers[..n];
      SwapLast(front, front, JobOf(pc), last, JobOf(pc));
    } else {
      assert after[..n] == workers[..n][w := pc];
      RunningJobsSet(workers[..n], w, pc);
      SwapLast(RunningJobs(after[..n]), front, last, JobOf(workers[w]), JobOf(pc));
    }
  }

  lemma SwapLast(a: multiset<Job>, b: multiset<Job>, l: multiset<Job>, j: multiset<Job>, p: multiset<Job>)
    ensures a + j == b + p ==> (a + l) + j == (b + l) + p
    ensures (a + p) + j == (a + j) + p
  {
    assert (a + l) + j == (a + j) + l && (b + l) + p == (b + p) + l;
  }

  lemma {:induction false} RunningJobsWoken(workers: seq<Worker>, woken: seq<Worker>)
    requires |workers| == |woken| && forall w | 0 <= w < |workers| :: woken[w] == Wake(workers[w])
    ensures RunningJobs(woken) == RunningJobs(workers)
  {
    if workers != [] {
      RunningJobsWoken(workers[..|workers| - 1], woken[..|workers| - 1]);
    }
  }

  lemma {:induction false} NoRunningJobs(workers: seq<Worker>)
    requires forall w | 0 <= w < |workers| :: !workers[w].Running?
    ensures RunningJobs(workers) == multiset{}
  {
    if workers != [] {
      NoRunningJobs(workers[..|workers| - 1]);
    }
  }

  lemma InitInv(s: State)
    requires Init(s)
    ensures Inv(s)
  {
    NoRunningJobs(s.workers);
  }

  lemma QueueStep(s: State, step: Step)
    requires Conserved(s) && Enabled(s, step)
    ensures var s' := Apply(s, step); s'.taken + s'.jobs == UpTo(s'.enqueued)
  {
    match step
    case EnqueuePush =>
      assert s.taken + (s.jobs + [s.enqueued]) == UpTo(s.enqueued) + [s.enqueued] == UpTo(s.enqueued + 1);
    case Take(w) => assert s.taken + [s.jobs[0]] + s.jobs[1..] == s.taken + s.jobs;
    case _ =>
  }

  // A worker that neither takes nor finishes a job changes nothing.
  lemma JobsKept(s: State, w: nat, pc: Worker)
    requires w < |s.workers| && !s.workers[w].Running? && !pc.Running?
    ensures RunningJobs(s.workers[w := pc]) == RunningJobs(s.workers)
  {
    RunningJobsSet(s.workers, w, pc);
    assert RunningJobs(s.workers[w := pc]) + multiset{} == RunningJobs(s.workers[w := pc]);
    assert RunningJobs(s.workers) + multiset{} == RunningJobs(s.workers);
  }

  lemma JobTaken(s: State, w: nat)
    requires w < |s.workers| && !s.workers[w].Running? && s.jobs != []
    requires multiset(s.taken) == multiset(s.done) + RunningJobs(s.workers)
    ensures multiset(s.taken + [s.jobs[0]]) == multiset(s.done) + RunningJobs(s.workers[w := Running(s.jobs[0])])
  {
    RunningJobsSet(s.workers, w, Running(s.jobs[0]));
    var after := RunningJobs(s.workers[w := Running(s.jobs[0])]);
    assert after + multiset{} == after;
    assert multiset(s.taken + [s.jobs[0]]) == multiset(s.taken) + multiset{s.jobs[0]};
    assert multiset(s.done) + (RunningJobs(s.workers) + multiset{s.jobs[0]}) == multiset(s.taken) + multiset{s.jobs[0]};
  }

  lemma JobFinished(s: State, w: nat)
    requires w < |s.workers| && s.workers[w].Running?
    requires multiset(s.taken) == multiset(s.done) + RunningJobs(s.workers)
    ensures multiset(s.taken) == multiset(s.done + [s.workers[w].job]) + RunningJobs(s.workers[w := Starting])
  {
    RunningJobsSet(s.workers, w, Starting);
    var j, after := s.workers[w].job, RunningJobs(s.workers[w := Starting]);
    assert RunningJobs(s.workers) + multiset{} == RunningJobs(s.workers);
    assert multiset(s.done + [j]) == multiset(s.done) + multiset{j};
    assert multiset(s.done) + multiset{j} + after == multiset(s.done) + (after + multiset{j});
  }

  lemma ConservedStep(s: State, step: Step)
    requires Conserved(s) && Locking(s) && Enabled(s, step)
    ensures Conserved(Apply(s, step))
  {
    hide RunningJobs;
    QueueStep(s, step);
    match step
    case NotifyOne(w) => JobsKept(s, w, Woken);
    case Lock(w) => JobsKept(s, w, Checking);
    case Wait(w) => JobsKept(s, w, Asleep);
    case Take(w) => JobTaken(s, w);
    case Exit(w) => JobsKept(s, w, Exited);
    case SpuriousWake(w) => JobsKept(s, w, Woken);
    case Finish(w) => JobFinished(s, w);
    case NotifyAll => RunningJobsWoken(s.workers, Apply(s, step).workers);
    case _ =>
  }

  lemma LockingStep(s: State, step: Step)
    requires Inv(s) && Enabled(s, step)
    ensures Locking(Apply(s, step))
  {
  }

  // A worker other than those at w that will look at the queue.
  lemma StillWatched(s: State, s': State, w: nat)
    requires w < |s'.workers| && WillLook(s'.workers[w])
    ensures exists k :: 0 <= k < |s'.workers| && WillLook(s'.workers[k])
  {
  }

  lemma WatchedStep(s: State, step: Step)
    requires Inv(s) && Enabled(s, step)
    ensures Watched(Apply(s, step))
  {
    var s' := Apply(s, step);
    if s'.jobs != [] && s'.holder != ByEnqueuer(Pushed) {
      match step
      case NotifyOne(w) => StillWatched(s, s', w);
      case NotifyNobody =>
        assert s.workers[0] != Asleep && s.workers[0] != Exited;
        StillWatched(s, s', 0);
      case Lock(w) => StillWatched(s, s', w);
      case Take(w) => StillWatched(s, s', w);
      case SpuriousWake(w) => StillWatched(s, s', w);
      case Finish(w) => StillWatched(s, s', w);
      case EnqueueLock => StillWatchedBy(s, s');
      case EnqueueUnlock => StillWatchedBy(s, s');
      case ShutdownLock => StillWatchedBy(s, s');
      case ShutdownSet => StillWatchedBy(s, s');
      case NotifyAll => StillWatchedBy(s, s');
      case _ =>
    }
  }

  // The same, when all who looked before still do.
  lemma StillWatchedBy(s: State, s': State)
    requires |s.workers| == |s'.workers|
    requires exists w :: 0 <= w < |s.workers| && WillLook(s.workers[w])
    requires forall w | 0 <= w < |s.workers| :: WillLook(s.workers[w]) ==> WillLook(s'.workers[w])
    ensures exists w :: 0 <= w < |s'.workers| && WillLook(s'.workers[w])
  {
    var w :| 0 <= w < |s.workers| && WillLook(s.workers[w]);
    StillWatched(s, s', w);
  }

  lemma StepKeepsInv(s: State, step: Step)
    requires Inv(s) && Enabled(s, step)
    ensures Inv(Apply(s, step))
  {
    ConservedStep(s, step);
    LockingStep(s, step);
    WatchedStep(s, step);
  }

  lemma {:induction false} RunKeepsInv(run: seq<State>, steps: seq<Step>, i: nat)
    requires IsRun(run, steps) && i < |run|
    ensures Inv(run[i])
  {
    if i == 0 {
      InitInv(run[0]);
    } else {
      RunKeepsInv(run, steps, i - 1);
      StepKeepsInv(run[i - 1], steps[i - 1]);
    }
  }

  // ---- what holds in every state of every run ----

  // Jobs leave the queue in the order in which they were enqueued.
  lemma FirstInFirstOut(run: seq<State>, steps: seq<Step>, i: nat)
    requires IsRun(run, steps) && i < |run|
    ensures |run[i].taken| <= run[i].enqueued && run[i].taken == UpTo(|run[i].taken|)
    ensures run[i].jobs == UpTo(run[i].enqueued)[|run[i].taken|..]
  {
    RunKeepsInv(run, steps, i);
    var s := run[i];
    assert |s.taken + s.jobs| == s.enqueued;
    assert s.taken == (s.taken + s.jobs)[..|s.taken|];
    assert s.jobs == (s.taken + s.jobs)[|s.taken|..];
  }

  lemma OnceIn(s: seq<Job>, n: nat, j: Job)
    requires s == UpTo(n)
    ensures multiset(s)[j] == if j < n then 1 else 0
  {
    if n > 0 {
      assert s == s[..n - 1] + [n - 1];
      OnceIn(s[..n - 1], n - 1, j);
    }
  }

  // No job is run twice: it is running or finished at most once altogether.
  lemma AtMostOnce(run: seq<State>, steps: seq<Step>, i: nat, j: Job)
    requires IsRun(run, steps) && i < |run|
    ensures multiset(run[i].done)[j] + RunningJobs(run[i].workers)[j] <= 1
    ensures j >= run[i].enqueued ==> multiset(run[i].done)[j] + RunningJobs(run[i].workers)[j] == 0
  {
    RunKeepsInv(run, steps, i);
    FirstInFirstOut(run, steps, i);
    OnceIn(run[i].taken, |run[i].taken|, j);
    assert |run[i].taken + run[i].jobs| == run[i].enqueued;
  }

  // When shutdown() has returned, every enqueued job has been run exactly once.
  lemma AllDone(run: seq<State>, steps: seq<Step>, i: nat, j: Job)
    requires IsRun(run, steps) && i < |run| && run[i].closing == Returned
    ensures run[i].jobs == [] && |run[i].done| == run[i].enqueued
    ensures multiset(run[i].done)[j] == if j < run[i].enqueued then 1 else 0
  {
    var s := run[i];
    RunKeepsInv(run, steps, i);
    assert s.workers[0] == Exited;
    NoRunningJobs(s.workers);
    assert s.taken + s.jobs == s.taken;
    OnceIn(s.taken, s.enqueued, j);
    assert |multiset(s.taken)| == |multiset(s.done)|;
  }

  // The queue is never left with a job while every worker sleeps: at most, the
  // thread that has just pushed the job is about to notify, with the mutex held.
  lemma NoLostWakeup(run: seq<State>, steps: seq<Step>, i: nat)
    requires IsRun(run, steps) && i < |run| && run[i].jobs != []
    requires forall w | 0 <= w < |run[i].workers| :: run[i].workers[w] == Asleep
    ensures run[i].holder == ByEnqueuer(Pushed)
    ensures exists step: Step :: step.NotifyOne? && Enabled(run[i], step)
  {
    RunKeepsInv(run, steps, i);
    assert Enabled(run[i], NotifyOne(0));
  }

  // ---- shutdown() returns ----

  function Rank(pc: Worker): nat {
    match pc
    case Running(_) => 3
    case Starting => 2
    case Woken => 2
    case Checking => 1
    case Asleep => 0
    case Exited => 0
  }

  function Ranks(workers: seq<Worker>): nat {
    if workers == [] then 0 else Ranks(workers[..|workers| - 1]) + Rank(workers[|workers| - 1])
  }

  function Work(s: State): nat { Ranks(s.workers) + 3 * |s.jobs| }

  lemma {:induction false} RanksSet(workers: seq<Worker>, w: nat, pc: Worker)
    requires w < |workers|
    ensures Ranks(workers[w := pc]) + Rank(workers[w]) == Ranks(workers) + Rank(pc)
  {
    var n := |workers| - 1;
    if w == n {
      assert workers[w := pc][..n] == workers[..n];
    } else {
      assert workers[w := pc][..n] == workers[..n][w := pc];
      RanksSet(workers[..n], w, pc);
    }
  }

  // Once every worker has been notified, each step brings the end nearer, and as
  // long as shutdown() has not returned there is a step to take; so shutdown()
  // returns after a bounded number of steps, whatever the schedule.
  lemma ShutdownTerminates(run: seq<State>, steps: seq<Step>, i: nat)
    requires IsRun(run, steps) && i < |run| && run[i].closing == Joining
    ensures exists step :: Enabled(run[i], step)
    ensures forall step | Enabled(run[i], step) ::
              var s' := Apply(run[i], step);
              s'.closing == Returned || (s'.closing == Joining && Work(s') < Work(run[i]))
  {
    RunKeepsInv(run, steps, i);
    JoiningProgress(run[i]);
    forall step | Enabled(run[i], step)
      ensures var s' := Apply(run[i], step);
              s'.closing == Returned || (s'.closing == Joining && Work(s') < Work(run[i]))
    {
      JoiningDecreases(run[i], step);
    }
  }

  // So at most Work more steps can follow before shutdown() returns.
  lemma {:induction false} JoiningBounded(run: seq<State>, steps: seq<Step>, i: nat, k: nat)
    requires IsRun(run, steps) && i <= k < |run| && run[i].closing == Joining
    ensures run[k].closing == Returned || (run[k].closing == Joining && Work(run[k]) + (k - i) <= Work(run[i]))
    decreases k
  {
    if i < k {
      JoiningBounded(run, steps, i, k - 1);
      RunKeepsInv(run, steps, k - 1);
      if run[k - 1].closing == Joining {
        JoiningDecreases(run[k - 1], steps[k - 1]);
      } else {
        AtRest(run[k - 1], steps[k - 1]);
      }
    }
  }

  // When shutdown() has returned, nothing moves any more.
  lemma AtRest(s: State, step: Step)
    requires s.closing == Returned && Inv(s)
    ensures !Enabled(s, step)
  {
  }

  lemma JoiningDecreases(s: State, step: Step)
    requires Inv(s) && s.closing == Joining && Enabled(s, step)
    ensures var s' := Apply(s, step); s'.closing == Returned || (s'.closing == Joining && Work(s') < Work(s))
  {
    match step
    case Lock(w) => RanksSet(s.workers, w, Checking);
    case Take(w) => RanksSet(s.workers, w, Running(s.jobs[0]));
    case Exit(w) => RanksSet(s.workers, w, Exited);
    case Finish(w) => RanksSet(s.workers, w, Starting);
    case _ =>
  }

  lemma JoiningProgress(s: State)
    requires Inv(s) && s.closing == Joining
    ensures exists step :: Enabled(s, step)
  {
    if exists w :: 0 <= w < |s.workers| && s.workers[w] != Exited {
      var w :| 0 <= w < |s.workers| && s.workers[w] != Exited;
      if s.workers[w].Running? {
        assert Enabled(s, Finish(w));
      } else if s.holder == Free {
        assert Enabled(s, Lock(w));
      } else if s.jobs != [] {
        assert Enabled(s, Take(s.holder.w));
      } else {
        assert Enabled(s, Exit(s.holder.w));
      }
    } else {
      assert Enabled(s, Join);
    }
  }
}
