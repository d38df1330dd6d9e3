/**
 The thread pool (rct/ThreadPool.cpp) as a state machine.  A step is a region run under the pool's
 mutex, the end of a job, or a wakeup without cause; steps of all threads interleave freely.
 */
module ThreadPool {
  import opened Common

  /** Where a worker stands. */
  datatype Place =
    | Fresh               // about to take the mutex for the first time
    | Asleep              // waiting, not notified
    | Woken               // notified or woken without cause, about to recheck the queue
    | Running(job: nat)   // between taking a job and the end of its run
    | Ended(job: nat)     // behind the run, about to take the mutex again
    | Exited

  datatype Worker = Worker(place: Place, stopped: bool)

  /** Job::State */
  datatype JobState = NotStarted | InProgress | Finished

  /** `jobs` is the queue, `busy` is mBusyThreads; the rest records what has happened to each job. */
  datatype State = State(
    workers: map<nat, Worker>,
    jobs: seq<nat>,
    busy: int,
    priority: map<nat, int>,
    state: map<nat, JobState>,
    removed: set<nat>,
    runs: map<nat, nat>)

  datatype Step =
    | Start(job: nat, priority: int, order: seq<nat>, notified: set<nat>)
    | Remove(job: nat)
    | ClearBackLog
    | AddWorker(worker: nat)
    | Stop(worker: nat)
    | Recheck(worker: nat)
    | EndRun(worker: nat)
    | SpuriousWakeup(worker: nat)

  // ---- The queue ----

  function Unsigned(priority: int): nat { priority % 0x1_0000_0000 }

  /** The priority of jobs that run on a thread of their own and are never queued. */
  const Guaranteed := -1

  function PriorityOf(priority: map<nat, int>, job: nat): int {
    if job in priority then priority[job] else 0
  }

  /** What std::sort guarantees with jobLessThan. */
  predicate SortedUnsigned(order: seq<nat>, priority: map<nat, int>) {
    forall i, k | 0 <= i < k < |order| :: Unsigned(PriorityOf(priority, order[i])) >= Unsigned(PriorityOf(priority, order[k]))
  }

  /** The queue after `start` has inserted `job`; where std::sort runs, any order it may leave. */
  predicate Inserted(jobs: seq<nat>, job: nat, priority: map<nat, int>, order: seq<nat>) {
    if jobs == [] then order == [job]
    else if PriorityOf(priority, jobs[|jobs| - 1]) >= PriorityOf(priority, job) then order == jobs + [job]
    else if PriorityOf(priority, jobs[0]) < PriorityOf(priority, job) then order == [job] + jobs
    else multiset(order) == multiset(jobs + [job]) && SortedUnsigned(order, priority)
  }

  /** Highest priority first. */
  predicate NonIncreasing(jobs: seq<nat>, priority: map<nat, int>) {
    forall i, k | 0 <= i < k < |jobs| :: PriorityOf(priority, jobs[i]) >= PriorityOf(priority, jobs[k])
  }

  // ---- Steps ----

  function AsleepIn(workers: map<nat, Worker>): set<nat> {
    set w | w in workers && workers[w].place == Asleep
  }

  /** `notify_one` wakes one sleeper if there is any. */
  predicate NotifiesOne(s: State, notified: set<nat>) {
    if AsleepIn(s.workers) == {} then notified == {}
    else exists w :: w in AsleepIn(s.workers) && notified == {w}
  }

  function Wake(workers: map<nat, Worker>, woken: set<nat>): map<nat, Worker> {
    map w | w in workers :: if w in woken then workers[w].(place := Woken) else workers[w]
  }

  ghost predicate Enabled(s: State, a: Step) {
    match a
    case Start(job, p, order, notified) =>
      && job !in s.priority && IsInt32(p) && p != Guaranteed
      && Inserted(s.jobs, job, s.priority[job := p], order) && NotifiesOne(s, notified)
    case Remove(_) => true
    case ClearBackLog => true
    case AddWorker(w) => w !in s.workers
    case Stop(w) => w in s.workers
    case Recheck(w) =>
      && w in s.workers
      && !s.workers[w].place.Asleep? && !s.workers[w].place.Running? && !s.workers[w].place.Exited?
    case EndRun(w) => w in s.workers && s.workers[w].place.Running?
    case SpuriousWakeup(w) => w in s.workers && s.workers[w].place == Asleep
  }

  function Next(s: State, a: Step): State
    requires Enabled(s, a)
  {
    match a
    case Start(job, p, order, notified) =>
      s.(jobs := order, priority := s.priority[job := p], state := s.state[job := NotStarted],
         runs := s.runs[job := 0], workers := Wake(s.workers, notified))
    case Remove(job) =>
      if job !in s.jobs then s
      else s.(jobs := Without(s.jobs, job), removed := s.removed + {job})
    case ClearBackLog => s.(jobs := [], removed := s.removed + (set j | j in s.jobs))
    case AddWorker(w) => s.(workers := s.workers[w := Worker(Fresh, false)])
    case Stop(w) =>
      s.(workers := Wake(s.workers[w := s.workers[w].(stopped := true)], AsleepIn(s.workers)))
    case Recheck(w) =>
      // back from a run, the worker is no longer busy; then it checks the queue and its stop flag
      var busy := if s.workers[w].place.Ended? then s.busy - 1 else s.busy;
      if s.workers[w].stopped then s.(busy := busy, workers := s.workers[w := s.workers[w].(place := Exited)])
      else if s.jobs == [] then s.(busy := busy, workers := s.workers[w := s.workers[w].(place := Asleep)])
      else
        var job := s.jobs[0];
        s.(jobs := s.jobs[1..], busy := busy + 1, state := s.state[job := InProgress],
           runs := s.runs[job := (if job in s.runs then s.runs[job] else 0) + 1],
           workers := s.workers[w := s.workers[w].(place := Running(job))])
    case EndRun(w) =>
      var job := s.workers[w].place.job;
      s.(state := s.state[job := Finished], workers := s.workers[w := s.workers[w].(place := Ended(job))])
    case SpuriousWakeup(w) => s.(workers := Wake(s.workers, {w}))
  }

  /** The queue without the first occurrence of `job`. */
  function Without(jobs: seq<nat>, job: nat): seq<nat> {
    if jobs == [] then [] else if jobs[0] == job then jobs[1..] else [jobs[0]] + Without(jobs[1..], job)
  }

  /** An empty pool without workers; the constructor and setConcurrentJobs add them. */
  function Init(): State { State(map[], [], 0, map[], map[], {}, map[]) }

  // ---- The invariant ----

  /** Workers about to look at the queue who will not just leave. */
  predicate Rechecks(w: Worker) { (w.place == Woken || w.place == Fresh) && !w.stopped }

  function RecheckingIn(workers: map<nat, Worker>): set<nat> {
    set w | w in workers && Rechecks(workers[w])
  }

  predicate IsBusy(w: Worker) { w.place.Running? || w.place.Ended? }

  function BusyIn(workers: map<nat, Worker>): set<nat> {
    set w | w in workers && IsBusy(workers[w])
  }

  /** A sleeper has not been stopped, and while there is one, every queued job has a worker coming. */
  ghost predicate WakeupInv(s: State) { EachJobHasAWorker(s.workers, |s.jobs|) }

  ghost predicate EachJobHasAWorker(workers: map<nat, Worker>, jobs: nat) {
    && (forall w | w in AsleepIn(workers) :: !workers[w].stopped)
    && (AsleepIn(workers) != {} ==> jobs <= |RecheckingIn(workers)|)
  }

  /** The jobs being run. */
  function RunningIn(workers: map<nat, Worker>): set<nat> {
    set w | w in workers && workers[w].place.Running? :: workers[w].place.job
  }

  /** No job is run by two workers. */
  ghost predicate OneWorkerEach(workers: map<nat, Worker>) {
    forall w, v | w in workers && v in workers && workers[w].place.Running? && workers[v].place == workers[w].place :: w == v
  }

  /** Nothing is queued twice. */
  ghost predicate QueuedOnce(jobs: seq<nat>) { forall j | j in jobs :: multiset(jobs)[j] == 1 }

  /** Exactly the jobs not started are queued or removed, and not both. */
  ghost predicate QueueInv(jobs: seq<nat>, removed: set<nat>, state: map<nat, JobState>) {
    && QueuedOnce(jobs)
    && (forall j | j in jobs :: j in state && j !in removed)
    && removed <= state.Keys
    && (forall j | j in state :: state[j] == NotStarted <==> j in jobs || j in removed)
  }

  /** Exactly the jobs in progress are being run, each by one worker. */
  ghost predicate RunInv(workers: map<nat, Worker>, state: map<nat, JobState>) {
    && OneWorkerEach(workers)
    && RunningIn(workers) <= state.Keys
    && (forall j | j in state :: state[j] == InProgress <==> j in RunningIn(workers))
  }

  /** A job that has not started has never been run, every other exactly once. */
  ghost predicate OnceInv(runs: map<nat, nat>, state: map<nat, JobState>) {
    runs.Keys == state.Keys && forall j | j in state :: runs[j] == if state[j] == NotStarted then 0 else 1
  }

  ghost predicate JobInv(s: State) {
    && s.priority.Keys == s.state.Keys
    && QueueInv(s.jobs, s.removed, s.state)
    && RunInv(s.workers, s.state)
    && OnceInv(s.runs, s.state)
  }

  ghost predicate Inv(s: State) {
    && WakeupInv(s) && JobInv(s)
    && s.busy == |BusyIn(s.workers)|
    && (forall j | j in s.priority :: IsInt32(s.priority[j]))
  }

  lemma InitInv()
    ensures Inv(Init())
  {
  }

  // ---- Preservation: wakeups ----

  /** The sets of workers after one worker has changed. */
  lemma WorkerChanged(workers: map<nat, Worker>, w: nat, x: Worker)
    ensures AsleepIn(workers[w := x]) == if x.place == Asleep then AsleepIn(workers) + {w} else AsleepIn(workers) - {w}
    ensures RecheckingIn(workers[w := x]) == if Rechecks(x) then RecheckingIn(workers) + {w} else RecheckingIn(workers) - {w}
    ensures BusyIn(workers[w := x]) == if IsBusy(x) then BusyIn(workers) + {w} else BusyIn(workers) - {w}
  {
  }

  /** The sets of workers after some sleepers, none of them stopped, have been woken. */
  lemma WorkersWoken(workers: map<nat, Worker>, woken: set<nat>)
    requires woken <= AsleepIn(workers)
    ensures AsleepIn(Wake(workers, woken)) == AsleepIn(workers) - woken
    ensures (forall w | w in woken :: !workers[w].stopped) ==>
              RecheckingIn(Wake(workers, woken)) == RecheckingIn(workers) + woken
    ensures RecheckingIn(workers) !! woken
    ensures BusyIn(Wake(workers, woken)) == BusyIn(workers)
  {
  }

  lemma {:induction false} WithoutLength(jobs: seq<nat>, job: nat)
    ensures |Without(jobs, job)| <= |jobs|
  {
    if jobs != [] { WithoutLength(jobs[1..], job); }
  }

  lemma InsertedLength(jobs: seq<nat>, job: nat, priority: map<nat, int>, order: seq<nat>)
    requires Inserted(jobs, job, priority, order)
    ensures multiset(order) == multiset(jobs) + multiset{job} && |order| == |jobs| + 1
  {
    assert |multiset(order)| == |order|;
  }

  lemma StartKeepsWakeups(s: State, a: Step)
    requires a.Start? && Enabled(s, a) && WakeupInv(s)
    ensures WakeupInv(Next(s, a))
  {
    InsertedLength(s.jobs, a.job, s.priority[a.job := a.priority], a.order);
    WorkersWoken(s.workers, a.notified);
    hide AsleepIn, RecheckingIn, Inserted;
    if AsleepIn(s.workers) != {} {
      assert |RecheckingIn(s.workers) + a.notified| == |RecheckingIn(s.workers)| + |a.notified|;
    }
  }

  lemma StopKeepsWakeups(s: State, w: nat)
    requires w in s.workers && WakeupInv(s)
    ensures WakeupInv(Next(s, Stop(w)))
  {
    assert AsleepIn(Next(s, Stop(w)).workers) == {};
  }

  lemma SpuriousKeepsWakeups(s: State, w: nat)
    requires Enabled(s, SpuriousWakeup(w)) && WakeupInv(s)
    ensures WakeupInv(Next(s, SpuriousWakeup(w)))
  {
    WorkersWoken(s.workers, {w});
    SubsetSize(RecheckingIn(s.workers), RecheckingIn(s.workers) + {w});
    hide RecheckingIn;
  }

  lemma Shrinks(a: set<nat>, w: nat)
    ensures |a - {w}| >= |a| - 1
    ensures w !in a ==> a - {w} == a
  {
    if w in a {
      assert a == (a - {w}) + {w};
    } else {
      assert a - {w} == a;
    }
  }

  /** A worker that was awake moves on: it may take a job with it, and sleeps only on an empty queue. */
  lemma MovesOn(workers: map<nat, Worker>, jobs: nat, w: nat, x: Worker, jobs': nat)
    requires EachJobHasAWorker(workers, jobs) && w in workers && w !in AsleepIn(workers)
    requires jobs' <= jobs && (Rechecks(workers[w]) ==> jobs' < jobs || jobs' == 0)
    requires !Rechecks(x) && (x.place == Asleep ==> jobs' == 0 && !x.stopped)
    ensures EachJobHasAWorker(workers[w := x], jobs')
  {
    WorkerChanged(workers, w, x);
    Shrinks(RecheckingIn(workers), w);
  }

  /** A stopped worker leaves; it was not among those counted on. */
  lemma Leaves(workers: map<nat, Worker>, jobs: nat, w: nat, x: Worker)
    requires EachJobHasAWorker(workers, jobs) && w in workers && w !in AsleepIn(workers)
    requires !Rechecks(workers[w]) && !Rechecks(x) && x.place != Asleep
    ensures EachJobHasAWorker(workers[w := x], jobs)
  {
    WorkerChanged(workers, w, x);
    Shrinks(RecheckingIn(workers), w);
  }

  lemma RecheckKeepsWakeups(s: State, w: nat)
    requires Enabled(s, Recheck(w)) && WakeupInv(s)
    ensures WakeupInv(Next(s, Recheck(w)))
  {
    var was, s' := s.workers[w], Next(s, Recheck(w));
    assert w !in AsleepIn(s.workers);
    hide EachJobHasAWorker, AsleepIn;
    if was.stopped {
      Leaves(s.workers, |s.jobs|, w, was.(place := Exited));
    } else {
      MovesOn(s.workers, |s.jobs|, w, s'.workers[w], |s'.jobs|);
    }
  }

  /** No step loses a wakeup. */
  lemma WakeupPreserved(s: State, a: Step)
    requires Enabled(s, a) && WakeupInv(s)
    ensures WakeupInv(Next(s, a))
  {
    match a
    case Start(_, _, _, _) => StartKeepsWakeups(s, a);
    case Remove(job) => WithoutLength(s.jobs, job);
    case ClearBackLog =>
    case AddWorker(w) =>
      WorkerChanged(s.workers, w, Worker(Fresh, false));
      SubsetSize(RecheckingIn(s.workers), RecheckingIn(s.workers) + {w});
    case Stop(w) => StopKeepsWakeups(s, w);
    case Recheck(w) => RecheckKeepsWakeups(s, w);
    case EndRun(w) =>
      var was := s.workers[w];
      WorkerChanged(s.workers, w, was.(place := Ended(was.place.job)));
      assert w !in AsleepIn(s.workers) && w !in RecheckingIn(s.workers);
    case SpuriousWakeup(w) => SpuriousKeepsWakeups(s, w);
  }

  // ---- Preservation: jobs ----

  lemma {:induction false} WithoutCounts(jobs: seq<nat>, job: nat)
    requires job in jobs
    ensures multiset(Without(jobs, job)) == multiset(jobs) - multiset{job}
  {
    assert jobs == [jobs[0]] + jobs[1..];
    if jobs[0] != job {
      WithoutCounts(jobs[1..], job);
    }
  }

  lemma InQueue(jobs: seq<nat>)
    ensures forall j :: j in jobs <==> multiset(jobs)[j] > 0
  {
    assert forall j :: j in jobs <==> j in multiset(jobs);
  }

  lemma EnqueueKeeps(jobs: seq<nat>, removed: set<nat>, state: map<nat, JobState>, job: nat, order: seq<nat>)
    requires QueueInv(jobs, removed, state) && job !in state
    requires multiset(order) == multiset(jobs) + multiset{job}
    ensures QueueInv(order, removed, state[job := NotStarted])
  {
    InQueue(jobs);
    InQueue(order);
  }

  lemma RemoveKeeps(jobs: seq<nat>, removed: set<nat>, state: map<nat, JobState>, job: nat)
    requires QueueInv(jobs, removed, state) && job in jobs
    ensures QueueInv(Without(jobs, job), removed + {job}, state)
  {
    WithoutCounts(jobs, job);
    InQueue(jobs);
    InQueue(Without(jobs, job));
  }

  lemma PopKeeps(jobs: seq<nat>, removed: set<nat>, state: map<nat, JobState>)
    requires QueueInv(jobs, removed, state) && jobs != []
    ensures QueueInv(jobs[1..], removed, state[jobs[0] := InProgress])
  {
    assert jobs == [jobs[0]] + jobs[1..];
    assert multiset(jobs) == multiset{jobs[0]} + multiset(jobs[1..]);
    InQueue(jobs);
    InQueue(jobs[1..]);
    forall j | j in jobs[1..]
      ensures multiset(jobs[1..])[j] == 1 && j in jobs && j != jobs[0]
    {
      assert j in jobs;
    }
    assert jobs[0] in jobs;
  }

  lemma RunningChanged(workers: map<nat, Worker>, w: nat, x: Worker)
    requires OneWorkerEach(workers)
    ensures w in workers && workers[w].place.Running? && !x.place.Running? ==>
              RunningIn(workers[w := x]) == RunningIn(workers) - {workers[w].place.job}
    ensures (w in workers ==> !workers[w].place.Running?) ==>
              RunningIn(workers[w := x]) == RunningIn(workers) + (if x.place.Running? then {x.place.job} else {})
    ensures (x.place.Running? ==> x.place.job !in RunningIn(workers)) ==> OneWorkerEach(workers[w := x])
  {
    forall j | j in RunningIn(workers)
      ensures exists v :: v in workers && workers[v].place == Running(j)
    {
    }
    forall j | j in RunningIn(workers) && (w in workers ==> workers[w].place != Running(j))
      ensures j in RunningIn(workers[w := x])
    {
      var v :| v in workers && workers[v].place == Running(j);
      assert workers[w := x][v].place == Running(j);
    }
    if x.place.Running? {
      assert workers[w := x][w].place == Running(x.place.job);
    }
  }

  lemma RunningWoken(workers: map<nat, Worker>, woken: set<nat>)
    requires woken <= AsleepIn(workers) && OneWorkerEach(workers)
    ensures RunningIn(Wake(workers, woken)) == RunningIn(workers) && OneWorkerEach(Wake(workers, woken))
  {
    var after := Wake(workers, woken);
    forall j | j in RunningIn(workers)
      ensures j in RunningIn(after)
    {
      var w :| w in workers && workers[w].place == Running(j);
      assert after[w].place == Running(j);
    }
    forall j | j in RunningIn(after)
      ensures j in RunningIn(workers)
    {
      var w :| w in after && after[w].place == Running(j);
      assert workers[w].place == Running(j);
    }
  }

  lemma StopKeepsJobs(s: State, w: nat)
    requires w in s.workers && JobInv(s)
    ensures JobInv(Next(s, Stop(w)))
  {
    var stopped := s.workers[w].(stopped := true);
    var between := s.workers[w := stopped];
    assert forall j :: j in RunningIn(between) <==> j in RunningIn(s.workers) by { StoppedRuns(s.workers, w); }
    assert OneWorkerEach(between);
    assert AsleepIn(between) == AsleepIn(s.workers);
    RunningWoken(between, AsleepIn(s.workers));
  }

  lemma StoppedRuns(workers: map<nat, Worker>, w: nat)
    requires w in workers
    ensures RunningIn(workers[w := workers[w].(stopped := true)]) == RunningIn(workers)
  {
    var after := workers[w := workers[w].(stopped := true)];
    forall v | v in workers
      ensures after[v].place == workers[v].place
    {
    }
    forall j | j in RunningIn(workers)
      ensures j in RunningIn(after)
    {
      var v :| v in workers && workers[v].place == Running(j);
      assert after[v].place == Running(j);
    }
    forall j | j in RunningIn(after)
      ensures j in RunningIn(workers)
    {
      var v :| v in after && after[v].place == Running(j);
      assert workers[v].place == Running(j);
    }
  }

  lemma RecheckKeepsJobs(s: State, w: nat)
    requires Enabled(s, Recheck(w)) && JobInv(s)
    ensures JobInv(Next(s, Recheck(w)))
  {
    if !s.workers[w].stopped && s.jobs != [] {
      PopKeeps(s.jobs, s.removed, s.state);
      PopKeepsRuns(s.workers, s.runs, s.state, w, s.jobs[0]);
      hide QueueInv, RunInv, OnceInv;
    } else {
      NotRunningKeepsRuns(s.workers, s.state, w, Next(s, Recheck(w)).workers[w]);
      hide QueueInv, RunInv, OnceInv;
    }
  }

  lemma PopKeepsRuns(workers: map<nat, Worker>, runs: map<nat, nat>, state: map<nat, JobState>, w: nat, job: nat)
    requires RunInv(workers, state) && OnceInv(runs, state) && job in state && state[job] == NotStarted
    requires w in workers && !workers[w].place.Running?
    ensures RunInv(workers[w := workers[w].(place := Running(job))], state[job := InProgress])
    ensures OnceInv(runs[job := runs[job] + 1], state[job := InProgress])
  {
    RunningChanged(workers, w, workers[w].(place := Running(job)));
    hide RunningIn, OneWorkerEach;
  }

  lemma NotRunningKeepsRuns(workers: map<nat, Worker>, state: map<nat, JobState>, w: nat, x: Worker)
    requires RunInv(workers, state) && w in workers && !workers[w].place.Running? && !x.place.Running?
    ensures RunInv(workers[w := x], state)
  {
    RunningChanged(workers, w, x);
    hide RunningIn, OneWorkerEach;
  }

  lemma NewJobKeepsRuns(workers: map<nat, Worker>, runs: map<nat, nat>, state: map<nat, JobState>, job: nat)
    requires RunInv(workers, state) && OnceInv(runs, state) && job !in state
    ensures RunInv(workers, state[job := NotStarted]) && OnceInv(runs[job := 0], state[job := NotStarted])
  {
    hide RunningIn, OneWorkerEach;
  }

  lemma WakeKeepsRuns(workers: map<nat, Worker>, state: map<nat, JobState>, woken: set<nat>)
    requires RunInv(workers, state) && woken <= AsleepIn(workers)
    ensures RunInv(Wake(workers, woken), state)
  {
    RunningWoken(workers, woken);
    hide RunningIn, OneWorkerEach, AsleepIn, Wake;
  }

  lemma StartKeepsJobs(s: State, a: Step)
    requires a.Start? && Enabled(s, a) && JobInv(s)
    ensures JobInv(Next(s, a))
  {
    InsertedLength(s.jobs, a.job, s.priority[a.job := a.priority], a.order);
    EnqueueKeeps(s.jobs, s.removed, s.state, a.job, a.order);
    NewJobKeepsRuns(s.workers, s.runs, s.state, a.job);
    WakeKeepsRuns(s.workers, s.state[a.job := NotStarted], a.notified);
    hide QueueInv, RunInv, OnceInv, Inserted, AsleepIn, NotifiesOne, Wake;
  }

  lemma EndKeepsQueue(jobs: seq<nat>, removed: set<nat>, state: map<nat, JobState>, job: nat)
    requires QueueInv(jobs, removed, state) && job in state && state[job] == InProgress
    ensures QueueInv(jobs, removed, state[job := Finished])
  {
    hide QueuedOnce;
  }

  lemma EndRunKeepsJobs(s: State, w: nat)
    requires Enabled(s, EndRun(w)) && JobInv(s)
    ensures JobInv(Next(s, EndRun(w)))
  {
    var was := s.workers[w];
    RunningChanged(s.workers, w, was.(place := Ended(was.place.job)));
    assert was.place.job in RunningIn(s.workers);
    EndKeepsQueue(s.jobs, s.removed, s.state, was.place.job);
    hide RunningIn, OneWorkerEach, QueueInv;
  }

  /** No step loses, doubles or reruns a job. */
  lemma JobsPreserved(s: State, a: Step)
    requires Enabled(s, a) && JobInv(s)
    ensures JobInv(Next(s, a))
  {
    match a
    case Start(_, _, _, _) => StartKeepsJobs(s, a);
    case Remove(job) =>
      if job in s.jobs { RemoveKeeps(s.jobs, s.removed, s.state, job); }
    case ClearBackLog =>
    case AddWorker(w) => RunningChanged(s.workers, w, Worker(Fresh, false));
    case Stop(w) => StopKeepsJobs(s, w);
    case Recheck(w) => RecheckKeepsJobs(s, w);
    case EndRun(w) => EndRunKeepsJobs(s, w);
    case SpuriousWakeup(w) => RunningWoken(s.workers, {w});
  }

  // ---- Preservation: busy count and order ----

  lemma StopKeepsBusy(s: State, w: nat)
    requires w in s.workers
    ensures BusyIn(Next(s, Stop(w)).workers) == BusyIn(s.workers)
  {
    var between := s.workers[w := s.workers[w].(stopped := true)];
    assert BusyIn(between) == BusyIn(s.workers) && AsleepIn(between) == AsleepIn(s.workers);
    WorkersWoken(between, AsleepIn(s.workers));
  }

  lemma RecheckMoves(s: State, w: nat)
    requires Enabled(s, Recheck(w))
    ensures var s' := Next(s, Recheck(w)); w in s'.workers && s'.workers == s.workers[w := s'.workers[w]]
    ensures var s' := Next(s, Recheck(w));
            s'.busy == s.busy - (if s.workers[w].place.Ended? then 1 else 0) + (if s'.workers[w].place.Running? then 1 else 0)
  {
  }

  lemma RecheckCountsBusy(s: State, w: nat)
    requires Enabled(s, Recheck(w)) && s.busy == |BusyIn(s.workers)|
    ensures Next(s, Recheck(w)).busy == |BusyIn(Next(s, Recheck(w)).workers)|
  {
    var x := Next(s, Recheck(w)).workers[w];
    RecheckMoves(s, w);
    assert w in BusyIn(s.workers) <==> s.workers[w].place.Ended?;
    hide BusyIn, AsleepIn, RecheckingIn, Next;
    WorkerChanged(s.workers, w, x);
    CountOut(BusyIn(s.workers), w);
  }

  /** mBusyThreads counts the workers between taking a job and taking the mutex again. */
  lemma BusyPreserved(s: State, a: Step)
    requires Enabled(s, a) && s.busy == |BusyIn(s.workers)|
    ensures Next(s, a).busy == |BusyIn(Next(s, a).workers)|
  {
    match a
    case Start(_, _, _, notified) => WorkersWoken(s.workers, notified);
    case AddWorker(w) =>
      WorkerChanged(s.workers, w, Worker(Fresh, false));
      assert BusyIn(s.workers) - {w} == BusyIn(s.workers);
    case Stop(w) => StopKeepsBusy(s, w);
    case Recheck(w) => RecheckCountsBusy(s, w);
    case EndRun(w) =>
      var was := s.workers[w];
      WorkerChanged(s.workers, w, was.(place := Ended(was.place.job)));
      assert BusyIn(s.workers) + {w} == BusyIn(s.workers);
    case SpuriousWakeup(w) => WorkersWoken(s.workers, {w});
    case Remove(_) =>
    case ClearBackLog =>
  }

  lemma CountOut(a: set<nat>, w: nat)
    ensures |a - {w}| == |a| - (if w in a then 1 else 0)
    ensures |a + {w}| == |a - {w}| + 1
  {
    Shrinks(a, w);
    assert a + {w} == (a - {w}) + {w};
  }

  lemma {:induction false} WithoutOrdered(jobs: seq<nat>, job: nat, priority: map<nat, int>)
    requires NonIncreasing(jobs, priority)
    ensures NonIncreasing(Without(jobs, job), priority)
    ensures forall j | j in Without(jobs, job) :: j in jobs
  {
    if jobs != [] {
      WithoutOrdered(jobs[1..], job, priority);
      var rest := Without(jobs[1..], job);
      if jobs[0] != job {
        assert forall k | 0 <= k < |rest| :: PriorityOf(priority, jobs[0]) >= PriorityOf(priority, rest[k]) by {
          forall k | 0 <= k < |rest|
            ensures PriorityOf(priority, jobs[0]) >= PriorityOf(priority, rest[k])
          {
            assert rest[k] in jobs[1..];
            var i :| 1 <= i < |jobs| && jobs[i] == rest[k];
          }
        }
      }
    }
  }

  /** The sort compares priorities as unsigned numbers: its result has the highest priority first
      exactly when the priorities sorted do not mix negative and non-negative ones. */
  lemma SortOrdersExactlyWhen(order: seq<nat>, priority: map<nat, int>)
    requires SortedUnsigned(order, priority) && (forall j | j in priority :: IsInt32(priority[j]))
    ensures NonIncreasing(order, priority) <==>
              !(exists i, k :: 0 <= i < |order| && 0 <= k < |order|
                               && PriorityOf(priority, order[i]) < 0 && PriorityOf(priority, order[k]) >= 0)
  {
    forall i, k | 0 <= i < |order| && 0 <= k < |order|
                  && PriorityOf(priority, order[i]) < 0 && PriorityOf(priority, order[k]) >= 0
      ensures i < k
    {
      assert Unsigned(PriorityOf(priority, order[i])) > Unsigned(PriorityOf(priority, order[k]));
    }
  }

  /** `start` is about to sort a queue that has negative priorities at its back and others in front. */
  predicate Missorts(jobs: seq<nat>, priority: map<nat, int>, p: int) {
    jobs != []
    && PriorityOf(priority, jobs[|jobs| - 1]) < p <= PriorityOf(priority, jobs[0])
    && PriorityOf(priority, jobs[|jobs| - 1]) < 0 <= PriorityOf(priority, jobs[0])
  }

  lemma SameMembers(order: seq<nat>, jobs: seq<nat>, job: nat)
    requires multiset(order) == multiset(jobs + [job])
    ensures forall j :: j in order <==> j in jobs || j == job
  {
    assert forall j :: j in order <==> j in multiset(order);
    assert forall j :: j in jobs + [job] <==> j in multiset(jobs + [job]);
  }

  /** Where std::sort runs, the outcome is ordered exactly when the two ends have the same sign. */
  lemma SortedExactlyWhen(jobs: seq<nat>, job: nat, priority: map<nat, int>, order: seq<nat>)
    requires jobs != [] && NonIncreasing(jobs, priority) && (forall j | j in priority :: IsInt32(priority[j]))
    requires PriorityOf(priority, jobs[|jobs| - 1]) < PriorityOf(priority, job) <= PriorityOf(priority, jobs[0])
    requires multiset(order) == multiset(jobs + [job]) && SortedUnsigned(order, priority)
    ensures NonIncreasing(order, priority) <==>
              !(PriorityOf(priority, jobs[|jobs| - 1]) < 0 <= PriorityOf(priority, jobs[0]))
  {
    SortOrdersExactlyWhen(order, priority);
    SameMembers(order, jobs, job);
    hide SortedUnsigned, NonIncreasing;
    var back, front := jobs[|jobs| - 1], jobs[0];
    if PriorityOf(priority, back) < 0 <= PriorityOf(priority, front) {
      assert back in order && front in order;
      var i :| 0 <= i < |order| && order[i] == back;
      var k :| 0 <= k < |order| && order[k] == front;
    } else {
      forall i | 0 <= i < |order|
        ensures PriorityOf(priority, back) <= PriorityOf(priority, order[i]) <= PriorityOf(priority, front)
      {
        assert order[i] in order;
        Between(jobs, priority, order[i], job);
      }
    }
  }

  lemma Between(jobs: seq<nat>, priority: map<nat, int>, j: nat, job: nat)
    requires jobs != [] && NonIncreasing(jobs, priority) && (j in jobs || j == job)
    requires PriorityOf(priority, jobs[|jobs| - 1]) < PriorityOf(priority, job) <= PriorityOf(priority, jobs[0])
    ensures PriorityOf(priority, jobs[|jobs| - 1]) <= PriorityOf(priority, j) <= PriorityOf(priority, jobs[0])
  {
    if j in jobs {
      var k :| 0 <= k < |jobs| && jobs[k] == j;
    }
  }

  /** The queue `start` leaves is ordered exactly when it does not missort. */
  lemma InsertedOrderedExactlyWhen(jobs: seq<nat>, job: nat, priority: map<nat, int>, order: seq<nat>)
    requires NonIncreasing(jobs, priority) && Inserted(jobs, job, priority, order)
    requires forall j | j in priority :: IsInt32(priority[j])
    ensures NonIncreasing(order, priority) <==> !Missorts(jobs, priority, PriorityOf(priority, job))
  {
    if jobs == [] {
    } else if PriorityOf(priority, jobs[|jobs| - 1]) >= PriorityOf(priority, job) {
      assert forall i | 0 <= i < |jobs| :: PriorityOf(priority, jobs[i]) >= PriorityOf(priority, jobs[|jobs| - 1]);
    } else if PriorityOf(priority, jobs[0]) < PriorityOf(priority, job) {
      assert forall i | 0 <= i < |jobs| :: PriorityOf(priority, jobs[0]) >= PriorityOf(priority, jobs[i]);
    } else {
      SortedExactlyWhen(jobs, job, priority, order);
    }
  }

  /** A priority map that differs only outside a queue orders it the same way. */
  lemma SameOrder(jobs: seq<nat>, priority: map<nat, int>, priority': map<nat, int>)
    requires forall j | j in jobs :: PriorityOf(priority, j) == PriorityOf(priority', j)
    ensures NonIncreasing(jobs, priority) <==> NonIncreasing(jobs, priority')
    ensures forall p :: Missorts(jobs, priority, p) <==> Missorts(jobs, priority', p)
  {
  }

  lemma PrioritiesKept(s: State, a: Step)
    requires Enabled(s, a) && (forall j | j in s.priority :: IsInt32(s.priority[j]))
    ensures forall j | j in Next(s, a).priority :: IsInt32(Next(s, a).priority[j])
  {
  }

  lemma StartOrdersExactlyWhen(s: State, a: Step)
    requires a.Start? && Enabled(s, a) && Inv(s) && NonIncreasing(s.jobs, s.priority)
    ensures NonIncreasing(Next(s, a).jobs, Next(s, a).priority) <==> !Missorts(s.jobs, s.priority, a.priority)
  {
    var priority := s.priority[a.job := a.priority];
    assert forall j | j in s.jobs :: PriorityOf(priority, j) == PriorityOf(s.priority, j) by { QueuedHavePriority(s); }
    assert forall j | j in priority :: IsInt32(priority[j]);
    assert Next(s, a).jobs == a.order && Next(s, a).priority == priority;
    hide Inv, NotifiesOne, NonIncreasing, Inserted, Missorts, Next;
    SameOrder(s.jobs, s.priority, priority);
    InsertedOrderedExactlyWhen(s.jobs, a.job, priority, a.order);
  }

  lemma QueuedHavePriority(s: State)
    requires Inv(s)
    ensures forall j | j in s.jobs :: j in s.priority
  {
  }

  /** The highest priority stays first in every step but a start that missorts, and never in that. */
  lemma OrderPreservedExactlyWhen(s: State, a: Step)
    requires Enabled(s, a) && Inv(s) && NonIncreasing(s.jobs, s.priority)
    ensures NonIncreasing(Next(s, a).jobs, Next(s, a).priority) <==> !(a.Start? && Missorts(s.jobs, s.priority, a.priority))
  {
    if a.Start? {
      StartOrdersExactlyWhen(s, a);
    } else if a.Remove? {
      WithoutOrdered(s.jobs, a.job, s.priority);
    } else {
      OtherStepsKeepOrder(s, a);
    }
  }

  lemma OtherStepsKeepOrder(s: State, a: Step)
    requires Enabled(s, a) && !a.Start? && !a.Remove? && NonIncreasing(s.jobs, s.priority)
    ensures NonIncreasing(Next(s, a).jobs, Next(s, a).priority)
  {
  }

  lemma StepKeepsInv(s: State, a: Step)
    requires Enabled(s, a) && Inv(s)
    ensures Inv(Next(s, a))
  {
    WakeupPreserved(s, a);
    JobsPreserved(s, a);
    BusyPreserved(s, a);
    PrioritiesKept(s, a);
    hide WakeupInv, JobInv, Enabled, BusyIn;
  }

  // ---- All runs ----

  /** A run of the pool from the beginning, in any interleaving. */
  ghost predicate IsRun(states: seq<State>, steps: seq<Step>) {
    && |states| == |steps| + 1 && states[0] == Init()
    && forall i | 0 <= i < |steps| :: Enabled(states[i], steps[i]) && states[i + 1] == Next(states[i], steps[i])
  }

  lemma {:induction false} RunKeepsInv(states: seq<State>, steps: seq<Step>, i: nat)
    requires IsRun(states, steps) && i < |states|
    ensures Inv(states[i])
  {
    hide Inv, Enabled;
    if i == 0 {
      InitInv();
    } else {
      RunKeepsInv(states, steps, i - 1);
      StepKeepsInv(states[i - 1], steps[i - 1]);
    }
  }

  /** No wakeup is lost: in every reachable state with a job queued and a worker asleep, some worker
      that will not just leave is about to look at the queue. */
  lemma NoLostWakeup(states: seq<State>, steps: seq<Step>, i: nat)
    requires IsRun(states, steps) && i < |states|
    requires states[i].jobs != [] && AsleepIn(states[i].workers) != {}
    ensures exists w :: w in states[i].workers && Rechecks(states[i].workers[w]) && Enabled(states[i], Recheck(w))
  {
    RunKeepsInv(states, steps, i);
    var s := states[i];
    assert RecheckingIn(s.workers) != {};
    var w :| w in RecheckingIn(s.workers);
    assert Enabled(s, Recheck(w));
  }

  /** Every job started is at all times in exactly one of four places, and has been run at most once. */
  lemma OnePlaceEach(states: seq<State>, steps: seq<Step>, i: nat, j: nat)
    requires IsRun(states, steps) && i < |states| && j in states[i].priority
    ensures var s := states[i];
            var places := multiset{j in s.jobs, j in RunningIn(s.workers), j in s.state && s.state[j] == Finished, j in s.removed};
            places[true] == 1
    ensures j in states[i].runs && states[i].runs[j] <= 1
  {
    RunKeepsInv(states, steps, i);
  }

  /** No start of the run so far has missorted. */
  ghost predicate NeverMissorts(states: seq<State>, steps: seq<Step>, i: nat)
    requires |states| == |steps| + 1 && i <= |steps|
  {
    forall k | 0 <= k < i && steps[k].Start? :: !Missorts(states[k].jobs, states[k].priority, steps[k].priority)
  }

  /** The queue has been ordered throughout exactly when no start has missorted. */
  lemma {:induction false} RunOrderedExactlyWhen(states: seq<State>, steps: seq<Step>, i: nat)
    requires IsRun(states, steps) && i < |states|
    ensures (forall k | 0 <= k <= i :: NonIncreasing(states[k].jobs, states[k].priority)) <==> NeverMissorts(states, steps, i)
  {
    hide Inv, Enabled, Next, NonIncreasing, Missorts;
    if i == 0 {
      NothingIsOrdered();
    } else {
      RunOrderedExactlyWhen(states, steps, i - 1);
      RunKeepsInv(states, steps, i - 1);
      if NonIncreasing(states[i - 1].jobs, states[i - 1].priority) {
        OrderPreservedExactlyWhen(states[i - 1], steps[i - 1]);
        assert states[i] == Next(states[i - 1], steps[i - 1]);
      } else {
        assert !NeverMissorts(states, steps, i - 1);
      }
    }
  }

  lemma NothingIsOrdered()
    ensures NonIncreasing(Init().jobs, Init().priority)
  {
  }

  /** Unless a start before it has missorted, a pop takes a job of the highest priority queued. */
  lemma TakesMaximum(states: seq<State>, steps: seq<Step>, i: nat, w: nat)
    requires IsRun(states, steps) && i < |steps| && steps[i] == Recheck(w) && NeverMissorts(states, steps, i)
    requires states[i + 1].workers[w].place.Running?
    ensures var job := states[i + 1].workers[w].place.job;
            job in states[i].jobs
            && forall j | j in states[i].jobs :: PriorityOf(states[i].priority, j) <= PriorityOf(states[i].priority, job)
  {
    RunOrderedExactlyWhen(states, steps, i);
    forall j | j in states[i].jobs
      ensures PriorityOf(states[i].priority, j) <= PriorityOf(states[i].priority, states[i].jobs[0])
    {
      var k :| 0 <= k < |states[i].jobs| && states[i].jobs[k] == j;
    }
  }

  /** All priorities given so far are negative, or none is. */
  predicate OneSign(priority: map<nat, int>) {
    (forall j | j in priority :: priority[j] >= 0) || (forall j | j in priority :: priority[j] < 0)
  }

  lemma {:induction false} PrioritiesStay(states: seq<State>, steps: seq<Step>, k: nat, i: nat)
    requires IsRun(states, steps) && k <= i < |states|
    ensures forall j | j in states[k].priority :: j in states[i].priority && states[i].priority[j] == states[k].priority[j]
    decreases i
  {
    if k < i {
      PrioritiesStay(states, steps, k, i - 1);
      assert Enabled(states[i - 1], steps[i - 1]) && states[i] == Next(states[i - 1], steps[i - 1]);
    }
  }

  /** With priorities of one sign no start missorts, so every pop takes the highest priority. */
  lemma OneSignNeverMissorts(states: seq<State>, steps: seq<Step>, i: nat)
    requires IsRun(states, steps) && i < |states| && OneSign(states[i].priority)
    ensures NeverMissorts(states, steps, i)
  {
    forall k | 0 <= k < i && steps[k].Start?
      ensures !Missorts(states[k].jobs, states[k].priority, steps[k].priority)
    {
      PrioritiesStay(states, steps, k, i);
      RunKeepsInv(states, steps, k);
      QueuedHavePriority(states[k]);
    }
  }

  /** A pool without workers in which nothing has happened to the jobs but their start. */
  function Idle(jobs: seq<nat>, priority: map<nat, int>): State {
    State(map[], jobs, 0, priority, map j | j in priority :: NotStarted, {}, map j | j in priority :: 0)
  }

  lemma IdleStarts(jobs: seq<nat>, priority: map<nat, int>, job: nat, p: int, order: seq<nat>)
    requires job !in priority && IsInt32(p) && p != Guaranteed && Inserted(jobs, job, priority[job := p], order)
    ensures Enabled(Idle(jobs, priority), Start(job, p, order, {}))
    ensures Next(Idle(jobs, priority), Start(job, p, order, {})) == Idle(order, priority[job := p])
  {
    hide Inserted;
  }

  function ThreePriorities(n: nat): map<nat, int> {
    var none: map<nat, int> := map[];
    var one := none[0 := -2];
    if n == 0 then none else if n == 1 then one else if n == 2 then one[1 := 5] else one[1 := 5][2 := 3]
  }

  lemma ThreeInserted()
    ensures Inserted([], 0, ThreePriorities(1), [0]) && Inserted([0], 1, ThreePriorities(2), [1, 0])
    ensures Inserted([1, 0], 2, ThreePriorities(3), [0, 1, 2])
    ensures !NonIncreasing([0, 1, 2], ThreePriorities(3))
  {
    var p := ThreePriorities(3);
    assert PriorityOf(p, 0) == -2 && PriorityOf(p, 1) == 5 && PriorityOf(p, 2) == 3;
    hide PriorityOf, ThreePriorities;
    ThirdIsSorted(p);
    assert Inserted([], 0, ThreePriorities(1), [0]) && Inserted([0], 1, ThreePriorities(2), [1, 0]) by { FirstTwoInserted(); }
  }

  lemma FirstTwoInserted()
    ensures Inserted([], 0, ThreePriorities(1), [0]) && Inserted([0], 1, ThreePriorities(2), [1, 0])
  {
  }

  lemma ThirdIsSorted(p: map<nat, int>)
    requires PriorityOf(p, 0) == -2 && PriorityOf(p, 1) == 5 && PriorityOf(p, 2) == 3
    ensures Inserted([1, 0], 2, p, [0, 1, 2]) && !NonIncreasing([0, 1, 2], p)
  {
    hide PriorityOf;
    assert multiset([0, 1, 2]) == multiset([1, 0] + [2]);
    assert [0, 1, 2][0] == 0 && [0, 1, 2][1] == 1;
  }

  lemma ThreeSteps(s: State, t: State, u: State, v: State, a: Step, b: Step, c: Step)
    requires s == Init() && Enabled(s, a) && t == Next(s, a)
    requires Enabled(t, b) && u == Next(t, b) && Enabled(u, c) && v == Next(u, c)
    ensures IsRun([s, t, u, v], [a, b, c])
  {
    hide Enabled, Next, Init;
  }

  /** Starting jobs of priorities -2, 5 and 3 leaves the queue -2, 5, 3: a worker takes -2 first. */
  lemma MixedSignsMissort() returns (states: seq<State>, steps: seq<Step>)
    ensures IsRun(states, steps) && |steps| == 3
    ensures states[3] == Idle([0, 1, 2], ThreePriorities(3))
    ensures !NonIncreasing(states[3].jobs, states[3].priority)
  {
    assert Init() == Idle([], ThreePriorities(0));
    ThreeInserted();
    hide Inserted, Enabled, Next, IsRun, NonIncreasing;
    IdleStarts([], ThreePriorities(0), 0, -2, [0]);
    IdleStarts([0], ThreePriorities(1), 1, 5, [1, 0]);
    IdleStarts([1, 0], ThreePriorities(2), 2, 3, [0, 1, 2]);
    states := [Idle([], ThreePriorities(0)), Idle([0], ThreePriorities(1)),
               Idle([1, 0], ThreePriorities(2)), Idle([0, 1, 2], ThreePriorities(3))];
    steps := [Start(0, -2, [0], {}), Start(1, 5, [1, 0], {}), Start(2, 3, [0, 1, 2], {})];
    ThreeSteps(states[0], states[1], states[2], states[3], steps[0], steps[1], steps[2]);
  }

  /** Job::State only moves forward. */
  lemma StateMovesForward(s: State, a: Step, j: nat)
    requires Enabled(s, a) && Inv(s) && j in s.state && s.state[j] != Next(s, a).state[j]
    ensures (s.state[j] == NotStarted && Next(s, a).state[j] == InProgress && a.Recheck?)
         || (s.state[j] == InProgress && Next(s, a).state[j] == Finished && a.EndRun?)
  {
    if a.EndRun? {
      assert s.workers[a.worker].place.job in RunningIn(s.workers);
    }
  }
}
