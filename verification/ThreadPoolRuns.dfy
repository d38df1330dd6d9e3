/**
 What becomes of jobs and workers over whole runs of the thread pool (rct/ThreadPool.cpp).
 */
module ThreadPoolRuns {
  import opened Common
  import opened ThreadPool

  /** A worker that has not been stopped looks at the queue and finds `job` in front. */
  ghost predicate Takes(s: State, a: Step, job: nat) {
    a.Recheck? && a.worker in s.workers && !s.workers[a.worker].stopped && s.jobs != [] && s.jobs[0] == job
  }

  /** What takes `job` out of the queue. */
  ghost predicate Withdraws(s: State, a: Step, job: nat) {
    a == ClearBackLog || a == Remove(job) || Takes(s, a, job)
  }

  /** `after` is `before` without one `job`, the others in their order. */
  ghost predicate OneLeft(before: seq<nat>, after: seq<nat>, job: nat) {
    exists i :: 0 <= i < |before| && before[i] == job && after == before[..i] + before[i + 1..]
  }

  lemma LeftBehind(first: nat, before: seq<nat>, after: seq<nat>, job: nat)
    requires OneLeft(before, after, job)
    ensures OneLeft([first] + before, [first] + after, job)
  {
    var i :| 0 <= i < |before| && before[i] == job && after == before[..i] + before[i + 1..];
    var b := [first] + before;
    assert b[..i + 1] == [first] + before[..i] && b[i + 1 + 1..] == before[i + 1..] && b[i + 1] == job;
    Assoc([first], before[..i], before[i + 1..]);
  }

  lemma {:induction false} WithoutKeeps(jobs: seq<nat>, job: nat)
    requires job in jobs
    ensures OneLeft(jobs, Without(jobs, job), job)
  {
    if jobs[0] == job {
      assert Without(jobs, job) == jobs[..0] + jobs[0 + 1..];
    } else {
      WithoutKeeps(jobs[1..], job);
      LeftBehind(jobs[0], jobs[1..], Without(jobs[1..], job), job);
      assert jobs == [jobs[0]] + jobs[1..];
    }
  }

  /** remove takes exactly its job out of the queue and leaves the others in their order. */
  lemma RemoveTakesOne(s: State, job: nat)
    ensures job !in s.jobs ==> Next(s, Remove(job)) == s
    ensures job in s.jobs ==> OneLeft(s.jobs, Next(s, Remove(job)).jobs, job)
  {
    if job in s.jobs {
      WithoutKeeps(s.jobs, job);
    }
  }

  lemma OnlyOnce(jobs: seq<nat>, after: seq<nat>, job: nat)
    requires QueuedOnce(jobs) && OneLeft(jobs, after, job)
    ensures job in jobs && job !in after && forall j :: j in jobs <==> j == job || j in after
  {
    var i :| 0 <= i < |jobs| && jobs[i] == job && after == jobs[..i] + jobs[i + 1..];
    assert jobs == jobs[..i] + [job] + jobs[i + 1..];
    assert multiset(jobs) == multiset(after) + multiset{job};
    assert jobs[i] in jobs;
    InQueue(jobs);
    InQueue(after);
  }

  lemma StartQueues(s: State, a: Step)
    requires a.Start? && Enabled(s, a)
    ensures forall j :: j in Next(s, a).jobs <==> j in s.jobs || j == a.job
  {
    hide NotifiesOne, Wake, AsleepIn, SortedUnsigned;
    assert s.jobs != [] ==> multiset([a.job] + s.jobs) == multiset(s.jobs + [a.job]);
    assert s.jobs == [] ==> s.jobs + [a.job] == [a.job];
    assert multiset(a.order) == multiset(s.jobs + [a.job]);
    SameMembers(a.order, s.jobs, a.job);
  }

  lemma RemoveDequeues(s: State, job: nat)
    requires QueuedOnce(s.jobs)
    ensures forall j :: j in Next(s, Remove(job)).jobs <==> j in s.jobs && j != job
  {
    RemoveTakesOne(s, job);
    if job in s.jobs {
      OnlyOnce(s.jobs, Next(s, Remove(job)).jobs, job);
    }
  }

  lemma TakingDequeues(s: State, w: nat)
    requires QueuedOnce(s.jobs) && Enabled(s, Recheck(w))
    ensures forall j :: j in Next(s, Recheck(w)).jobs <==> j in s.jobs && !Takes(s, Recheck(w), j)
  {
    if s.jobs != [] {
      assert s.jobs[..0] + s.jobs[0 + 1..] == s.jobs[1..];
      OnlyOnce(s.jobs, s.jobs[1..], s.jobs[0]);
    }
    hide QueuedOnce;
  }

  /** A job once started stays queued exactly until something takes it out. */
  lemma StillQueued(s: State, a: Step, job: nat)
    requires Inv(s) && Enabled(s, a) && job in s.priority
    ensures job in Next(s, a).priority
    ensures job in Next(s, a).jobs <==> job in s.jobs && !Withdraws(s, a, job)
  {
    match a
    case Start(_, _, _, _) => StartQueues(s, a);
    case Remove(j) => RemoveDequeues(s, j);
    case Recheck(w) => TakingDequeues(s, w);
    case _ =>
    hide NotifiesOne, Wake, AsleepIn, SortedUnsigned, QueuedOnce, Inserted;
  }

  lemma OneStep(states: seq<State>, steps: seq<Step>, k: nat)
    requires IsRun(states, steps) && k + 1 < |states|
    ensures k < |steps| && Enabled(states[k], steps[k]) && states[k + 1] == Next(states[k], steps[k]) && Inv(states[k])
  {
    RunKeepsInv(states, steps, k);
  }

  lemma StartedIsQueued(s: State, a: Step)
    requires a.Start? && Enabled(s, a)
    ensures a.job in Next(s, a).jobs && a.job in Next(s, a).priority
    ensures a.job in Next(s, a).runs && Next(s, a).runs[a.job] == 0
  {
    StartQueues(s, a);
  }

  /** Whatever the run, a job is queued from its start on until clearBackLog, its remove or a worker
      takes it out, and never again. */
  lemma {:induction false} QueuedExactlyWhen(states: seq<State>, steps: seq<Step>, i: nat, k: nat, job: nat)
    requires IsRun(states, steps) && i < k < |states| && steps[i].Start? && steps[i].job == job
    ensures job in states[k].priority
    ensures job in states[k].jobs <==> forall m | i < m < k :: !Withdraws(states[m], steps[m], job)
    decreases k
  {
    hide Inv, Withdraws, IsRun, Enabled, Next;
    OneStep(states, steps, k - 1);
    if k == i + 1 {
      StartedIsQueued(states[i], steps[i]);
    } else {
      QueuedExactlyWhen(states, steps, i, k - 1, job);
      StillQueued(states[k - 1], steps[k - 1], job);
    }
  }

  lemma RunsStep(s: State, a: Step, job: nat)
    requires Enabled(s, a) && job in s.priority && job in s.runs
    ensures job in Next(s, a).runs
    ensures Next(s, a).runs[job] == s.runs[job] + (if Takes(s, a, job) then 1 else 0)
  {
    hide NotifiesOne, Wake, AsleepIn, Inserted;
  }

  /** A job has been run exactly when a worker has taken it. */
  lemma {:induction false} RunExactlyWhen(states: seq<State>, steps: seq<Step>, i: nat, k: nat, job: nat)
    requires IsRun(states, steps) && i < k < |states| && steps[i].Start? && steps[i].job == job
    ensures job in states[k].priority && job in states[k].runs
    ensures states[k].runs[job] == 0 || states[k].runs[job] == 1
    ensures states[k].runs[job] == 1 <==> exists m :: i < m < k && Takes(states[m], steps[m], job)
    decreases k
  {
    hide Inv, Takes, Withdraws, IsRun, Enabled, Next;
    OneStep(states, steps, k - 1);
    if k == i + 1 {
      StartedIsQueued(states[i], steps[i]);
    } else {
      RunKeepsInv(states, steps, k);
      RunExactlyWhen(states, steps, i, k - 1, job);
      StillQueued(states[k - 1], steps[k - 1], job);
      AtMostOnce(states[k], job);
      RunsStep(states[k - 1], steps[k - 1], job);
    }
  }

  lemma AtMostOnce(s: State, job: nat)
    requires Inv(s) && job in s.priority
    ensures job in s.runs && s.runs[job] <= 1 && (job in s.jobs ==> s.runs[job] == 0)
  {
  }

  /** clearBackLog leaves an empty queue, and neither a job it drops nor one that remove takes out is
      ever run or queued again. */
  lemma {:induction false} WithdrawnNeverRuns(states: seq<State>, steps: seq<Step>, c: nat, k: nat, job: nat)
    requires IsRun(states, steps) && c < k < |states| && job in states[c].jobs
    requires steps[c] == ClearBackLog || steps[c] == Remove(job)
    ensures steps[c] == ClearBackLog ==> states[c + 1].jobs == []
    ensures job in states[k].priority && job !in states[k].jobs && job in states[k].runs && states[k].runs[job] == 0
    decreases k
  {
    hide Inv, IsRun, Enabled, Next;
    OneStep(states, steps, k - 1);
    if k == c + 1 {
      QueuedHavePriority(states[c]);
      AtMostOnce(states[c], job);
      assert steps[c] == ClearBackLog ==> states[c + 1].jobs == [] by { ClearEmpties(states[c]); }
    } else {
      WithdrawnNeverRuns(states, steps, c, k - 1, job);
    }
    StillQueued(states[k - 1], steps[k - 1], job);
    RunsStep(states[k - 1], steps[k - 1], job);
  }

  lemma ClearEmpties(s: State)
    ensures Enabled(s, ClearBackLog) && Next(s, ClearBackLog).jobs == []
  {
  }

  /** A job as important as everything queued waits behind it. */
  lemma EqualsQueueUp(s: State, a: Step)
    requires a.Start? && Enabled(s, a) && Inv(s) && forall j | j in s.jobs :: s.priority[j] == a.priority
    ensures Next(s, a).jobs == s.jobs + [a.job]
  {
    QueuedHavePriority(s);
    hide NotifiesOne, Wake, AsleepIn, Inv;
    if s.jobs != [] {
      assert s.jobs[|s.jobs| - 1] in s.jobs;
    }
  }

  // ---- Steps that are always possible ----

  /** The cast of a 32-bit priority to unsigned. */
  lemma UnsignedMeans(p: int)
    requires IsInt32(p)
    ensures Unsigned(p) == if p < 0 then p + 0x1_0000_0000 else p
  {
  }

  lemma SortedAround(a: seq<nat>, b: seq<nat>, job: nat, priority: map<nat, int>)
    requires SortedUnsigned(a + b, priority)
    requires forall i | 0 <= i < |a| :: Unsigned(PriorityOf(priority, a[i])) >= Unsigned(PriorityOf(priority, job))
    requires b != [] ==> Unsigned(PriorityOf(priority, b[0])) <= Unsigned(PriorityOf(priority, job))
    ensures SortedUnsigned(a + [job] + b, priority)
  {
    hide PriorityOf, Unsigned;
    var s, t := a + b, a + [job] + b;
    forall i, k | 0 <= i < k < |t|
      ensures Unsigned(PriorityOf(priority, t[i])) >= Unsigned(PriorityOf(priority, t[k]))
    {
      assert i != |a| ==> t[i] == s[if i < |a| then i else i - 1];
      assert k != |a| ==> t[k] == s[if k < |a| then k else k - 1];
      assert k > |a| == i ==> s[|a|] == b[0];
    }
  }

  lemma InsertSorted(order: seq<nat>, job: nat, priority: map<nat, int>) returns (order': seq<nat>)
    requires SortedUnsigned(order, priority)
    ensures multiset(order') == multiset(order + [job]) && SortedUnsigned(order', priority)
  {
    hide PriorityOf, Unsigned, SortedUnsigned;
    var k := 0;
    while k < |order| && Unsigned(PriorityOf(priority, order[k])) >= Unsigned(PriorityOf(priority, job))
      invariant k <= |order|
      invariant forall i | 0 <= i < k :: Unsigned(PriorityOf(priority, order[i])) >= Unsigned(PriorityOf(priority, job))
    {
      k := k + 1;
    }
    assert order == order[..k] + order[k..];
    SortedAround(order[..k], order[k..], job, priority);
    order' := order[..k] + [job] + order[k..];
  }

  lemma {:induction false} CanBeSorted(jobs: seq<nat>, priority: map<nat, int>) returns (order: seq<nat>)
    ensures multiset(order) == multiset(jobs) && SortedUnsigned(order, priority)
  {
    hide PriorityOf, Unsigned;
    order := [];
    if jobs != [] {
      var job := jobs[|jobs| - 1];
      var before := CanBeSorted(jobs[..|jobs| - 1], priority);
      order := InsertSorted(before, job, priority);
      hide SortedUnsigned;
      assert jobs == jobs[..|jobs| - 1] + [job];
    }
  }

  /** Any new job can be started at any time. */
  lemma StartIsPossible(s: State, job: nat, p: int) returns (a: Step)
    requires job !in s.priority && IsInt32(p) && p != Guaranteed
    ensures a.Start? && a.job == job && a.priority == p && Enabled(s, a)
  {
    var priority := s.priority[job := p];
    var notified: set<nat> := {};
    if AsleepIn(s.workers) != {} {
      var w :| w in AsleepIn(s.workers);
      notified := {w};
    }
    var order: seq<nat>;
    if s.jobs == [] {
      order := [job];
    } else if PriorityOf(priority, s.jobs[|s.jobs| - 1]) >= PriorityOf(priority, job) {
      order := s.jobs + [job];
    } else if PriorityOf(priority, s.jobs[0]) < PriorityOf(priority, job) {
      order := [job] + s.jobs;
    } else {
      order := CanBeSorted(s.jobs + [job], priority);
    }
    a := Start(job, p, order, notified);
    hide SortedUnsigned, PriorityOf, AsleepIn;
  }

  /** A worker asleep can wake without cause, and looks at the queue then. */
  lemma WakesWithoutCause(s: State, w: nat)
    requires w in s.workers && s.workers[w].place.Asleep?
    ensures Enabled(s, SpuriousWakeup(w)) && Enabled(Next(s, SpuriousWakeup(w)), Recheck(w))
  {
    hide Inserted, NotifiesOne;
  }

  // ---- Workers ----

  lemma WorkerStep(s: State, a: Step, w: nat)
    requires Enabled(s, a) && w in s.workers
    ensures var x, x' := s.workers[w], Next(s, a).workers[w];
            && w in Next(s, a).workers
            && (x'.stopped <==> x.stopped || a == Stop(w))
            && (x.stopped && x'.place.Running? ==> x'.place == x.place)
            && (!x.stopped && !x.place.Exited? ==> !x'.place.Exited?)
  {
    hide Inserted, NotifiesOne;
  }

  /** A stopped worker may end the job it is running and takes no further one. */
  lemma {:induction false} StoppedTakesNothing(states: seq<State>, steps: seq<Step>, i: nat, k: nat, w: nat)
    requires IsRun(states, steps) && i < k < |states| && steps[i] == Stop(w)
    ensures w in states[i].workers && w in states[k].workers && states[k].workers[w].stopped
    ensures states[k].workers[w].place.Running? ==> states[k].workers[w].place == states[i].workers[w].place
    decreases k
  {
    hide Inv, IsRun, Enabled, Next;
    OneStep(states, steps, k - 1);
    if k == i + 1 {
      StopStops(states[i], w);
    } else {
      StoppedTakesNothing(states, steps, i, k - 1, w);
    }
    WorkerStep(states[k - 1], steps[k - 1], w);
  }

  lemma StopStops(s: State, w: nat)
    requires Enabled(s, Stop(w))
    ensures w in s.workers
    ensures Next(s, Stop(w)).workers[w].place.Running? ==> Next(s, Stop(w)).workers[w].place == s.workers[w].place
  {
  }

  /** A worker added serves until it is stopped. */
  lemma {:induction false} ServesUntilStopped(states: seq<State>, steps: seq<Step>, i: nat, k: nat, w: nat)
    requires IsRun(states, steps) && i < k < |states| && steps[i] == AddWorker(w)
    requires forall m | i < m < k :: steps[m] != Stop(w)
    ensures w in states[k].workers && !states[k].workers[w].stopped && !states[k].workers[w].place.Exited?
    decreases k
  {
    hide Inv, IsRun, Enabled, Next;
    OneStep(states, steps, k - 1);
    if k == i + 1 {
      AddedServes(states[i], w);
    } else {
      ServesUntilStopped(states, steps, i, k - 1, w);
      WorkerStep(states[k - 1], steps[k - 1], w);
    }
  }

  lemma AddedServes(s: State, w: nat)
    requires Enabled(s, AddWorker(w))
    ensures var s' := Next(s, AddWorker(w));
            w in s'.workers && !s'.workers[w].stopped && !s'.workers[w].place.Exited? && !s'.workers[w].place.Asleep?
  {
  }

  /** A worker that serves and is awake takes the first job queued, once it is done with the job it runs. */
  lemma HeadIsTaken(s: State, w: nat) returns (ready: State)
    requires w in s.workers && !s.workers[w].stopped && s.jobs != []
    requires !s.workers[w].place.Asleep? && !s.workers[w].place.Exited?
    ensures if s.workers[w].place.Running? then Enabled(s, EndRun(w)) && ready == Next(s, EndRun(w)) else ready == s
    ensures Enabled(ready, Recheck(w)) && Next(ready, Recheck(w)).workers[w].place == Running(s.jobs[0])
    ensures s.workers[w].place.Running? ==>
              var job := s.workers[w].place.job; job in ready.state && ready.state[job] == Finished
  {
    ready := if s.workers[w].place.Running? then Next(s, EndRun(w)) else s;
  }
}
