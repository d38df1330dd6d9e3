/**
 ReadWriteLock (rct/ReadWriteLock.cpp) as a state machine over its mutex-protected regions.
 */
module RwLock {

  datatype LockType = Read | Write

  /** Where a thread stands.  The source looks at no thread's identity: one that asks for the lock
      again while it holds it, or hands its lock on, stands for several here. */
  datatype Place =
    | Outside
    | Asleep(want: LockType)     // in wait or wait_for, not notified
    | Woken(want: LockType)      // notified, or woken without cause, about to recheck
    | Expired(want: LockType)    // its wait_for has timed out, about to return false
    | Holding(kind: LockType)

  datatype State = State(threads: map<nat, Place>, count: int, write: bool)

  datatype Step =
    | Lock(thread: nat, want: LockType)     // first pass through lock
    | Recheck(thread: nat)                  // a woken thread back in the wait loop
    | TryLock(thread: nat, want: LockType)
    | Unlock(thread: nat)
    | SpuriousWakeup(thread: nat)
    | TimeOut(thread: nat)                  // notified or not, wait_for reports a timeout
    | GiveUp(thread: nat)

  /** The condition of the wait loop. */
  predicate MustWait(s: State, want: LockType) {
    if want == Read then s.write else s.count != 0
  }

  /** Taking the lock once the wait loop is left. */
  function Take(s: State, t: nat, want: LockType): State {
    if want == Read then s.(count := s.count + 1, threads := s.threads[t := Holding(Read)])
    else s.(count := 1, write := true, threads := s.threads[t := Holding(Write)])
  }

  function WakeAll(threads: map<nat, Place>): map<nat, Place> {
    map t | t in threads :: if threads[t].Asleep? then Woken(threads[t].want) else threads[t]
  }

  predicate Enabled(s: State, a: Step) {
    a.thread in s.threads &&
    match a
    case Lock(t, _) => s.threads[t] == Outside
    case TryLock(t, _) => s.threads[t] == Outside
    case Recheck(t) => s.threads[t].Woken?
    case Unlock(t) => s.threads[t].Holding?
    case SpuriousWakeup(t) => s.threads[t].Asleep?
    case TimeOut(t) => s.threads[t].Asleep? || s.threads[t].Woken?
    case GiveUp(t) => s.threads[t].Expired?
  }

  function Next(s: State, a: Step): State
    requires Enabled(s, a)
  {
    match a
    case Lock(t, want) =>
      if MustWait(s, want) then s.(threads := s.threads[t := Asleep(want)]) else Take(s, t, want)
    case Recheck(t) =>
      var want := s.threads[t].want;
      if MustWait(s, want) then s.(threads := s.threads[t := Asleep(want)]) else Take(s, t, want)
    case TryLock(t, want) =>
      if want == Read then (if s.write then s else Take(s, t, Read))
      else if s.count > 0 then s
      else Take(s, t, Write)
    case Unlock(t) =>
      var threads := s.threads[t := Outside];
      if s.count > 1 then s.(count := s.count - 1, threads := threads)
      else s.(count := s.count - 1, write := false, threads := WakeAll(threads))
    case SpuriousWakeup(t) => s.(threads := s.threads[t := Woken(s.threads[t].want)])
    case TimeOut(t) => s.(threads := s.threads[t := Expired(s.threads[t].want)])
    case GiveUp(t) => s.(threads := s.threads[t := Outside])
  }

  /** The assertions the source makes in a step. */
  predicate AssertionsHold(s: State, a: Step)
    requires Enabled(s, a)
  {
    match a
    case Lock(_, Write) => !MustWait(s, Write) ==> !s.write
    case Recheck(t) => s.threads[t].want == Write && !MustWait(s, Write) ==> !s.write
    case TryLock(_, Write) => s.count > 0 || (!s.write && s.count == 0)
    case Unlock(_) => s.count > 0 && (s.count > 1 ==> !s.write)
    case _ => true
  }

  function Init(threads: set<nat>): State { State(map t | t in threads :: Outside, 0, false) }

  function Holders(threads: map<nat, Place>): set<nat> {
    set t | t in threads && threads[t].Holding?
  }

  ghost predicate Inv(s: State) {
    // the count is the number of holders
    && s.count == |Holders(s.threads)|
    // a writer holds alone
    && (s.write <==> exists t :: t in s.threads && s.threads[t] == Holding(Write))
    && (s.write ==> s.count == 1)
    // whoever sleeps without having been notified has to
    && (forall t | t in s.threads && s.threads[t].Asleep? :: MustWait(s, s.threads[t].want))
  }

  lemma HoldersChanged(threads: map<nat, Place>, t: nat, p: Place)
    requires t in threads
    ensures |Holders(threads[t := p])|
         == |Holders(threads)| - (if threads[t].Holding? then 1 else 0) + (if p.Holding? then 1 else 0)
  {
    var others := Holders(threads) - {t};
    assert threads[t].Holding? ==> Holders(threads) == others + {t};
    assert !threads[t].Holding? ==> Holders(threads) == others;
    assert p.Holding? ==> Holders(threads[t := p]) == others + {t};
    assert !p.Holding? ==> Holders(threads[t := p]) == others;
  }

  lemma HoldersWoken(threads: map<nat, Place>)
    ensures Holders(WakeAll(threads)) == Holders(threads)
  {
  }

  lemma OnlyHolder(threads: map<nat, Place>, t: nat)
    requires t in Holders(threads) && |Holders(threads)| == 1
    ensures Holders(threads) == {t}
  {
    assert |Holders(threads) - {t}| == 0;
  }

  lemma InitInv(threads: set<nat>)
    ensures Inv(Init(threads))
  {
    assert Holders(Init(threads).threads) == {};
  }

  lemma TakeKeepsInv(s: State, t: nat, want: LockType)
    requires Inv(s) && t in s.threads && !s.threads[t].Holding? && !MustWait(s, want)
    ensures Inv(Take(s, t, want))
  {
    var s' := Take(s, t, want);
    HoldersChanged(s.threads, t, Holding(want));
    if want == Write {
      assert s'.threads[t] == Holding(Write);
    }
  }

  lemma UnlockKeepsInv(s: State, t: nat)
    requires Inv(s) && Enabled(s, Unlock(t))
    ensures Inv(Next(s, Unlock(t))) && AssertionsHold(s, Unlock(t))
  {
    var s' := Next(s, Unlock(t));
    assert t in Holders(s.threads);
    HoldersChanged(s.threads, t, Outside);
    HoldersWoken(s.threads[t := Outside]);
    if s.count == 1 {
      OnlyHolder(s.threads, t);
      assert |Holders(s'.threads)| == 0;
      assert forall u | u in s'.threads && s'.threads[u].Holding? :: u in Holders(s'.threads);
    }
  }

  /** Every step keeps the invariant, and no assertion of the source fails. */
  lemma StepKeepsInv(s: State, a: Step)
    requires Inv(s) && Enabled(s, a)
    ensures Inv(Next(s, a)) && AssertionsHold(s, a)
  {
    var t := a.thread;
    if a.Unlock? {
      UnlockKeepsInv(s, t);
    } else if Next(s, a).threads[t].Holding? {
      assert s.count >= 0;
      TakeKeepsInv(s, t, Next(s, a).threads[t].kind);
    } else {
      HoldersChanged(s.threads, t, Next(s, a).threads[t]);
      assert forall u :: u in s.threads && s.threads[u] == Holding(Write)
                    <==> u in Next(s, a).threads && Next(s, a).threads[u] == Holding(Write);
    }
  }

  /** The kind of lock a thread asks for in a step. */
  function Wanted(s: State, a: Step): LockType
    requires Enabled(s, a) && (a.Lock? || a.TryLock? || a.Recheck?)
  {
    match a
    case Lock(_, want) => want
    case TryLock(_, want) => want
    case Recheck(t) => s.threads[t].want
  }

  /** A reader gets the lock exactly when nobody is writing, a writer exactly when nobody holds it;
      otherwise lock goes to sleep, and tryLock leaves everything as it is. */
  lemma TakenExactlyWhen(s: State, a: Step)
    requires Inv(s) && Enabled(s, a) && (a.Lock? || a.TryLock? || a.Recheck?)
    ensures var want := Wanted(s, a);
            Next(s, a).threads[a.thread] == Holding(want) <==>
              forall u | u in s.threads && s.threads[u].Holding? :: want == Read && s.threads[u] == Holding(Read)
    ensures a.TryLock? && !Next(s, a).threads[a.thread].Holding? ==> Next(s, a) == s
    ensures !a.TryLock? && !Next(s, a).threads[a.thread].Holding? ==> Next(s, a).threads[a.thread] == Asleep(Wanted(s, a))
  {
    assert s.count != 0 ==> Holders(s.threads) != {};
    forall u | u in s.threads && s.threads[u].Holding?
      ensures s.count != 0
    {
      assert u in Holders(s.threads);
    }
    assert Holders(s.threads) != {} ==> exists u :: u in s.threads && s.threads[u].Holding?;
  }

  /** unlock and giving up leave the lock alone, and a step of one thread wakes others at most. */
  lemma OthersUndisturbed(s: State, a: Step, u: nat)
    requires Enabled(s, a) && u in s.threads
    ensures u in Next(s, a).threads
    ensures u == a.thread && (a.Unlock? || a.GiveUp?) ==> Next(s, a).threads[u] == Outside
    ensures u != a.thread ==> Next(s, a).threads[u] == s.threads[u]
                              || (s.threads[u].Asleep? && Next(s, a).threads[u] == Woken(s.threads[u].want))
  {
  }

  /** unlock wakes the sleepers exactly when nobody holds the lock any more. */
  lemma WakesExactlyWhen(s: State, t: nat, u: nat)
    requires Inv(s) && Enabled(s, Unlock(t)) && u in s.threads && s.threads[u].Asleep?
    ensures Next(s, Unlock(t)).threads[u].Woken? <==> forall v | v in s.threads && s.threads[v].Holding? :: v == t
  {
    assert t in Holders(s.threads);
    if s.count == 1 {
      OnlyHolder(s.threads, t);
      assert forall v | v in s.threads && s.threads[v].Holding? :: v in Holders(s.threads);
    } else {
      assert |Holders(s.threads) - {t}| > 0;
      assert exists v :: v in Holders(s.threads) - {t};
    }
  }

  /** A thread that waits can look again at any time, and can give up at any time. */
  lemma WaitsCanEnd(s: State, t: nat)
    requires t in s.threads && (s.threads[t].Asleep? || s.threads[t].Woken?)
    ensures s.threads[t].Asleep? ==> Enabled(s, SpuriousWakeup(t)) && Enabled(Next(s, SpuriousWakeup(t)), Recheck(t))
    ensures s.threads[t].Woken? ==> Enabled(s, Recheck(t))
    ensures Enabled(s, TimeOut(t)) && Enabled(Next(s, TimeOut(t)), GiveUp(t))
    ensures var s' := Next(Next(s, TimeOut(t)), GiveUp(t)); s' == s.(threads := s.threads[t := Outside])
  {
    assert s.threads[t := Expired(s.threads[t].want)][t := Outside] == s.threads[t := Outside];
  }

  // ---- All runs ----

  ghost predicate IsRun(threads: set<nat>, states: seq<State>, steps: seq<Step>) {
    && |states| == |steps| + 1 && states[0] == Init(threads)
    && forall i | 0 <= i < |steps| :: Enabled(states[i], steps[i]) && states[i + 1] == Next(states[i], steps[i])
  }

  lemma {:induction false} RunKeepsInv(threads: set<nat>, states: seq<State>, steps: seq<Step>, i: nat)
    requires IsRun(threads, states, steps) && i < |states|
    ensures Inv(states[i]) && (i < |steps| ==> AssertionsHold(states[i], steps[i]))
    decreases i
  {
    hide Inv, Enabled, AssertionsHold;
    if i == 0 {
      InitInv(threads);
    } else {
      RunKeepsInv(threads, states, steps, i - 1);
      StepKeepsInv(states[i - 1], steps[i - 1]);
    }
    if i < |steps| {
      StepKeepsInv(states[i], steps[i]);
    }
  }

  /** In every reachable state a writer excludes every other holder. */
  lemma Exclusion(threads: set<nat>, states: seq<State>, steps: seq<Step>, i: nat, t: nat, u: nat)
    requires IsRun(threads, states, steps) && i < |states|
    requires t in states[i].threads && states[i].threads[t] == Holding(Write)
    requires u in states[i].threads && states[i].threads[u].Holding?
    ensures t == u
  {
    RunKeepsInv(threads, states, steps, i);
    assert t in Holders(states[i].threads) && u in Holders(states[i].threads);
    OnlyHolder(states[i].threads, t);
  }

  /** In every reachable state, a thread asleep without a notification under way is kept waiting by
      someone who holds the lock: no wakeup is lost. */
  lemma SleepersHaveHolder(threads: set<nat>, states: seq<State>, steps: seq<Step>, i: nat, t: nat)
    requires IsRun(threads, states, steps) && i < |states|
    requires t in states[i].threads && states[i].threads[t].Asleep?
    ensures exists u :: u in states[i].threads && u != t && states[i].threads[u].Holding?
                        && (states[i].threads[t].want == Read ==> states[i].threads[u] == Holding(Write))
  {
    RunKeepsInv(threads, states, steps, i);
    var s := states[i];
    if s.threads[t].want == Write {
      assert |Holders(s.threads)| != 0;
      var u :| u in Holders(s.threads);
      assert s.threads[u].Holding?;
    }
  }
}
