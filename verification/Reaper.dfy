/**
 Exit delivery for child processes (rct/Process.cpp) as a state machine.  Steps are the regions run
 under sProcessMutex and the events between them; starting threads, the reaper thread and callers
 of removePid interleave freely.  Process ids are not reused and event loops stay alive.
 */
module Reaper {

  /** A child whose exit the reaper has taken out of the table, with the mutex released. */
  datatype Hand = Nobody | Holding(pid: nat, status: int)

  datatype State = State(
    pending: int,                    // sPending
    early: map<nat, int>,            // sPendingPids: exits seen before addPid
    table: map<nat, bool>,           // sProcesses; false once removePid has cleared the entry
    hand: Hand,
    // the rest records what has happened
    starting: nat,                   // starts counted but not yet forked
    inFlight: set<nat>,              // children forked whose start has not been decided
    added: set<nat>,                 // children started successfully
    failed: set<nat>,                // children whose start failed
    exited: map<nat, int>,           // children that have exited, with their status
    reaped: set<nat>,                // exits returned by waitpid
    finishes: map<nat, seq<int>>)    // calls of finish

  datatype Step =
    | BeginStart                     // setPending(1)
    | ForkFails                      // setPending(-1) when fork fails
    | Fork(pid: nat)
    | StartFails(pid: nat)           // setPending(-1) when exec fails
    | AddPid(pid: nat)
    | Exit(pid: nat, status: int)
    | Reap(pid: nat)                 // one turn of the reaper's loop, up to calling finish
    | Finish                         // the reaper calls finish with the mutex released
    | RemovePid(pid: nat)

  function Finishes(s: State, p: nat): seq<int> {
    if p in s.finishes then s.finishes[p] else []
  }

  function Forked(s: State): set<nat> { s.inFlight + s.added + s.failed }

  predicate Enabled(s: State, a: Step) {
    match a
    case BeginStart => true
    case ForkFails => s.starting > 0
    case Fork(p) => s.starting > 0 && p !in Forked(s)
    case StartFails(p) => p in s.inFlight
    case AddPid(p) => p in s.inFlight
    case Exit(p, _) => p in Forked(s) && p !in s.exited
    case Reap(p) => p in s.exited && p !in s.reaped && s.hand == Nobody
    case Finish => s.hand != Nobody
    case RemovePid(_) => true
  }

  function Finished(s: State, p: nat, status: int): map<nat, seq<int>> {
    s.finishes[p := Finishes(s, p) + [status]]
  }

  function Next(s: State, a: Step): State
    requires Enabled(s, a)
  {
    match a
    case BeginStart => s.(pending := s.pending + 1, starting := s.starting + 1)
    case ForkFails => s.(pending := s.pending - 1, starting := s.starting - 1)
    case Fork(p) => s.(starting := s.starting - 1, inFlight := s.inFlight + {p})
    case StartFails(p) => s.(pending := s.pending - 1, inFlight := s.inFlight - {p}, failed := s.failed + {p})
    case AddPid(p) =>
      var s' := s.(pending := s.pending - 1, inFlight := s.inFlight - {p}, added := s.added + {p});
      if p in s.early then
        s'.(finishes := Finished(s, p, s.early[p]), early := if s'.pending == 0 then map[] else s.early - {p})
      else
        s'.(table := s.table[p := true], early := if s'.pending == 0 then map[] else s.early)
    case Exit(p, status) => s.(exited := s.exited[p := status])
    case Reap(p) =>
      var s' := s.(reaped := s.reaped + {p});
      if p in s.table then
        (if s.table[p] then s'.(table := s.table - {p}, hand := Holding(p, s.exited[p])) else s')
      else if s.pending != 0 then s'.(early := s.early[p := s.exited[p]])
      else s'
    case Finish => s.(hand := Nobody, finishes := Finished(s, s.hand.pid, s.hand.status))
    case RemovePid(p) => if p in s.table then s.(table := s.table[p := false]) else s
  }

  function Init(): State { State(0, map[], map[], Nobody, 0, {}, {}, {}, map[], {}, map[]) }

  // ---- The invariant ----

  predicate InHand(s: State, p: nat) { s.hand.Holding? && s.hand.pid == p }

  /** How a successfully started child stands with respect to its finish call. */
  predicate AddedInv(s: State, p: nat) {
    if p in s.table then Finishes(s, p) == [] && !InHand(s, p) && (s.table[p] ==> p !in s.reaped)
    else
      && p in s.exited && p in s.reaped
      && (if InHand(s, p) then Finishes(s, p) == [] && s.hand.status == s.exited[p]
          else Finishes(s, p) == [s.exited[p]])
  }

  /** Until its start is decided nothing is delivered, and an exit already reaped is remembered. */
  predicate UndecidedInv(s: State, p: nat) {
    && Finishes(s, p) == [] && p !in s.table && !InHand(s, p)
    && (p in s.inFlight && p in s.reaped ==> p in s.early)
  }

  /** Everything that holds of one process id. */
  predicate PidInv(s: State, p: nat) {
    && !(p in s.inFlight && p in s.added) && !(p in s.inFlight && p in s.failed) && !(p in s.added && p in s.failed)
    && (p in s.exited ==> p in Forked(s)) && (p in s.reaped ==> p in s.exited)
    && (p in s.early ==> p in s.reaped && p !in s.added && s.early[p] == s.exited[p])
    && (if p in s.added then AddedInv(s, p) else UndecidedInv(s, p))
  }

  predicate Counted(s: State) { s.pending == s.starting + |s.inFlight| }

  ghost predicate Inv(s: State) {
    Counted(s) && forall p :: PidInv(s, p)
  }

  /** The assertions of the source: the count never goes negative, no exit is recorded twice. */
  ghost predicate AssertionsHold(s: State, a: Step)
    requires Enabled(s, a)
  {
    && Next(s, a).pending >= 0
    && (a.Reap? && a.pid !in s.table && s.pending != 0 ==> a.pid !in s.early)
  }

  lemma InitInv()
    ensures Inv(Init())
  {
  }

  /** With a start in flight the count is positive; with only one, nothing else is in flight. */
  lemma CountBounds(s: State, p: nat)
    requires Counted(s)
    ensures p in s.inFlight ==> s.pending >= 1 && |s.inFlight - {p}| == |s.inFlight| - 1
    ensures p in s.inFlight && s.pending == 1 ==> s.inFlight == {p}
    ensures s.pending == 0 ==> s.inFlight == {}
  {
    if p in s.inFlight {
      assert s.inFlight == (s.inFlight - {p}) + {p};
    }
  }

  lemma ForkCounts(s: State, p: nat)
    requires Counted(s) && Enabled(s, Fork(p))
    ensures Counted(Next(s, Fork(p)))
  {
    assert p !in s.inFlight;
  }

  /** A start that has been decided is no longer in flight. */
  lemma DecidedCounts(s: State, a: Step)
    requires Counted(s) && Enabled(s, a) && (a.StartFails? || a.AddPid?)
    ensures Counted(Next(s, a)) && Next(s, a).pending >= 0
  {
    CountBounds(s, a.pid);
    var s' := Next(s, a);
    assert s'.inFlight == s.inFlight - {a.pid} && s'.pending == s.pending - 1 && s'.starting == s.starting;
  }

  lemma OthersCount(s: State, a: Step)
    requires Counted(s) && Enabled(s, a) && !a.StartFails? && !a.AddPid? && !a.Fork?
    ensures Counted(Next(s, a)) && Next(s, a).pending >= 0
  {
  }

  lemma CountPreserved(s: State, a: Step)
    requires Counted(s) && Enabled(s, a)
    ensures Counted(Next(s, a)) && Next(s, a).pending >= 0
  {
    hide Next, Enabled;
    if a.StartFails? || a.AddPid? {
      DecidedCounts(s, a);
    } else if a.Fork? {
      ForkCounts(s, a.pid);
    } else {
      OthersCount(s, a);
    }
  }

  lemma AddPidPreserves(s: State, a: nat, p: nat)
    requires a in s.inFlight && PidInv(s, p)
    requires s.pending == 1 ==> s.inFlight == {a}
    ensures PidInv(Next(s, AddPid(a)), p)
  {
  }

  lemma ReapPreserves(s: State, a: nat, p: nat)
    requires Enabled(s, Reap(a)) && PidInv(s, p)
    requires s.pending == 0 ==> s.inFlight == {}
    ensures PidInv(Next(s, Reap(a)), p)
  {
  }

  lemma OtherStepPreserves(s: State, a: Step, p: nat)
    requires Enabled(s, a) && PidInv(s, p) && !a.AddPid? && !a.Reap?
    ensures PidInv(Next(s, a), p)
  {
  }

  lemma PidPreserved(s: State, a: Step, p: nat)
    requires Counted(s) && Enabled(s, a) && PidInv(s, p)
    ensures PidInv(Next(s, a), p)
  {
    hide PidInv, Next;
    if a.AddPid? {
      CountBounds(s, a.pid);
      AddPidPreserves(s, a.pid, p);
    } else if a.Reap? {
      CountBounds(s, a.pid);
      ReapPreserves(s, a.pid, p);
    } else {
      OtherStepPreserves(s, a, p);
    }
  }

  /** Every step keeps the invariant, and no assertion of the source fails. */
  lemma StepKeepsInv(s: State, a: Step)
    requires Inv(s) && Enabled(s, a)
    ensures Inv(Next(s, a)) && AssertionsHold(s, a)
  {
    CountPreserved(s, a);
    forall p
      ensures PidInv(Next(s, a), p)
    {
      PidPreserved(s, a, p);
    }
    if a.Reap? { assert PidInv(s, a.pid); }
  }

  // ---- All runs ----

  ghost predicate IsRunFrom(start: State, states: seq<State>, steps: seq<Step>) {
    && |states| == |steps| + 1 && states[0] == start
    && forall i | 0 <= i < |steps| :: Enabled(states[i], steps[i]) && states[i + 1] == Next(states[i], steps[i])
  }

  lemma {:induction false} RunKeepsInv(start: State, states: seq<State>, steps: seq<Step>, i: nat)
    requires IsRunFrom(start, states, steps) && Inv(start) && i < |states|
    ensures Inv(states[i]) && (i < |steps| ==> AssertionsHold(states[i], steps[i]))
    decreases i
  {
    hide Inv, Enabled, AssertionsHold;
    if i > 0 {
      RunKeepsInv(start, states, steps, i - 1);
      StepKeepsInv(states[i - 1], steps[i - 1]);
    }
    if i < |steps| {
      StepKeepsInv(states[i], steps[i]);
    }
  }

  /** Exactly once: in every reachable state, a child started successfully whose exit has been reaped
      and for which removePid has not cleared the table entry has had one finish call with its own
      status, or the reaper is about to make it; otherwise it has had none. */
  lemma FinishedExactlyOnce(states: seq<State>, steps: seq<Step>, i: nat, p: nat)
    requires IsRunFrom(Init(), states, steps) && i < |states| && p in states[i].added
    ensures var s := states[i];
            if p !in s.reaped || p in s.table then Finishes(s, p) == []
            else p in s.exited && (if InHand(s, p) then Finishes(s, p) == [] && s.hand.status == s.exited[p]
                                   else Finishes(s, p) == [s.exited[p]])
  {
    InitInv();
    RunKeepsInv(Init(), states, steps, i);
    assert PidInv(states[i], p);
  }

  lemma HistoryStep(s: State, a: Step, p: nat)
    requires Enabled(s, a)
    ensures p in Next(s, a).added <==> p in s.added || a == AddPid(p)
    ensures p in Next(s, a).reaped <==> p in s.reaped || a == Reap(p)
    ensures p in Next(s, a).exited <==> p in s.exited || (a.Exit? && a.pid == p)
    ensures p in s.exited ==> Next(s, a).exited[p] == s.exited[p]
    ensures a.Exit? && a.pid == p ==> p !in s.exited && Next(s, a).exited[p] == a.status
    ensures p in Next(s, a).table && !Next(s, a).table[p] ==> (p in s.table && !s.table[p]) || a == RemovePid(p)
  {
  }

  /** What is recorded of a child is what has happened to it. */
  lemma {:induction false} HistoryMeans(states: seq<State>, steps: seq<Step>, i: nat, p: nat)
    requires IsRunFrom(Init(), states, steps) && i < |states|
    ensures p in states[i].added <==> exists k :: 0 <= k < i && steps[k] == AddPid(p)
    ensures p in states[i].reaped <==> exists k :: 0 <= k < i && steps[k] == Reap(p)
    ensures forall k | 0 <= k < i && steps[k].Exit? && steps[k].pid == p ::
              p in states[i].exited && states[i].exited[p] == steps[k].status
    ensures p in states[i].table && !states[i].table[p] ==> exists k :: 0 <= k < i && steps[k] == RemovePid(p)
    decreases i
  {
    hide Enabled, Next;
    if i == 0 {
      hide Init;
      assert Init().added == {} && Init().reaped == {} && Init().table == map[] by { NothingYet(); }
    } else {
      HistoryMeans(states, steps, i - 1, p);
      assert states[i] == Next(states[i - 1], steps[i - 1]);
      HistoryStep(states[i - 1], steps[i - 1], p);
    }
  }

  lemma NothingYet()
    ensures Init().added == {} && Init().reaped == {} && Init().table == map[]
  {
  }

  /** Whatever the order in which its start is decided and its exit seen: a child that was started and not
      removed, whose exit has been reaped, has had one finish call with the status it exited with, or the
      reaper holds that status and is about to make the call. */
  lemma DeliveredAsExited(states: seq<State>, steps: seq<Step>, i: nat, p: nat, status: int)
    requires IsRunFrom(Init(), states, steps) && i < |states|
    requires exists k :: 0 <= k < i && steps[k] == AddPid(p)
    requires exists k :: 0 <= k < i && steps[k] == Exit(p, status)
    requires exists k :: 0 <= k < i && steps[k] == Reap(p)
    requires forall k | 0 <= k < i :: steps[k] != RemovePid(p)
    ensures var s := states[i];
            if InHand(s, p) then Finishes(s, p) == [] && s.hand.status == status else Finishes(s, p) == [status]
  {
    HistoryMeans(states, steps, i, p);
    FinishedExactlyOnce(states, steps, i, p);
    InitInv();
    RunKeepsInv(Init(), states, steps, i);
    assert PidInv(states[i], p) by { AllPids(states[i], p); }
    hide Enabled, Next, IsRunFrom;
  }

  /** A fork that fails leaves everything as it was before the start. */
  lemma FailedForkUndoes(s: State)
    ensures Enabled(s, BeginStart) && Enabled(Next(s, BeginStart), ForkFails)
    ensures Next(Next(s, BeginStart), ForkFails) == s
  {
  }

  /** addPid forgets the child it decides about, and all early exits when no start is left in flight. */
  lemma AddPidForgets(s: State, p: nat)
    requires Inv(s) && Enabled(s, AddPid(p))
    ensures var early := Next(s, AddPid(p)).early;
            if s.starting == 0 && s.inFlight == {p} then early == map[] else early == s.early - {p}
  {
    CountBounds(s, p);
    assert s.inFlight - {p} == {} <==> s.inFlight == {p};
    assert p !in s.early ==> s.early - {p} == s.early;
  }

  /** sPending counts the starts in flight, so an exit reaped early is still recorded at its addPid. */
  lemma EarlyExitIsKept(states: seq<State>, steps: seq<Step>, i: nat, p: nat)
    requires IsRunFrom(Init(), states, steps) && i < |states| && p in states[i].inFlight && p in states[i].reaped
    ensures states[i].pending >= 1 && p in states[i].exited && p in states[i].early
    ensures states[i].early[p] == states[i].exited[p]
    ensures Finishes(Next(states[i], AddPid(p)), p) == [states[i].exited[p]]
  {
    InitInv();
    RunKeepsInv(Init(), states, steps, i);
    assert PidInv(states[i], p);
    CountBounds(states[i], p);
  }

  /** A child that can no longer be handed over: not in the reaper's hand and without a live entry. */
  ghost predicate Silent(s: State, p: nat) {
    && p in s.added && !(InHand(s, p))
    && (p in s.table ==> !s.table[p]) && (p !in s.table ==> p in s.reaped)
  }

  lemma AllPids(s: State, p: nat)
    requires Inv(s)
    ensures PidInv(s, p)
  {
  }

  lemma SilentStays(s: State, a: Step, p: nat)
    requires PidInv(s, p) && Enabled(s, a) && Silent(s, p)
    ensures Silent(Next(s, a), p) && Finishes(Next(s, a), p) == Finishes(s, p)
  {
  }

  lemma {:induction false} SilentRuns(start: State, states: seq<State>, steps: seq<Step>, i: nat, p: nat)
    requires IsRunFrom(start, states, steps) && Inv(start) && Silent(start, p) && i < |states|
    ensures Silent(states[i], p) && Finishes(states[i], p) == Finishes(start, p)
    decreases i
  {
    hide Inv, Enabled, Silent;
    if i > 0 {
      SilentRuns(start, states, steps, i - 1, p);
      RunKeepsInv(start, states, steps, i - 1);
      assert PidInv(states[i - 1], p) by { AllPids(states[i - 1], p); }
      SilentStays(states[i - 1], steps[i - 1], p);
    }
  }

  /** Can a run after `s` call finish for `p` once more? */
  ghost predicate CanStillFinish(s: State, p: nat) {
    exists states, steps :: IsRunFrom(s, states, steps) && Finishes(states[|steps|], p) != Finishes(s, p)
  }

  /** removePid keeps later finish calls away unless it finds no entry and finish has not been called
      yet: the reaper then has the child in its hand, and finish is still called behind removePid. */
  lemma RemoveSilencesExactlyWhen(s: State, p: nat)
    requires Inv(s) && p in s.added
    ensures CanStillFinish(Next(s, RemovePid(p)), p) <==> p !in s.table && Finishes(s, p) == []
    ensures CanStillFinish(Next(s, RemovePid(p)), p) <==> InHand(s, p)
  {
    var s' := Next(s, RemovePid(p));
    StepKeepsInv(s, RemovePid(p));
    AllPids(s, p);
    if InHand(s, p) {
      var states, steps := [s', Next(s', Finish)], [Finish];
      assert IsRunFrom(s', states, steps);
      assert |Finishes(states[1], p)| == |Finishes(s', p)| + 1;
    } else {
      assert Silent(s', p);
      forall states, steps | IsRunFrom(s', states, steps)
        ensures Finishes(states[|steps|], p) == Finishes(s', p)
      {
        SilentRuns(s', states, steps, |steps|, p);
      }
    }
  }

  /** One child on its way: started, forked, added, exited and reaped. */
  function OneChild(k: nat): State
    requires k <= 5
  {
    var exited := if k < 4 then map[] else map[7 := 3];
    if k == 0 then Init()
    else if k == 1 then State(1, map[], map[], Nobody, 1, {}, {}, {}, exited, {}, map[])
    else if k == 2 then State(1, map[], map[], Nobody, 0, {7}, {}, {}, exited, {}, map[])
    else if k < 5 then State(0, map[], map[7 := true], Nobody, 0, {}, {7}, {}, exited, {}, map[])
    else State(0, map[], map[], Holding(7, 3), 0, {}, {7}, {}, exited, {7}, map[])
  }

  function StepOfChild(k: nat): Step
    requires k < 5
  {
    if k == 0 then BeginStart else if k == 1 then Fork(7)
    else if k == 2 then AddPid(7) else if k == 3 then Exit(7, 3) else Reap(7)
  }

  lemma ChildMoves(k: nat)
    requires k < 5
    ensures Enabled(OneChild(k), StepOfChild(k)) && Next(OneChild(k), StepOfChild(k)) == OneChild(k + 1)
  {
    assert {} + {7} == {7} && {7} - {7} == {} && map[7 := true] - {7} == map[];
  }

  /** The window can be reached: a child that exits behind its addPid and is reaped is in the reaper's
      hand, and finish is called however soon removePid comes. */
  lemma WindowIsReachable() returns (states: seq<State>, steps: seq<Step>)
    ensures IsRunFrom(Init(), states, steps)
    ensures var s := states[|steps|]; InHand(s, 7) && 7 in s.added && Enabled(s, RemovePid(7))
    ensures CanStillFinish(Next(states[|steps|], RemovePid(7)), 7)
  {
    states := seq(6, k requires 0 <= k < 6 => OneChild(k));
    steps := seq(5, k requires 0 <= k < 5 => StepOfChild(k));
    assert InHand(OneChild(5), 7) && 7 in OneChild(5).added && OneChild(0) == Init();
    hide Inv, Enabled, Next, CanStillFinish, Finishes, InHand, OneChild, StepOfChild;
    forall k | 0 <= k < 5
      ensures Enabled(states[k], steps[k]) && states[k + 1] == Next(states[k], steps[k])
    {
      ChildMoves(k);
    }
    InitInv();
    RunKeepsInv(Init(), states, steps, 5);
    RemoveSilencesExactlyWhen(OneChild(5), 7);
  }
}
