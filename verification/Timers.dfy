/** The timers of an event loop: two indexes over the same timer objects, one ordered by deadline and
    one keyed by id, and the round that fires what is due while callbacks register and unregister. */
module Timers {
  import opened Common

  datatype Timer = Timer(when: nat, interval: nat, singleShot: bool)

  type Table = map<nat, Timer>

  datatype Event =
    | Registered(id: nat, timer: Timer)
    | Cleared(id: nat)
    | Fired(id: nat)

  /** What a callback asks for: the timer is registered when the clock reads `at`. */
  datatype Request =
    | Register(at: nat, timeout: nat, singleShot: bool)
    | Unregister(id: nat)

  // ---------- what the events of a loop mean ----------

  function Apply(table: Table, event: Event): Table {
    match event
    case Registered(id, timer) => table[id := timer]
    case Cleared(id) => table - {id}
    case Fired(id) =>
      if id !in table || table[id].singleShot then table - {id}
      else table[id := table[id].(when := table[id].when + table[id].interval)]
  }

  function Run(table: Table, events: seq<Event>): Table {
    if events == [] then table else Apply(Run(table, events[..|events| - 1]), events[|events| - 1])
  }

  function FiredIds(events: seq<Event>): set<nat> {
    if events == [] then {}
    else
      var e := events[|events| - 1];
      FiredIds(events[..|events| - 1]) + (if e.Fired? then {e.id} else {})
  }

  function Firings(events: seq<Event>, id: nat): nat {
    if events == [] then 0
    else Firings(events[..|events| - 1], id) + (if events[|events| - 1] == Fired(id) then 1 else 0)
  }

  /** No registered timer outside `fired` has an earlier deadline. */
  ghost predicate Floor(table: Table, fired: set<nat>, deadline: nat) {
    forall id :: id in table && id !in fired ==> deadline <= table[id].when
  }

  /** Every registered timer outside `fired` is still to come. */
  ghost predicate Settled(table: Table, fired: set<nat>, now: nat) {
    forall id :: id in table && id !in fired ==> now < table[id].when
  }

  /** Only registered timers fire and an id in use is not given away. */
  ghost predicate LawfulStep(table: Table, event: Event) {
    match event
    case Registered(id, _) => id !in table
    case Cleared(_) => true
    case Fired(id) => id in table
  }

  ghost predicate Lawful(table: Table, events: seq<Event>) {
    events == [] ||
    (Lawful(table, events[..|events| - 1]) &&
     LawfulStep(Run(table, events[..|events| - 1]), events[|events| - 1]))
  }

  /** One step of a round that began at `now`: what fires is due, has not fired in this round, and no
      other such timer is earlier; what is registered meanwhile is not due before `now`. */
  ghost predicate RoundStep(table: Table, fired: set<nat>, now: nat, event: Event) {
    && LawfulStep(table, event)
    && match event
       case Registered(_, timer) => now <= timer.when
       case Cleared(_) => true
       case Fired(id) => id !in fired && table[id].when <= now && Floor(table, fired, table[id].when)
  }

  ghost predicate Orderly(table: Table, now: nat, events: seq<Event>) {
    events == [] ||
    (var before := events[..|events| - 1];
     Orderly(table, now, before) &&
     RoundStep(Run(table, before), FiredIds(before), now, events[|events| - 1]))
  }

  function DeadlineAt(table: Table, events: seq<Event>, i: nat): nat
    requires i < |events|
  {
    var t := Run(table, events[..i]);
    if events[i].id in t then t[events[i].id].when else 0
  }

  lemma {:induction false} OrderlyPrefix(table: Table, now: nat, events: seq<Event>, n: nat)
    requires Orderly(table, now, events) && n <= |events|
    ensures Orderly(table, now, events[..n])
  {
    if n == |events| {
      assert events[..n] == events;
    } else {
      OrderlyPrefix(table, now, events[..|events| - 1], n);
      assert events[..|events| - 1][..n] == events[..n];
    }
  }

  lemma OrderlyAt(table: Table, now: nat, events: seq<Event>, i: nat)
    requires Orderly(table, now, events) && i < |events|
    ensures RoundStep(Run(table, events[..i]), FiredIds(events[..i]), now, events[i])
  {
    OrderlyPrefix(table, now, events, i + 1);
    assert events[..i + 1][..i] == events[..i];
  }

  lemma {:induction false} FiredIdsMeans(events: seq<Event>, id: nat)
    ensures id in FiredIds(events) <==> Fired(id) in events
  {
    if events != [] {
      FiredIdsMeans(events[..|events| - 1], id);
      assert events == events[..|events| - 1] + [events[|events| - 1]];
    }
  }

  /** A round fires no id twice, whatever its callbacks do. */
  lemma FiresAtMostOnce(table: Table, now: nat, events: seq<Event>, i: nat, j: nat)
    requires Orderly(table, now, events)
    requires i < j < |events| && events[i].Fired? && events[j].Fired?
    ensures events[i].id != events[j].id
  {
    OrderlyAt(table, now, events, j);
    assert events[..j][i] == events[i];
    FiredIdsMeans(events[..j], events[i].id);
  }

  lemma FloorKept(table: Table, fired: set<nat>, now: nat, event: Event, deadline: nat)
    requires RoundStep(table, fired, now, event) && Floor(table, fired, deadline) && deadline <= now
    ensures Floor(Apply(table, event), fired + (if event.Fired? then {event.id} else {}), deadline)
  {
  }

  lemma {:induction false} FloorStays(table: Table, now: nat, events: seq<Event>, i: nat, j: nat, deadline: nat)
    requires Orderly(table, now, events) && i <= j <= |events| && deadline <= now
    requires Floor(Run(table, events[..i]), FiredIds(events[..i]), deadline)
    ensures Floor(Run(table, events[..j]), FiredIds(events[..j]), deadline)
    decreases j
  {
    hide Orderly, RoundStep, Floor, Apply;
    if i < j {
      FloorStays(table, now, events, i, j - 1, deadline);
      OrderlyAt(table, now, events, j - 1);
      assert events[..j][..j - 1] == events[..j - 1];
      FloorKept(Run(table, events[..j - 1]), FiredIds(events[..j - 1]), now, events[j - 1], deadline);
    }
  }

  /** A round fires in non-decreasing deadline order, and nothing that was not due when it began. */
  lemma FiresInDeadlineOrder(table: Table, now: nat, events: seq<Event>, i: nat, j: nat)
    requires Orderly(table, now, events)
    requires i <= j < |events| && events[i].Fired? && events[j].Fired?
    ensures DeadlineAt(table, events, i) <= DeadlineAt(table, events, j) <= now
  {
    OrderlyAt(table, now, events, i);
    OrderlyAt(table, now, events, j);
    if i < j {
      FloorStays(table, now, events, i, j, DeadlineAt(table, events, i));
    }
  }

  lemma {:induction false} UnfiredIsUnchanged(table: Table, now: nat, events: seq<Event>, id: nat)
    requires Orderly(table, now, events)
    requires id in table && Cleared(id) !in events && id !in FiredIds(events)
    ensures id in Run(table, events) && Run(table, events)[id] == table[id]
  {
    if events != [] {
      UnfiredIsUnchanged(table, now, events[..|events| - 1], id);
    }
  }

  lemma FirstFiring(table: Table, now: nat, events: seq<Event>, id: nat) returns (i: nat)
    requires id in FiredIds(events)
    ensures i < |events| && events[i] == Fired(id) && id !in FiredIds(events[..i])
    decreases |events|
  {
    var before := events[..|events| - 1];
    if id in FiredIds(before) {
      i := FirstFiring(table, now, before, id);
      assert before[..i] == events[..i];
    } else {
      i := |events| - 1;
    }
  }

  /** A timer that nobody unregisters during a complete round fires in it exactly when it was due. */
  lemma FiresExactlyTheDue(table: Table, now: nat, events: seq<Event>, id: nat)
    requires Orderly(table, now, events) && Settled(Run(table, events), FiredIds(events), now)
    requires id in table && Cleared(id) !in events
    ensures Fired(id) in events <==> table[id].when <= now
  {
    hide Orderly;
    FiredIdsMeans(events, id);
    if id in FiredIds(events) {
      var i := FirstFiring(table, now, events, id);
      OrderlyPrefix(table, now, events, i);
      OrderlyAt(table, now, events, i);
      UnfiredIsUnchanged(table, now, events[..i], id);
    } else {
      UnfiredIsUnchanged(table, now, events, id);
    }
  }

  lemma {:induction false} LawfulPrefix(table: Table, events: seq<Event>, n: nat)
    requires Lawful(table, events) && n <= |events|
    ensures Lawful(table, events[..n])
  {
    if n == |events| {
      assert events[..n] == events;
    } else {
      LawfulPrefix(table, events[..|events| - 1], n);
      assert events[..|events| - 1][..n] == events[..n];
    }
  }

  lemma OneMore(n: nat, interval: nat)
    ensures n * interval + interval == (n + 1) * interval
  {
  }

  lemma {:induction false} RepeatingStays(table: Table, events: seq<Event>, id: nat)
    requires id in table && !table[id].singleShot
    requires Lawful(table, events) && Cleared(id) !in events
    ensures id in Run(table, events)
    ensures Run(table, events)[id] ==
            table[id].(when := table[id].when + Firings(events, id) * table[id].interval)
  {
    if events != [] {
      RepeatingStays(table, events[..|events| - 1], id);
      OneMore(Firings(events[..|events| - 1], id), table[id].interval);
    }
  }

  lemma {:induction false} SingleShotIsGone(table: Table, events: seq<Event>, id: nat)
    requires id in table && table[id].singleShot && Lawful(table, events)
    requires Fired(id) in events && forall timer :: Registered(id, timer) !in events
    ensures id !in Run(table, events)
  {
    var before := events[..|events| - 1];
    if Fired(id) in before {
      SingleShotIsGone(table, before, id);
    } else {
      SingleShotWaits(table, before, id);
    }
  }

  lemma {:induction false} SingleShotWaits(table: Table, events: seq<Event>, id: nat)
    requires id in table && Fired(id) !in events && forall timer :: Registered(id, timer) !in events
    ensures id in Run(table, events) ==> Run(table, events)[id] == table[id]
  {
    if events != [] {
      SingleShotWaits(table, events[..|events| - 1], id);
    }
  }

  /** Over any number of rounds, a single-shot timer fires at most once per registration. */
  lemma SingleShotFiresAtMostOnce(table: Table, events: seq<Event>, id: nat, i: nat, j: nat)
    requires id in table && table[id].singleShot && Lawful(table, events)
    requires forall timer :: Registered(id, timer) !in events
    requires i < j < |events| && events[i] == Fired(id)
    ensures events[j] != Fired(id)
  {
    LawfulPrefix(table, events, j);
    LawfulPrefix(table, events, j + 1);
    assert events[..j + 1][..j] == events[..j];
    assert events[..j][i] == Fired(id);
    SingleShotIsGone(table, events[..j], id);
  }

  lemma {:induction false} ClearedStaysAway(table: Table, events: seq<Event>, i: nat, j: nat, id: nat)
    requires i < j <= |events| && events[i] == Cleared(id)
    requires forall k | i < k < j :: !(events[k].Registered? && events[k].id == id)
    ensures id !in Run(table, events[..j])
  {
    assert events[..j][..j - 1] == events[..j - 1] && events[..j][j - 1] == events[j - 1];
    if j > i + 1 {
      ClearedStaysAway(table, events, i, j - 1, id);
    }
  }

  /** A timer that has been unregistered does not fire again before its id is given away anew. */
  lemma ClearedNeverFires(table: Table, events: seq<Event>, i: nat, j: nat, id: nat)
    requires Lawful(table, events) && i < j < |events| && events[i] == Cleared(id)
    requires forall k | i < k < j :: !(events[k].Registered? && events[k].id == id)
    ensures events[j] != Fired(id)
  {
    LawfulPrefix(table, events, j + 1);
    assert events[..j + 1][..j] == events[..j];
    ClearedStaysAway(table, events, i, j, id);
  }

  // ---------- appending to a run ----------

  lemma DropLast(a: seq<Event>, b: seq<Event>)
    requires b != []
    ensures (a + b)[..|a + b| - 1] == a + b[..|b| - 1] && (a + b)[|a + b| - 1] == b[|b| - 1]
  {
  }

  lemma {:induction false} RunAppend(table: Table, a: seq<Event>, b: seq<Event>)
    ensures Run(table, a + b) == Run(Run(table, a), b)
  {
    if b == [] {
      assert a + b == a;
    } else {
      DropLast(a, b);
      RunAppend(table, a, b[..|b| - 1]);
    }
  }

  lemma {:induction false} LawfulSuffix(table: Table, a: seq<Event>, b: seq<Event>)
    requires Lawful(table, a + b)
    ensures Lawful(Run(table, a), b)
  {
    if b != [] {
      DropLast(a, b);
      LawfulSuffix(table, a, b[..|b| - 1]);
      RunAppend(table, a, b[..|b| - 1]);
    }
  }

  /** Over any number of rounds, the k-th firing of a repeating timer (counting from zero) after its
      registration at `r` has its first deadline plus k intervals: lateness never accumulates. */
  lemma RepeatingDeadlines(table: Table, history: seq<Event>, r: nat, j: nat)
    requires Lawful(table, history) && r < j < |history|
    requires history[r].Registered? && !history[r].timer.singleShot
    requires history[j] == Fired(history[r].id) && Cleared(history[r].id) !in history[r + 1..j]
    ensures DeadlineAt(table, history, j) ==
            history[r].timer.when + Firings(history[r + 1..j], history[r].id) * history[r].timer.interval
  {
    var before, since := history[..r + 1], history[r + 1..j];
    assert history[..j] == before + since && before[..r] == history[..r];
    LawfulPrefix(table, history, j);
    LawfulSuffix(table, before, since);
    RunAppend(table, before, since);
    RepeatingStays(Run(table, before), since, history[r].id);
  }

  // ---------- the two indexes ----------

  class TimerData {
    var when: nat
    const id: nat
    const singleShot: bool
    const interval: nat

    constructor (when: nat, id: nat, singleShot: bool, interval: nat)
      ensures this.when == when && this.id == id
      ensures this.singleShot == singleShot && this.interval == interval
    {
      this.when, this.id, this.singleShot, this.interval := when, id, singleShot, interval;
    }
  }

  ghost predicate SameTimers(byTime: seq<TimerData>, byId: map<nat, TimerData>) {
    && (forall t <- byTime :: t.id in byId && byId[t.id] == t)
    && (forall id <- byId :: byId[id].id == id && byId[id] in byTime)
  }

  ghost predicate ByDeadline(byTime: seq<TimerData>, table: Table) {
    && (forall i :: 0 <= i < |byTime| ==> byTime[i].id in table)
    && (forall i, j :: 0 <= i < j < |byTime| ==> table[byTime[i].id].when <= table[byTime[j].id].when)
  }

  /** Both indexes hold exactly the timers of the table, the first one by deadline. */
  ghost predicate Indexed(byTime: seq<TimerData>, byId: map<nat, TimerData>, table: Table) {
    byId.Keys == table.Keys && Distinct(byTime) && SameTimers(byTime, byId) && ByDeadline(byTime, table)
  }

  function Erased(s: seq<TimerData>, i: nat): (r: seq<TimerData>)
    requires i < |s|
    ensures |r| == |s| - 1 && forall k :: 0 <= k < |r| ==> r[k] == s[if k < i then k else k + 1]
  {
    s[..i] + s[i + 1..]
  }

  function Inserted(s: seq<TimerData>, i: nat, t: TimerData): (r: seq<TimerData>)
    requires i <= |s|
    ensures |r| == |s| + 1 && r[i] == t
    ensures forall k :: 0 <= k < |r| && k != i ==> r[k] == s[if k < i then k else k - 1]
  {
    s[..i] + [t] + s[i..]
  }

  lemma EraseMembers(s: seq<TimerData>, i: nat)
    requires i < |s| && Distinct(s)
    ensures Distinct(Erased(s, i))
    ensures forall t :: t in Erased(s, i) <==> t in s && t != s[i]
  {
    hide Erased;
    var rest := Erased(s, i);
    forall t | t in s && t != s[i] ensures t in rest {
      var k :| 0 <= k < |s| && s[k] == t;
      assert rest[if k < i then k else k - 1] == t;
    }
  }

  lemma InsertMembers(s: seq<TimerData>, i: nat, t: TimerData)
    requires i <= |s| && Distinct(s) && t !in s
    ensures Distinct(Inserted(s, i, t))
    ensures forall u :: u in Inserted(s, i, t) <==> u == t || u in s
  {
    hide Inserted;
    var all := Inserted(s, i, t);
    assert all[i] == t;
    forall u | u in s ensures u in all {
      var k :| 0 <= k < |s| && s[k] == u;
      assert all[if k < i then k else k + 1] == u;
    }
  }

  lemma EraseOrder(s: seq<TimerData>, table: Table, i: nat)
    requires i < |s| && ByDeadline(s, table)
    requires forall k :: 0 <= k < |s| && k != i ==> s[k].id != s[i].id
    ensures ByDeadline(Erased(s, i), table - {s[i].id})
  {
    hide Erased;
  }

  lemma InsertOrder(s: seq<TimerData>, table: Table, i: nat, t: TimerData, timer: Timer)
    requires i <= |s| && ByDeadline(s, table) && t.id !in table
    requires forall k :: 0 <= k < i ==> table[s[k].id].when <= timer.when
    requires forall k :: i <= k < |s| ==> timer.when <= table[s[k].id].when
    ensures ByDeadline(Inserted(s, i, t), table[t.id := timer])
  {
    hide Inserted;
  }

  lemma IndexErase(byTime: seq<TimerData>, byId: map<nat, TimerData>, table: Table, i: nat)
    requires Indexed(byTime, byId, table) && i < |byTime|
    ensures Indexed(Erased(byTime, i), byId - {byTime[i].id}, table - {byTime[i].id})
  {
    hide Erased, ByDeadline;
    var t := byTime[i];
    EraseMembers(byTime, i);
    assert SameTimers(Erased(byTime, i), byId - {t.id}) by { hide Distinct; }
    EraseOrder(byTime, table, i);
  }

  lemma IndexInsert(byTime: seq<TimerData>, byId: map<nat, TimerData>, table: Table, i: nat, t: TimerData, timer: Timer)
    requires Indexed(byTime, byId, table) && i <= |byTime| && t.id !in table
    requires forall k :: 0 <= k < i ==> table[byTime[k].id].when <= timer.when
    requires forall k :: i <= k < |byTime| ==> timer.when <= table[byTime[k].id].when
    ensures Indexed(Inserted(byTime, i, t), byId[t.id := t], table[t.id := timer])
  {
    hide Inserted;
    assert t !in byTime;
    InsertOrder(byTime, table, i, t, timer);
    hide ByDeadline;
    InsertMembers(byTime, i, t);
    hide Distinct;
  }

  lemma EarliestUnfired(byTime: seq<TimerData>, byId: map<nat, TimerData>, table: Table, fired: set<nat>, i: nat)
    requires Indexed(byTime, byId, table) && i < |byTime|
    requires forall k :: 0 <= k < i ==> byTime[k].id in fired
    ensures Floor(table, fired, table[byTime[i].id].when)
  {
    forall id | id in table && id !in fired ensures table[byTime[i].id].when <= table[id].when {
      assert byId[id] in byTime;
    }
  }

  lemma NothingIsDue(byTime: seq<TimerData>, byId: map<nat, TimerData>, table: Table, fired: set<nat>, i: nat, now: nat)
    requires Indexed(byTime, byId, table) && i <= |byTime|
    requires forall k :: 0 <= k < i ==> byTime[k].id in fired
    requires i < |byTime| ==> now < table[byTime[i].id].when
    ensures Settled(table, fired, now)
  {
    forall id | id in table && id !in fired ensures now < table[id].when {
      assert byId[id] in byTime;
    }
  }

  // ---------- what callbacks do ----------

  /** Each request is carried out in turn. */
  ghost predicate Answers(requests: seq<Request>, replies: seq<Event>) {
    && |replies| == |requests|
    && forall k :: 0 <= k < |requests| ==>
         match requests[k]
         case Register(at, timeout, singleShot) =>
           replies[k].Registered? && replies[k].timer == Timer(at + timeout, timeout, singleShot)
         case Unregister(id) => replies[k] == Cleared(id)
  }

  ghost predicate NotBefore(now: nat, requests: seq<Request>) {
    forall r <- requests :: r.Register? ==> now <= r.at
  }

  lemma {:induction false} OrderlyAppend(table: Table, now: nat, a: seq<Event>, b: seq<Event>)
    requires Orderly(table, now, a) && Orderly(Run(table, a), now, b)
    requires forall e <- b :: !e.Fired?
    ensures Orderly(table, now, a + b) && FiredIds(a + b) == FiredIds(a)
  {
    if b == [] {
      assert a + b == a;
    } else {
      DropLast(a, b);
      OrderlyAppend(table, now, a, b[..|b| - 1]);
      RunAppend(table, a, b[..|b| - 1]);
    }
  }

  /** Each reply leaves at most one more timer waiting for its turn in the round. */
  lemma {:induction false} WaitingGrowth(table: Table, events: seq<Event>, fired: set<nat>)
    requires forall e <- events :: !e.Fired?
    ensures |Run(table, events).Keys - fired| <= |table.Keys - fired| + |events|
  {
    if events != [] {
      var before := events[..|events| - 1];
      WaitingGrowth(table, before, fired);
      var t := Run(table, before);
      var e := events[|events| - 1];
      SubsetSize(Apply(t, e).Keys - fired, (t.Keys - fired) + {e.id});
    }
  }

  lemma WaitingShrinks(table: Table, id: nat, fired: set<nat>)
    requires id in table && id !in fired
    ensures |Apply(table, Fired(id)).Keys - (fired + {id})| < |table.Keys - fired|
  {
    SubsetSize(Apply(table, Fired(id)).Keys - (fired + {id}), (table.Keys - fired) - {id});
  }

  /** How many requests the callbacks from the n-th one on will make. */
  ghost function Remaining(script: seq<seq<Request>>, n: nat): nat
    decreases |script| - n
  {
    if n >= |script| then 0 else |script[n]| + Remaining(script, n + 1)
  }

  lemma AskedLater(script: seq<seq<Request>>, k: nat, now: nat)
    requires forall requests <- script :: NotBefore(now, requests)
    ensures NotBefore(now, Asked(script, k))
    ensures Remaining(script, k) == |Asked(script, k)| + Remaining(script, k + 1)
  {
    if k < |script| {
      assert script[k] in script;
    }
  }

  lemma Regroup(a: seq<Event>, b: seq<Event>, c: seq<Event>, d: seq<Event>)
    ensures ((a + b) + c) + d == a + (b + c + d)
  {
  }

  datatype Turn = Turn(id: nat, replies: seq<Event>)

  /** The events of a round, firing by firing. */
  function Log(turns: seq<Turn>): seq<Event> {
    if turns == [] then []
    else Log(turns[..|turns| - 1]) + [Fired(turns[|turns| - 1].id)] + turns[|turns| - 1].replies
  }

  function Asked(script: seq<seq<Request>>, k: nat): seq<Request> {
    if k < |script| then script[k] else []
  }

  lemma AnswersNothing()
    ensures Answers([], [])
  {
  }

  lemma AnswersMore(requests: seq<Request>, n: nat, replies: seq<Event>, e: Event)
    requires n < |requests| && |replies| == n && Answers(requests[..n], replies) && Answers([requests[n]], [e])
    ensures Answers(requests[..n + 1], replies + [e])
  {
    assert [requests[n]][0] == requests[n] && [e][0] == e;
  }

  lemma {:induction false} NothingFired(events: seq<Event>)
    requires forall e <- events :: !e.Fired?
    ensures FiredIds(events) == {}
  {
    if events != [] {
      NothingFired(events[..|events| - 1]);
    }
  }

  // ---------- the event loop ----------

  ghost predicate Faithful(byTime: seq<TimerData>, table: Table)
    reads byTime
  {
    forall t <- byTime :: t.id in table && table[t.id] == Timer(t.when, t.interval, t.singleShot)
  }

  ghost predicate Sorted(s: seq<TimerData>)
    reads s
  {
    forall i, j :: 0 <= i < j < |s| ==> s[i].when <= s[j].when
  }

  /** Where std::multiset::insert puts an element: after the ones that are not greater. */
  method UpperBound(s: seq<TimerData>, when: nat) returns (i: nat)
    requires Sorted(s)
    ensures i <= |s|
    ensures forall k :: 0 <= k < i ==> s[k].when <= when
    ensures forall k :: i <= k < |s| ==> when < s[k].when
  {
    i := 0;
    while i < |s| && s[i].when <= when
      invariant i <= |s|
      invariant forall k :: 0 <= k < i ==> s[k].when <= when
    {
      i := i + 1;
    }
  }

  method LowerBound(s: seq<TimerData>, when: nat) returns (i: nat)
    requires Sorted(s)
    ensures i <= |s|
    ensures forall k :: 0 <= k < i ==> s[k].when < when
    ensures forall k :: i <= k < |s| ==> when <= s[k].when
  {
    i := 0;
    while i < |s| && s[i].when < when
      invariant i <= |s|
      invariant forall k :: 0 <= k < i ==> s[k].when < when
    {
      i := i + 1;
    }
  }

  /** Inserting into the index ordered by deadline. */
  method Insert(s: seq<TimerData>, t: TimerData) returns (r: seq<TimerData>, i: nat)
    requires Sorted(s)
    ensures i <= |s| && r == Inserted(s, i, t)
    ensures forall k :: 0 <= k < i ==> s[k].when <= t.when
    ensures forall k :: i <= k < |s| ==> t.when < s[k].when
  {
    i := UpperBound(s, t.when);
    r := Inserted(s, i, t);
  }

  lemma OrderlyStart(table: Table, now: nat)
    ensures Orderly(table, now, []) && Run(table, []) == table && FiredIds([]) == {} && Log([]) == []
  {
  }

  lemma OrderlySnoc(table: Table, now: nat, events: seq<Event>, e: Event)
    requires Orderly(table, now, events) && RoundStep(Run(table, events), FiredIds(events), now, e)
    ensures Orderly(table, now, events + [e])
    ensures Run(table, events + [e]) == Apply(Run(table, events), e)
    ensures FiredIds(events + [e]) == FiredIds(events) + (if e.Fired? then {e.id} else {})
  {
    DropLast(events, [e]);
    assert events + [e][..0] == events;
  }

  lemma RoundGoesOn(table: Table, now: nat, events: seq<Event>, turns: seq<Turn>, id: nat, replies: seq<Event>)
    requires Orderly(table, now, events) && RoundStep(Run(table, events), FiredIds(events), now, Fired(id))
    requires Orderly(Apply(Run(table, events), Fired(id)), now, replies) && forall e <- replies :: !e.Fired?
    requires events == Log(turns)
    ensures var after := events + [Fired(id)] + replies;
            && Orderly(table, now, after) && FiredIds(after) == FiredIds(events) + {id}
            && Run(table, after) == Run(Apply(Run(table, events), Fired(id)), replies)
            && after == Log(turns + [Turn(id, replies)])
  {
    hide Orderly, RoundStep, Run, Apply, FiredIds;
    var fire := events + [Fired(id)];
    OrderlySnoc(table, now, events, Fired(id));
    OrderlyAppend(table, now, fire, replies);
    RunAppend(table, fire, replies);
    var all := turns + [Turn(id, replies)];
    assert all[..|all| - 1] == turns;
  }

  lemma {:induction false} HistoryGrows(history: seq<Event>, table: Table, e: Event)
    requires Lawful(map[], history) && table == Run(map[], history) && LawfulStep(table, e)
    ensures Lawful(map[], history + [e]) && Apply(table, e) == Run(map[], history + [e])
  {
    assert (history + [e])[..|history + [e]| - 1] == history;
  }

  lemma DeadlineOrder(s: seq<TimerData>, table: Table)
    requires ByDeadline(s, table) && Faithful(s, table)
    ensures Sorted(s)
  {
  }

  lemma DeadlinesAround(s: seq<TimerData>, table: Table, i: nat, when: nat)
    requires ByDeadline(s, table) && Faithful(s, table) && i <= |s|
    requires forall k :: 0 <= k < i ==> s[k].when <= when
    requires forall k :: i <= k < |s| ==> when < s[k].when
    ensures forall k :: 0 <= k < i ==> table[s[k].id].when <= when
    ensures forall k :: i <= k < |s| ==> when <= table[s[k].id].when
  {
    hide ByDeadline;
  }

  lemma InsertedOnly(s: seq<TimerData>, i: nat, t: TimerData)
    requires i <= |s|
    ensures forall u :: u in Inserted(s, i, t) ==> u == t || u in s
  {
  }

  lemma FaithfulInsert(s: seq<TimerData>, table: Table, i: nat, t: TimerData)
    requires Faithful(s, table) && i <= |s| && t.id !in table
    ensures Faithful(Inserted(s, i, t), table[t.id := Timer(t.when, t.interval, t.singleShot)])
  {
  }

  lemma FaithfulErase(s: seq<TimerData>, table: Table, i: nat)
    requires Faithful(s, table) && i < |s|
    requires forall k :: 0 <= k < |s| && k != i ==> s[k].id != s[i].id
    ensures Faithful(Erased(s, i), table - {s[i].id})
  {
  }

  lemma ErasedOnly(s: seq<TimerData>, i: nat)
    requires i < |s|
    ensures forall u :: u in Erased(s, i) ==> u in s
  {
  }

  lemma SameIndex(s: seq<TimerData>, i: nat, j: nat)
    requires Distinct(s) && i < |s| && j < |s| && s[i] == s[j]
    ensures i == j
  {
  }

  lemma EraseLeavesOut(s: seq<TimerData>, i: nat, t: TimerData)
    requires Distinct(s) && i < |s| && s[i] == t
    ensures t !in Erased(s, i)
  {
  }

  lemma FaithfulHere(s: seq<TimerData>, table: Table, i: nat)
    requires Faithful(s, table) && i < |s|
    ensures s[i].id in table && table[s[i].id] == Timer(s[i].when, s[i].interval, s[i].singleShot)
  {
  }

  lemma WhereTimer(byTime: seq<TimerData>, byId: map<nat, TimerData>, id: nat) returns (k: nat)
    requires SameTimers(byTime, byId) && id in byId
    ensures k < |byTime| && byTime[k] == byId[id] && byId[id].id == id
  {
    assert byId[id] in byTime;
    k :| k < |byTime| && byTime[k] == byId[id];
  }

  lemma DifferentIds(byTime: seq<TimerData>, byId: map<nat, TimerData>, i: nat)
    requires Distinct(byTime) && SameTimers(byTime, byId) && i < |byTime|
    ensures forall k :: 0 <= k < |byTime| && k != i ==> byTime[k].id != byTime[i].id
    ensures byTime[i].id in byId && byId[byTime[i].id] == byTime[i]
  {
  }

  class EventLoop {
    var byTime: seq<TimerData>
    var byId: map<nat, TimerData>
    var nextTimerId: nat
    ghost var table: Table
    ghost var history: seq<Event>

    ghost predicate Valid()
      reads this, byTime
    {
      && Indexed(byTime, byId, table) && Faithful(byTime, table)
      && Lawful(map[], history) && table == Run(map[], history)
    }

    constructor ()
      ensures Valid() && table == map[] && history == [] && nextTimerId == 0
    {
      byTime, byId, nextTimerId, table, history := [], map[], 0, map[], [];
    }

    /** Ids count up past the ones in use. */
    method NextId()
      modifies this`nextTimerId
      ensures old(nextTimerId) < nextTimerId && nextTimerId !in byId
      ensures forall k :: old(nextTimerId) < k < nextTimerId ==> k in byId
    {
      nextTimerId := nextTimerId + 1;
      while nextTimerId in byId
        invariant nextTimerId > old(nextTimerId)
        invariant forall k :: old(nextTimerId) < k < nextTimerId ==> k in byId
        decreases set k | k in byId.Keys && k >= nextTimerId
      {
        ghost var left := set k | k in byId.Keys && k >= nextTimerId;
        assert nextTimerId in left;
        nextTimerId := nextTimerId + 1;
        assert nextTimerId - 1 !in (set k | k in byId.Keys && k >= nextTimerId);
      }
    }

    method RegisterTimer(now: nat, timeout: nat, singleShot: bool) returns (id: nat)
      requires Valid()
      modifies this
      ensures Valid() && forall t <- byTime :: t in old(byTime) || fresh(t)
      ensures old(nextTimerId) < id == nextTimerId && id !in old(table)
      ensures forall k :: old(nextTimerId) < k < id ==> k in old(table)
      ensures table == old(table)[id := Timer(now + timeout, timeout, singleShot)]
      ensures history == old(history) + [Registered(id, Timer(now + timeout, timeout, singleShot))]
    {
      hide Distinct, SameTimers, ByDeadline, Lawful, Run, Inserted, Faithful, Sorted;
      NextId();
      id := nextTimerId;
      ghost var timer := Timer(now + timeout, timeout, singleShot);
      var t := new TimerData(now + timeout, id, singleShot, timeout);
      DeadlineOrder(byTime, table);
      var inserted, i;
      inserted, i := Insert(byTime, t);
      DeadlinesAround(byTime, table, i, t.when);
      FaithfulInsert(byTime, table, i, t);
      IndexInsert(byTime, byId, table, i, t, timer);
      HistoryGrows(history, table, Registered(id, timer));
      InsertedOnly(byTime, i, t);
      byTime := inserted;
      byId := byId[id := t];
      table := table[id := timer];
      history := history + [Registered(id, timer)];
    }

    /** Unregistering: a timer found by its id is always found by its deadline, too. */
    method ClearTimer(id: nat)
      requires Valid()
      modifies this
      ensures Valid() && forall t <- byTime :: t in old(byTime)
      ensures table == old(table) - {id} && history == old(history) + [Cleared(id)]
      ensures nextTimerId == old(nextTimerId)
    {
      hide Distinct, SameTimers, ByDeadline, Lawful, Run, Erased, Faithful, Sorted;
      HistoryGrows(history, table, Cleared(id));
      if id !in byId {
        assert table - {id} == table;
        history := history + [Cleared(id)];
        return;
      }
      var t := byId[id];
      ghost var where := WhereTimer(byTime, byId, id);
      DifferentIds(byTime, byId, where);
      DeadlineOrder(byTime, table);
      var i := LowerBound(byTime, t.when);
      var end := UpperBound(byTime, t.when);
      IndexErase(byTime, byId, table, where);
      FaithfulErase(byTime, table, where);
      ErasedOnly(byTime, where);
      byId := byId - {id};
      while i < end
        invariant i <= where < end
      {
        if byTime[i] == t {
          SameIndex(byTime, i, where);
          byTime := Erased(byTime, i);
          table := table - {id};
          history := history + [Cleared(id)];
          return;
        }
        i := i + 1;
      }
      assert false;
    }

    /** A single-shot timer leaves both indexes before its callback runs. */
    method FireSingleShot(i: nat)
      requires Valid() && i < |byTime| && byTime[i].singleShot
      modifies this
      ensures Valid() && forall t <- byTime :: t in old(byTime)
      ensures table == Apply(old(table), Fired(old(byTime[i].id)))
      ensures history == old(history) + [Fired(old(byTime[i].id))]
    {
      hide Distinct, SameTimers, ByDeadline, Lawful, Run, Erased, Faithful, Sorted;
      var id := byTime[i].id;
      DifferentIds(byTime, byId, i);
      FaithfulHere(byTime, table, i);
      HistoryGrows(history, table, Fired(id));
      IndexErase(byTime, byId, table, i);
      FaithfulErase(byTime, table, i);
      ErasedOnly(byTime, i);
      byTime := Erased(byTime, i);
      byId := byId - {id};
      table := table - {id};
      history := history + [Fired(id)];
    }

    /** A repeating timer is taken out, moved on by its interval and put back before its callback runs. */
    method FireRepeating(i: nat, now: nat)
      requires Valid() && i < |byTime| && !byTime[i].singleShot && byTime[i].when <= now
      modifies this, byTime[i]
      ensures Valid() && forall t <- byTime :: t in old(byTime)
      ensures table == Apply(old(table), Fired(old(byTime[i].id)))
      ensures history == old(history) + [Fired(old(byTime[i].id))]
    {
      hide Distinct, SameTimers, ByDeadline, Lawful, Run, Erased, Inserted, Faithful, Sorted;
      var t := byTime[i];
      ghost var rest := table - {t.id};
      ghost var others := byId - {t.id};
      DifferentIds(byTime, byId, i);
      FaithfulHere(byTime, table, i);
      HistoryGrows(history, table, Fired(t.id));
      IndexErase(byTime, byId, table, i);
      FaithfulErase(byTime, table, i);
      ErasedOnly(byTime, i);
      EraseLeavesOut(byTime, i, t);
      byTime := Erased(byTime, i);
      var overtime := now - t.when;
      t.when := (now - overtime) + t.interval;
      assert Faithful(byTime, rest);
      DeadlineOrder(byTime, rest);
      var inserted, j;
      inserted, j := Insert(byTime, t);
      ghost var timer := Timer(t.when, t.interval, t.singleShot);
      DeadlinesAround(byTime, rest, j, t.when);
      FaithfulInsert(byTime, rest, j, t);
      IndexInsert(byTime, others, rest, j, t, timer);
      InsertedOnly(byTime, j, t);
      assert others[t.id := t] == byId;
      assert rest[t.id := timer] == table[t.id := timer];
      byTime := inserted;
      table := table[t.id := timer];
      history := history + [Fired(t.id)];
    }

    /** One request of a callback. */
    method Answer(now: nat, request: Request) returns (e: Event)
      requires Valid() && (request.Register? ==> now <= request.at)
      modifies this
      ensures Valid() && forall t <- byTime :: t in old(byTime) || fresh(t)
      ensures Answers([request], [e]) && !e.Fired?
      ensures RoundStep(old(table), {}, now, e)
      ensures table == Apply(old(table), e) && history == old(history) + [e]
    {
      hide Valid, Floor;
      match request
      case Register(at, timeout, singleShot) =>
        var id := RegisterTimer(at, timeout, singleShot);
        e := Registered(id, Timer(at + timeout, timeout, singleShot));
      case Unregister(id) =>
        ClearTimer(id);
        e := Cleared(id);
    }

    /** The requests one callback makes while the loop's lock is released. */
    method Callback(now: nat, requests: seq<Request>) returns (replies: seq<Event>)
      requires Valid() && NotBefore(now, requests)
      modifies this
      ensures Valid() && forall t <- byTime :: t in old(byTime) || fresh(t)
      ensures |replies| == |requests| && Answers(requests, replies)
      ensures Orderly(old(table), now, replies) && forall e <- replies :: !e.Fired?
      ensures table == Run(old(table), replies) && history == old(history) + replies
    {
      hide Valid, Orderly, Run, RoundStep, Answers, Apply, FiredIds;
      replies := [];
      OrderlyStart(table, now);
      AnswersNothing();
      for n := 0 to |requests|
        invariant Valid() && forall t <- byTime :: t in old(byTime) || fresh(t)
        invariant |replies| == n && Answers(requests[..n], replies)
        invariant Orderly(old(table), now, replies) && forall e <- replies :: !e.Fired?
        invariant table == Run(old(table), replies) && history == old(history) + replies
      {
        assert requests[n] in requests;
        var e := Answer(now, requests[n]);
        AnswersMore(requests, n, replies, e);
        NothingFired(replies);
        OrderlySnoc(old(table), now, replies, e);
        replies := replies + [e];
      }
      assert requests[..|requests|] == requests;
    }

    /** The first timer by deadline that has not fired in this round. */
    method FirstUnfired(fired: set<nat>) returns (i: nat)
      ensures i <= |byTime| && (i < |byTime| ==> byTime[i].id !in fired)
      ensures forall k :: 0 <= k < i ==> byTime[k].id in fired
    {
      i := 0;
      while i < |byTime| && byTime[i].id in fired
        invariant i <= |byTime|
        invariant forall k :: 0 <= k < i ==> byTime[k].id in fired
      {
        i := i + 1;
      }
    }

    lemma IsEarliest(i: nat, fired: set<nat>)
      requires Valid() && i < |byTime|
      requires forall k :: 0 <= k < i ==> byTime[k].id in fired
      ensures byTime[i].id in table && table[byTime[i].id].when == byTime[i].when
      ensures Floor(table, fired, byTime[i].when)
    {
      hide Floor, Indexed;
      EarliestUnfired(byTime, byId, table, fired, i);
    }

    lemma RoundOver(i: nat, now: nat, fired: set<nat>)
      requires Valid() && i <= |byTime|
      requires forall k :: 0 <= k < i ==> byTime[k].id in fired
      requires i < |byTime| ==> now < byTime[i].when
      ensures Settled(table, fired, now)
    {
      hide Settled, Indexed;
      NothingIsDue(byTime, byId, table, fired, i, now);
    }

    method Fire(i: nat, now: nat, ghost fired: set<nat>)
      requires Valid() && i < |byTime| && byTime[i].when <= now && byTime[i].id !in fired
      requires forall k :: 0 <= k < i ==> byTime[k].id in fired
      modifies this, byTime[i]
      ensures Valid() && forall t <- byTime :: t in old(byTime)
      ensures old(byTime[i].id) in old(table)
      ensures RoundStep(old(table), fired, now, Fired(old(byTime[i].id)))
      ensures table == Apply(old(table), Fired(old(byTime[i].id)))
      ensures history == old(history) + [Fired(old(byTime[i].id))]
    {
      hide Valid, Floor, Apply;
      assert RoundStep(table, fired, now, Fired(byTime[i].id)) by { IsEarliest(i, fired); }
      if byTime[i].singleShot {
        FireSingleShot(i);
      } else {
        FireRepeating(i, now);
      }
    }

    /** A timer fires and its callback runs. */
    method FireAndCall(i: nat, now: nat, ghost fired: set<nat>, requests: seq<Request>) returns (replies: seq<Event>)
      requires Valid() && i < |byTime| && byTime[i].when <= now && byTime[i].id !in fired
      requires forall k :: 0 <= k < i ==> byTime[k].id in fired
      requires NotBefore(now, requests)
      modifies this, byTime[i]
      ensures Valid() && forall t <- byTime :: t in old(byTime) || fresh(t)
      ensures old(byTime[i].id) in old(table)
      ensures RoundStep(old(table), fired, now, Fired(old(byTime[i].id)))
      ensures |replies| == |requests| && Answers(requests, replies) && forall e <- replies :: !e.Fired?
      ensures Orderly(Apply(old(table), Fired(old(byTime[i].id))), now, replies)
      ensures table == Run(Apply(old(table), Fired(old(byTime[i].id))), replies)
      ensures history == old(history) + [Fired(old(byTime[i].id))] + replies
    {
      hide *;
      Fire(i, now, fired);
      replies := Callback(now, requests);
    }

    /** One round at time `now`; the n-th callback it runs makes the requests `script[n]`. */
    method SendTimers(now: nat, script: seq<seq<Request>>) returns (any: bool, turns: seq<Turn>)
      requires Valid() && forall requests <- script :: NotBefore(now, requests)
      modifies this, byTime
      ensures Valid()
      ensures any == (turns != [])
      ensures forall k :: 0 <= k < |turns| ==> Answers(Asked(script, k), turns[k].replies)
      ensures table == Run(old(table), Log(turns)) && history == old(history) + Log(turns)
      ensures Orderly(old(table), now, Log(turns))
      ensures Settled(table, FiredIds(Log(turns)), now)
    {
      hide Valid, Orderly, Run, FiredIds, Log, Settled, Answers, NotBefore, RoundStep, Apply, Remaining;
      var fired := {};
      turns := [];
      ghost var events := [];
      OrderlyStart(table, now);
      while true
        invariant Valid() && forall t <- byTime :: t in old(byTime) || fresh(t)
        invariant fired == FiredIds(events) && (fired != {} <==> turns != [])
        invariant events == Log(turns)
        invariant forall k :: 0 <= k < |turns| ==> Answers(Asked(script, k), turns[k].replies)
        invariant table == Run(old(table), events) && history == old(history) + events
        invariant Orderly(old(table), now, events)
        decreases |table.Keys - fired| + Remaining(script, |turns|)
      {
        var i := FirstUnfired(fired);
        if i == |byTime| || byTime[i].when > now {
          RoundOver(i, now, fired);
          any := fired != {};
          return;
        }
        ghost var before := table;
        var id := byTime[i].id;
        assert byTime[i] in byTime;
        AskedLater(script, |turns|, now);
        var replies := FireAndCall(i, now, fired, Asked(script, |turns|));
        WaitingShrinks(before, id, fired);
        fired := fired + {id};
        WaitingGrowth(Apply(before, Fired(id)), replies, fired);
        RoundGoesOn(old(table), now, events, turns, id, replies);
        Regroup(old(history), events, [Fired(id)], replies);
        events := events + [Fired(id)] + replies;
        turns := turns + [Turn(id, replies)];
      }
    }
  }
}
