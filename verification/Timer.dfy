/** The deadline timer: a priority queue of one-shot and periodic tasks. */
module Timer {

  datatype Task = Task(id: nat, name: string, func: nat, priority: int, skippable: bool)

  /** Deadlines in nanoseconds, periods in milliseconds; a periodic id of zero means one-shot. */
  datatype Entry = Entry(task: Task, deadline: int, period: int, periodicId: nat)

  const NANOS_PER_MILLI := 1000000

  // ----- What happens to a due entry -----

  /** A skippable entry that is late by more than the threshold is dropped. */
  predicate Dropped(e: Entry, now: int, threshold: int) {
    e.task.skippable && (now - e.deadline) / NANOS_PER_MILLI > threshold
  }

  predicate Periodic(e: Entry) {
    e.period > 0 && e.periodicId != 0
  }

  /** The successor of a periodic entry: a fresh task of the same kind, one period after now. */
  function Rearmed(e: Entry, now: int, id: nat): Entry {
    Entry(e.task.(id := id), now + e.period * NANOS_PER_MILLI, e.period, e.periodicId)
  }

  /** The heap once one due entry has fired. */
  function Fired(heap: multiset<Entry>, e: Entry, now: int, threshold: int, id: nat): multiset<Entry> {
    if !Dropped(e, now, threshold) && Periodic(e) then heap - multiset{e} + multiset{Rearmed(e, now, id)}
    else heap - multiset{e}
  }

  /** The tasks of a series of due entries that are handed out. */
  function Returned(due: seq<Entry>, now: int, threshold: int): seq<Task> {
    if due == [] then []
    else
      var e := due[|due| - 1];
      Returned(due[..|due| - 1], now, threshold) + if Dropped(e, now, threshold) then [] else [e.task]
  }

  /** The late entries of a series that are only logged. */
  function Skipped(due: seq<Entry>, now: int, threshold: int): seq<Entry> {
    if due == [] then []
    else
      var e := due[|due| - 1];
      Skipped(due[..|due| - 1], now, threshold) + if Dropped(e, now, threshold) then [e] else []
  }

  /** Successors of the periodic entries that are handed out; their tasks are numbered from id on. */
  function Successors(due: seq<Entry>, now: int, threshold: int, id: nat): seq<Entry> {
    if due == [] then []
    else
      var e := due[|due| - 1];
      var before := Successors(due[..|due| - 1], now, threshold, id);
      before + if !Dropped(e, now, threshold) && Periodic(e) then [Rearmed(e, now, id + |before|)] else []
  }

  predicate Sorted(due: seq<Entry>) {
    forall i, j :: 0 <= i < j < |due| ==> due[i].deadline <= due[j].deadline
  }

  /** due is everything in the heap with a deadline up to now, in deadline order. */
  ghost predicate DueIn(due: seq<Entry>, heap: multiset<Entry>, now: int) {
    && multiset(due) <= heap && Sorted(due)
    && (forall e :: e in multiset(due) ==> e.deadline <= now)
    && (forall e :: e in heap - multiset(due) ==> e.deadline > now)
  }

  lemma SuccessorsLater(due: seq<Entry>, now: int, threshold: int, id: nat)
    ensures forall e :: e in Successors(due, now, threshold, id) ==> e.deadline > now
  {
    if due != [] {
      SuccessorsLater(due[..|due| - 1], now, threshold, id);
    }
  }

  /** Every due entry is either handed out or skipped, and successors belong to entries handed out. */
  lemma {:induction false} Partitioned(due: seq<Entry>, now: int, threshold: int, id: nat)
    ensures |Returned(due, now, threshold)| + |Skipped(due, now, threshold)| == |due|
    ensures |Successors(due, now, threshold, id)| <= |Returned(due, now, threshold)|
    ensures forall e :: e in Skipped(due, now, threshold) <==> e in due && Dropped(e, now, threshold)
  {
    if due != [] {
      var rest, e := due[..|due| - 1], due[|due| - 1];
      assert due == rest + [e];
      Partitioned(rest, now, threshold, id);
    }
  }

  lemma SeriesStep(due: seq<Entry>, e: Entry, now: int, threshold: int, id: nat)
    ensures Returned(due + [e], now, threshold)
         == Returned(due, now, threshold) + if Dropped(e, now, threshold) then [] else [e.task]
    ensures Skipped(due + [e], now, threshold)
         == Skipped(due, now, threshold) + if Dropped(e, now, threshold) then [e] else []
    ensures var before := Successors(due, now, threshold, id);
      Successors(due + [e], now, threshold, id)
      == before + if !Dropped(e, now, threshold) && Periodic(e) then [Rearmed(e, now, id + |before|)] else []
  {
    assert (due + [e])[..|due + [e]| - 1] == due;
  }

  // ----- Runs -----

  /** One call of the timer: an entry is scheduled, what is due is taken (in some order), or an entry is cancelled. */
  datatype Event = Schedule(e: Entry) | Poll(now: int, due: seq<Entry>, id: nat) | Cancel(e: Entry)

  function Next(heap: multiset<Entry>, ev: Event, threshold: int): multiset<Entry> {
    match ev
    case Schedule(e) => heap + multiset{e}
    case Poll(now, due, id) => heap - multiset(due) + multiset(Successors(due, now, threshold, id))
    case Cancel(e) => heap - multiset{e}
  }

  function Run(events: seq<Event>, threshold: int): multiset<Entry> {
    if events == [] then multiset{}
    else Next(Run(events[..|events| - 1], threshold), events[|events| - 1], threshold)
  }

  ghost predicate Scheduled(events: seq<Event>, p: nat) {
    exists k :: 0 <= k < |events| && events[k].Schedule? && events[k].e.periodicId == p
  }

  /** Polls take exactly what is due, cancelling takes what is there, and no periodic id is given out twice. */
  ghost predicate Feasible(events: seq<Event>, threshold: int) {
    events == []
    || (var before, ev := events[..|events| - 1], events[|events| - 1];
        && Feasible(before, threshold)
        && match ev
           case Schedule(e) => e.periodicId == 0 || !Scheduled(before, e.periodicId)
           case Poll(now, due, _) => DueIn(due, Run(before, threshold), now)
           case Cancel(e) => e in Run(before, threshold))
  }

  /** A periodic task on its own, as if it were alone in the timer. */
  datatype Alone = Gone | Waiting(deadline: int, period: int, skippable: bool)

  function Of(e: Entry): Alone {
    Waiting(e.deadline, e.period, e.task.skippable)
  }

  function Polled(a: Alone, now: int, threshold: int): Alone {
    if a.Gone? || a.deadline > now then a
    else if a.skippable && (now - a.deadline) / NANOS_PER_MILLI > threshold then Gone
    else if a.period > 0 then a.(deadline := now + a.period * NANOS_PER_MILLI)
    else Gone
  }

  /** What one call does to a periodic task alone; other entries do not matter, nor does the order of what is due. */
  function Fare(a: Alone, ev: Event, p: nat, threshold: int): Alone {
    match ev
    case Schedule(e) => if e.periodicId == p then Of(e) else a
    case Poll(now, _, _) => Polled(a, now, threshold)
    case Cancel(e) => if e.periodicId == p then Gone else a
  }

  function Track(events: seq<Event>, p: nat, threshold: int): Alone {
    if events == [] then Gone
    else Fare(Track(events[..|events| - 1], p, threshold), events[|events| - 1], p, threshold)
  }

  /** e is the only entry of its periodic id, and is there once. */
  ghost predicate Only(heap: multiset<Entry>, e: Entry) {
    heap[e] == 1 && forall f :: f in heap && f.periodicId == e.periodicId ==> f == e
  }

  ghost predicate Absent(heap: multiset<Entry>, p: nat) {
    forall e :: e in heap ==> e.periodicId != p
  }

  /** The heap holds what becomes of the id alone: one entry just like it, or none. */
  ghost predicate Holds(heap: multiset<Entry>, p: nat, a: Alone) {
    if a.Gone? then Absent(heap, p)
    else exists e :: e in heap && e.periodicId == p && Only(heap, e) && Of(e) == a
  }

  ghost predicate HoldsIn(s: seq<Entry>, p: nat, a: Alone) {
    Holds(multiset(s), p, a)
  }

  ghost predicate OnlyIn(s: seq<Entry>, e: Entry) {
    Only(multiset(s), e)
  }

  ghost predicate AbsentIn(s: seq<Entry>, p: nat) {
    Absent(multiset(s), p)
  }

  lemma {:induction false} NoSuccessor(due: seq<Entry>, now: int, threshold: int, id: nat, p: nat)
    requires AbsentIn(due, p)
    ensures AbsentIn(Successors(due, now, threshold, id), p)
  {
    if due != [] {
      var rest, e := due[..|due| - 1], due[|due| - 1];
      assert due == rest + [e];
      assert e in multiset(due);
      NoSuccessor(rest, now, threshold, id, p);
    }
  }

  /** The last of some entries is the only one of an id, or leaves it among the others. */
  lemma OnlyRest(rest: seq<Entry>, last: Entry, e: Entry)
    requires OnlyIn(rest + [last], e)
    ensures if last == e then AbsentIn(rest, e.periodicId)
            else OnlyIn(rest, e) && last.periodicId != e.periodicId
  {
    var due := rest + [last];
    assert multiset(due) == multiset(rest) + multiset{last};
    assert last in multiset(due);
    forall f: Entry | f in multiset(rest) ensures f in multiset(due) {}
  }

  lemma SomeEntry(due: seq<Entry>, e: Entry)
    requires OnlyIn(due, e)
    ensures due != []
  {}

  /** A due entry that is the only one of its id has one successor, if any. */
  lemma {:induction false} OneSuccessor(due: seq<Entry>, now: int, threshold: int, id: nat, e: Entry)
    requires OnlyIn(due, e) && e.periodicId != 0 && e.deadline <= now
    ensures HoldsIn(Successors(due, now, threshold, id), e.periodicId, Polled(Of(e), now, threshold))
  {
    hide Successors, HoldsIn, OnlyIn, AbsentIn, Polled;
    SomeEntry(due, e);
    var rest, last := due[..|due| - 1], due[|due| - 1];
    assert due == rest + [last];
    OnlyRest(rest, last, e);
    if last == e {
      NoSuccessor(rest, now, threshold, id, e.periodicId);
      OwnSuccessor(rest, now, threshold, id, e);
    } else {
      OneSuccessor(rest, now, threshold, id, e);
      OtherSuccessor(rest, last, now, threshold, id, e.periodicId, Polled(Of(e), now, threshold));
    }
  }

  lemma OwnSuccessor(rest: seq<Entry>, now: int, threshold: int, id: nat, e: Entry)
    requires e.periodicId != 0 && e.deadline <= now
    requires AbsentIn(Successors(rest, now, threshold, id), e.periodicId)
    ensures HoldsIn(Successors(rest + [e], now, threshold, id), e.periodicId, Polled(Of(e), now, threshold))
  {
    hide Holds, Successors, Returned, Skipped;
    SeriesStep(rest, e, now, threshold, id);
    var before := Successors(rest, now, threshold, id);
    if !Dropped(e, now, threshold) && Periodic(e) {
      var f := Rearmed(e, now, id + |before|);
      AddOnly(multiset(before), f);
      assert multiset(before + [f]) == multiset(before) + multiset{f};
    } else {
      assert before + [] == before;
      AbsentHolds(multiset(before), e.periodicId);
    }
  }

  lemma OtherSuccessor(rest: seq<Entry>, e: Entry, now: int, threshold: int, id: nat, p: nat, a: Alone)
    requires HoldsIn(Successors(rest, now, threshold, id), p, a) && e.periodicId != p
    ensures HoldsIn(Successors(rest + [e], now, threshold, id), p, a)
  {
    hide Holds, Dropped, Periodic, Successors, Returned, Skipped;
    SeriesStep(rest, e, now, threshold, id);
    var before := Successors(rest, now, threshold, id);
    if !Dropped(e, now, threshold) && Periodic(e) {
      var f := Rearmed(e, now, id + |before|);
      AddOther(multiset(before), f, p, a);
      assert multiset(before + [f]) == multiset(before) + multiset{f};
    } else {
      assert before + [] == before;
    }
  }

  lemma AbsentHolds(heap: multiset<Entry>, p: nat)
    ensures Holds(heap, p, Gone) <==> Absent(heap, p)
  {}

  lemma AddOnly(heap: multiset<Entry>, e: Entry)
    requires Absent(heap, e.periodicId)
    ensures Holds(heap + multiset{e}, e.periodicId, Of(e))
  {
    assert Only(heap + multiset{e}, e);
  }

  lemma AddOther(heap: multiset<Entry>, f: Entry, p: nat, a: Alone)
    requires Holds(heap, p, a) && f.periodicId != p
    ensures Holds(heap + multiset{f}, p, a)
  {
    if a.Waiting? {
      var e :| e in heap && e.periodicId == p && Only(heap, e) && Of(e) == a;
      assert Only(heap + multiset{f}, e);
    }
  }

  lemma CancelHolds(heap: multiset<Entry>, f: Entry, p: nat, a: Alone)
    requires Holds(heap, p, a) && f in heap
    ensures Holds(heap - multiset{f}, p, if f.periodicId == p then Gone else a)
  {
    if a.Waiting? {
      var e :| e in heap && e.periodicId == p && Only(heap, e) && Of(e) == a;
      if f.periodicId != p {
        assert Only(heap - multiset{f}, e);
      } else {
        assert f == e;
      }
    }
  }

  lemma JoinAbsent(heap: multiset<Entry>, more: multiset<Entry>, p: nat, a: Alone)
    ensures Holds(heap, p, a) && Absent(more, p) ==> Holds(heap + more, p, a)
    ensures Absent(heap, p) && Holds(more, p, a) ==> Holds(heap + more, p, a)
  {
    if a.Waiting? && Holds(heap, p, a) && Absent(more, p) {
      var e :| e in heap && e.periodicId == p && Only(heap, e) && Of(e) == a;
      assert Only(heap + more, e);
    }
    if a.Waiting? && Absent(heap, p) && Holds(more, p, a) {
      var e :| e in more && e.periodicId == p && Only(more, e) && Of(e) == a;
      assert Only(heap + more, e);
    }
  }

  lemma PollHolds(heap: multiset<Entry>, due: seq<Entry>, now: int, threshold: int, id: nat, p: nat, a: Alone)
    requires Holds(heap, p, a) && DueIn(due, heap, now) && p != 0
    ensures Holds(Next(heap, Poll(now, due, id), threshold), p, Polled(a, now, threshold))
  {
    hide Successors;
    var left, taken, more := heap - multiset(due), multiset(due), multiset(Successors(due, now, threshold, id));
    if a.Gone? {
      assert Absent(taken, p);
      NoSuccessor(due, now, threshold, id, p);
    } else {
      var e :| e in heap && e.periodicId == p && Only(heap, e) && Of(e) == a;
      if e.deadline > now {
        assert e !in taken;
        assert Absent(taken, p);
        NoSuccessor(due, now, threshold, id, p);
        assert Only(left, e);
        JoinAbsent(left, more, p, a);
      } else {
        assert e !in left && taken[e] == 1;
        assert Absent(left, p) && Only(taken, e);
        OneSuccessor(due, now, threshold, id, e);
        JoinAbsent(left, more, p, Polled(a, now, threshold));
      }
    }
  }

  lemma EventHolds(heap: multiset<Entry>, ev: Event, threshold: int, p: nat, a: Alone)
    requires Holds(heap, p, a) && p != 0
    requires match ev
             case Schedule(e) => e.periodicId == p ==> a.Gone?
             case Poll(now, due, _) => DueIn(due, heap, now)
             case Cancel(e) => e in heap
    ensures Holds(Next(heap, ev, threshold), p, Fare(a, ev, p, threshold))
    ensures a.Gone? && !(ev.Schedule? && ev.e.periodicId == p) ==> Fare(a, ev, p, threshold).Gone?
  {
    hide Holds, Successors, Polled, DueIn;
    match ev {
      case Schedule(e) =>
        if e.periodicId == p {
          AbsentHolds(heap, p);
          AddOnly(heap, e);
        } else {
          AddOther(heap, e, p, a);
        }
      case Poll(now, due, id) =>
        PollHolds(heap, due, now, threshold, id, p, a);
        GoneStays(now, threshold);
      case Cancel(e) =>
        CancelHolds(heap, e, p, a);
    }
  }

  /**
   * Over every run each periodic task fares as it would alone: there is at most one entry of its id, at the deadline it
   * would have alone, whatever else the timer holds and in whatever order due entries are taken.
   */
  lemma {:induction false} TrackedAlone(events: seq<Event>, threshold: int, p: nat)
    requires Feasible(events, threshold) && p != 0
    ensures Holds(Run(events, threshold), p, Track(events, p, threshold))
    ensures !Scheduled(events, p) ==> Track(events, p, threshold).Gone?
  {
    hide Holds, Successors, Scheduled, Polled;
    if events == [] {
      AbsentHolds(multiset{}, p);
      assert !Scheduled([], p) by { NotYet(p); }
    } else {
      var before, ev := events[..|events| - 1], events[|events| - 1];
      TrackedAlone(before, threshold, p);
      ScheduledStep(before, ev, p);
      assert before + [ev] == events;
      EventHolds(Run(before, threshold), ev, threshold, p, Track(before, p, threshold));
    }
  }

  lemma GoneStays(now: int, threshold: int)
    ensures Polled(Gone, now, threshold) == Gone
  {}

  lemma NotYet(p: nat)
    ensures !Scheduled([], p)
  {}

  lemma ScheduledStep(before: seq<Event>, ev: Event, p: nat)
    ensures Scheduled(before + [ev], p) <==> Scheduled(before, p) || (ev.Schedule? && ev.e.periodicId == p)
  {
    var events := before + [ev];
    if Scheduled(before, p) {
      var k :| 0 <= k < |before| && before[k].Schedule? && before[k].e.periodicId == p;
      assert events[k] == before[k];
    }
    assert events[|before|] == ev;
  }

  /** The k-th call takes the id out of the timer: a cancellation, or a poll that drops or does not re-arm its entry. */
  ghost predicate Loses(events: seq<Event>, threshold: int, k: nat, p: nat)
    requires k < |events|
  {
    match events[k]
    case Schedule(_) => false
    case Cancel(e) => e.periodicId == p
    case Poll(now, _, _) =>
      exists e :: e in Run(events[..k], threshold) && e.periodicId == p && e.deadline <= now
                  && (Dropped(e, now, threshold) || e.period <= 0)
  }

  /**
   * A periodic id is in the timer if and only if it was scheduled, never cancelled, and no poll found its entry due,
   * skippable and later than the threshold (or due and without a period): one late poll ends a skippable periodic task.
   */
  lemma {:induction false} PresentExactly(events: seq<Event>, threshold: int, p: nat)
    requires Feasible(events, threshold) && p != 0
    ensures !Absent(Run(events, threshold), p)
            <==> Scheduled(events, p) && forall k | 0 <= k < |events| :: !Loses(events, threshold, k, p)
  {
    TrackedAlone(events, threshold, p);
    WaitingExactly(events, threshold, p);
    AbsentHolds(Run(events, threshold), p);
    HoldsPresent(Run(events, threshold), p, Track(events, p, threshold));
    hide Run, Scheduled, Loses, Absent, Holds, Track, Feasible;
  }

  lemma HoldsPresent(heap: multiset<Entry>, p: nat, a: Alone)
    requires Holds(heap, p, a)
    ensures a.Waiting? <==> !Absent(heap, p)
  {}

  lemma {:induction false} WaitingExactly(events: seq<Event>, threshold: int, p: nat)
    requires Feasible(events, threshold) && p != 0
    ensures Track(events, p, threshold).Waiting?
            <==> Scheduled(events, p) && forall k | 0 <= k < |events| :: !Loses(events, threshold, k, p)
    ensures !Scheduled(events, p) ==> forall k | 0 <= k < |events| :: !Loses(events, threshold, k, p)
  {
    hide Holds, Successors, Scheduled, Polled, DueIn, Loses, Run;
    if events == [] {
      NotYet(p);
    } else {
      var n := |events| - 1;
      var before, ev := events[..n], events[n];
      assert before + [ev] == events;
      WaitingExactly(before, threshold, p);
      TrackedAlone(before, threshold, p);
      ScheduledStep(before, ev, p);
      LosesLast(events, threshold, p);
      forall k | 0 <= k < n ensures Loses(events, threshold, k, p) <==> Loses(before, threshold, k, p) {
        LosesBefore(events, threshold, k, p);
      }
      if ev.Poll? {
        GoneStays(ev.now, threshold);
      }
    }
  }

  lemma LosesBefore(events: seq<Event>, threshold: int, k: nat, p: nat)
    requires k < |events| - 1
    ensures Loses(events, threshold, k, p) <==> Loses(events[..|events| - 1], threshold, k, p)
  {
    assert events[..|events| - 1][..k] == events[..k];
  }

  /** A call loses the id exactly if it would end it alone. */
  lemma LosesLast(events: seq<Event>, threshold: int, p: nat)
    requires events != [] && p != 0 && Feasible(events, threshold)
    ensures var before := events[..|events| - 1];
            Loses(events, threshold, |events| - 1, p)
            <==> Track(before, p, threshold).Waiting? && Track(events, p, threshold).Gone?
  {
    var before, ev := events[..|events| - 1], events[|events| - 1];
    TrackedAlone(before, threshold, p);
    var heap, a := Run(before, threshold), Track(before, p, threshold);
    HoldsPresent(heap, p, a);
    if a.Waiting? && ev.Poll? {
      var e :| e in heap && e.periodicId == p && Only(heap, e) && Of(e) == a;
    }
  }

  lemma {:induction false} EarliestExists(heap: multiset<Entry>)
    requires heap != multiset{}
    ensures exists e :: e in heap && forall f :: f in heap ==> e.deadline <= f.deadline
    decreases |heap|
  {
    var x :| x in heap;
    var rest := heap - multiset{x};
    forall f | f in heap
      ensures f == x || f in rest
    {}
    if rest != multiset{} {
      EarliestExists(rest);
      var m :| m in rest && forall f :: f in rest ==> m.deadline <= f.deadline;
      Earlier(heap, if m.deadline < x.deadline then m else x);
    } else {
      Earlier(heap, x);
    }
  }

  lemma Earlier(heap: multiset<Entry>, e: Entry)
    requires e in heap && forall f :: f in heap ==> e.deadline <= f.deadline
    ensures exists e :: e in heap && forall f :: f in heap ==> e.deadline <= f.deadline
  {}

  class PriorityTimer {
    var heap: multiset<Entry>
    var nextId: nat
    const skipThreshold: int

    constructor (threshold: int)
      ensures heap == multiset{} && skipThreshold == threshold
    {
      heap, nextId, skipThreshold := multiset{}, 1, threshold;
    }

    method ScheduleAt(task: Task, deadline: int)
      modifies this`heap
      ensures heap == Next(old(heap), Schedule(Entry(task, deadline, 0, 0)), skipThreshold)
    {
      heap := heap + multiset{Entry(task, deadline, 0, 0)};
    }

    method SchedulePeriodic(task: Task, period: int, periodicId: nat, now: int)
      modifies this`heap
      ensures var e := Entry(task, now + period * NANOS_PER_MILLI, period, periodicId);
              heap == Next(old(heap), Schedule(e), skipThreshold)
    {
      heap := heap + multiset{Entry(task, now + period * NANOS_PER_MILLI, period, periodicId)};
    }

    /** The top of the priority queue; ties may come in any order. */
    method Top() returns (e: Entry)
      requires heap != multiset{}
      ensures e in heap && forall f :: f in heap ==> e.deadline <= f.deadline
    {
      EarliestExists(heap);
      e :| e in heap && forall f :: f in heap ==> e.deadline <= f.deadline;
    }

    /** Pops a due entry and re-arms it if it is periodic and not dropped. */
    method Fire(e: Entry, now: int) returns (dropped: bool)
      requires e in heap
      modifies this`heap, this`nextId
      ensures dropped == Dropped(e, now, skipThreshold)
      ensures heap == Fired(old(heap), e, now, skipThreshold, old(nextId))
      ensures nextId == if !dropped && Periodic(e) then old(nextId) + 1 else old(nextId)
    {
      hide Rearmed;
      heap := heap - multiset{e};
      dropped := Dropped(e, now, skipThreshold);
      if !dropped && Periodic(e) {
        heap := heap + multiset{Rearmed(e, now, nextId)};
        nextId := nextId + 1;
      }
    }

    /**
     * Pops everything due. The tasks come in deadline order, periodic ones are re-armed at now plus their period, and
     * what was not due is left alone.
     */
    method GetExpiredTasks(now: int) returns (tasks: seq<Task>, skipped: seq<Entry>, ghost due: seq<Entry>)
      modifies this`heap, this`nextId
      ensures DueIn(due, old(heap), now)
      ensures tasks == Returned(due, now, skipThreshold) && skipped == Skipped(due, now, skipThreshold)
      ensures heap == Next(old(heap), Poll(now, due, old(nextId)), skipThreshold)
      ensures nextId == old(nextId) + |Successors(due, now, skipThreshold, old(nextId))|
      ensures forall e :: e in heap ==> e.deadline > now
    {
      hide Returned, Skipped, Successors, Fired, Progress, DueIn, Dropped, Periodic;
      tasks, skipped, due := [], [], [];
      ghost var all, left, id := heap, heap, nextId;
      NothingTaken(all, now, skipThreshold, id);
      while heap != multiset{}
        invariant Progress(all, due, left, heap, now, skipThreshold, id)
        invariant nextId == id + |Successors(due, now, skipThreshold, id)|
        invariant tasks == Returned(due, now, skipThreshold) && skipped == Skipped(due, now, skipThreshold)
        decreases |left|
      {
        var e := Top();
        if e.deadline > now {
          break;
        }
        TakeTop(all, due, left, heap, e, now, skipThreshold, id);
        due, left := due + [e], left - multiset{e};
        var dropped := Fire(e, now);
        if dropped {
          skipped := skipped + [e];
        } else {
          tasks := tasks + [e.task];
        }
      }
      ProgressEnds(all, due, left, heap, now, skipThreshold, id);
    }

    /** Removes the earliest of the entries in question, if there is one. */
    method EraseFirst(which: Entry -> bool) returns (found: bool)
      modifies this`heap
      ensures found <==> exists e :: e in old(heap) && which(e)
      ensures found ==> exists e :: e in old(heap) && which(e)
                                    && heap == Next(old(heap), Event.Cancel(e), skipThreshold)
                                    && forall f :: f in old(heap) && which(f) ==> e.deadline <= f.deadline
      ensures !found ==> heap == old(heap)
    {
      hide Sorted;
      var entries := Unheap(heap);
      ghost var all := heap;
      var i := 0;
      while i < |entries| && !which(entries[i])
        invariant i <= |entries| && forall j :: 0 <= j < i ==> !which(entries[j])
      {
        i := i + 1;
      }
      found := i < |entries|;
      ListedAll(entries, all);
      if found {
        FirstMatch(entries, i, all);
        heap := multiset(entries[..i] + entries[i + 1..]);
      }
    }

    method Cancel(taskId: nat) returns (found: bool)
      modifies this`heap
      ensures found <==> exists e :: e in old(heap) && e.task.id == taskId
      ensures found ==> exists e :: e in old(heap) && e.task.id == taskId
                                    && heap == Next(old(heap), Event.Cancel(e), skipThreshold)
                                    && forall f :: f in old(heap) && f.task.id == taskId ==> e.deadline <= f.deadline
      ensures !found ==> heap == old(heap)
    {
      found := EraseFirst((e: Entry) => e.task.id == taskId);
    }

    method CancelPeriodic(periodicId: nat) returns (found: bool)
      modifies this`heap
      ensures found <==> exists e :: e in old(heap) && e.periodicId == periodicId
      ensures found ==> exists e :: e in old(heap) && e.periodicId == periodicId
                                    && heap == Next(old(heap), Event.Cancel(e), skipThreshold)
                                    && forall f :: f in old(heap) && f.periodicId == periodicId
                                                   ==> e.deadline <= f.deadline
      ensures !found ==> heap == old(heap)
    {
      found := EraseFirst((e: Entry) => e.periodicId == periodicId);
    }
  }

  lemma ListedAll(entries: seq<Entry>, all: multiset<Entry>)
    requires multiset(entries) == all
    ensures forall e :: e in all ==> e in entries
  {}

  lemma FirstMatch(entries: seq<Entry>, i: nat, all: multiset<Entry>)
    requires i < |entries| && multiset(entries) == all && Sorted(entries)
    ensures entries[i] in all && multiset(entries[..i] + entries[i + 1..]) == all - multiset{entries[i]}
    ensures forall f :: f in all ==> f in entries[..i] || entries[i].deadline <= f.deadline
  {
    assert entries == entries[..i] + [entries[i]] + entries[i + 1..];
    forall f | f in all
      ensures f in entries[..i] || entries[i].deadline <= f.deadline
    {
      assert f in entries;
    }
  }

  /** entries have been popped from the heap in order, and left is the rest. */
  ghost predicate Popped(heap: multiset<Entry>, entries: seq<Entry>, left: multiset<Entry>) {
    && multiset(entries) + left == heap && Sorted(entries)
    && forall i, f :: 0 <= i < |entries| && f in left ==> entries[i].deadline <= f.deadline
  }

  /** The heap in the order it is popped. */
  method Unheap(heap: multiset<Entry>) returns (entries: seq<Entry>)
    ensures multiset(entries) == heap && Sorted(entries)
  {
    hide Popped, Sorted;
    var left := heap;
    entries := [];
    NonePopped(heap);
    while left != multiset{}
      invariant Popped(heap, entries, left)
      decreases |left|
    {
      EarliestExists(left);
      var e :| e in left && forall f :: f in left ==> e.deadline <= f.deadline;
      PopOne(heap, entries, left, e);
      entries := entries + [e];
      left := left - multiset{e};
    }
    AllPopped(heap, entries);
  }

  lemma NonePopped(heap: multiset<Entry>)
    ensures Popped(heap, [], heap)
  {}

  lemma AllPopped(heap: multiset<Entry>, entries: seq<Entry>)
    requires Popped(heap, entries, multiset{})
    ensures multiset(entries) == heap && Sorted(entries)
  {}

  lemma PopOne(heap: multiset<Entry>, entries: seq<Entry>, left: multiset<Entry>, e: Entry)
    requires Popped(heap, entries, left) && e in left && forall f :: f in left ==> e.deadline <= f.deadline
    ensures Popped(heap, entries + [e], left - multiset{e}) && |left - multiset{e}| < |left|
  {
    assert multiset(entries + [e]) == multiset(entries) + multiset{e};
    assert forall f :: f in left - multiset{e} ==> f in left;
  }

  /** The heap holds what is left of the old entries, and the successors made so far. */
  ghost predicate Queue(heap: multiset<Entry>, left: multiset<Entry>, rearmed: seq<Entry>) {
    heap == left + multiset(rearmed)
  }

  /** What is left in the heap, apart from the successors of what was taken. */
  ghost predicate Progress(all: multiset<Entry>, due: seq<Entry>, left: multiset<Entry>, heap: multiset<Entry>,
                           now: int, threshold: int, id: nat)
  {
    Taken(all, due, left, now) && Queue(heap, left, Successors(due, now, threshold, id))
  }

  /** Taking the top of the heap off, when it is due: what the outputs and the heap become. */
  lemma TakeTop(all: multiset<Entry>, due: seq<Entry>, left: multiset<Entry>, heap: multiset<Entry>, e: Entry, now: int,
                threshold: int, id: nat)
    requires Progress(all, due, left, heap, now, threshold, id) && e in heap && e.deadline <= now
    requires forall f :: f in heap ==> e.deadline <= f.deadline
    ensures |left - multiset{e}| < |left|
    ensures var before, after := Successors(due, now, threshold, id), Successors(due + [e], now, threshold, id);
            && |after| == |before| + (if !Dropped(e, now, threshold) && Periodic(e) then 1 else 0)
            && Progress(all, due + [e], left - multiset{e}, Fired(heap, e, now, threshold, id + |before|), now,
                        threshold, id)
    ensures Returned(due + [e], now, threshold)
         == if Dropped(e, now, threshold) then Returned(due, now, threshold)
            else Returned(due, now, threshold) + [e.task]
    ensures Skipped(due + [e], now, threshold)
         == if Dropped(e, now, threshold) then Skipped(due, now, threshold) + [e] else Skipped(due, now, threshold)
  {
    hide Returned, Skipped, Successors, Dropped, Periodic, Rearmed, Taken, Queue, Fired;
    var before, after := Successors(due, now, threshold, id), Successors(due + [e], now, threshold, id);
    SuccessorsLater(due, now, threshold, id);
    QueueTop(heap, left, before, e, now);
    TakeOne(all, due, left, e, now);
    SeriesStep(due, e, now, threshold, id);
    QueueFires(heap, left, before, after, e, now, threshold, id + |before|);
  }

  lemma QueueFires(heap: multiset<Entry>, left: multiset<Entry>, before: seq<Entry>, after: seq<Entry>, e: Entry,
                   now: int, threshold: int, id: nat)
    requires Queue(heap, left, before) && e in left
    requires after == before + if !Dropped(e, now, threshold) && Periodic(e) then [Rearmed(e, now, id)] else []
    ensures Queue(Fired(heap, e, now, threshold, id), left - multiset{e}, after)
  {
    hide Dropped, Periodic, Rearmed, Queue;
    QueueStep(heap, left, before, e, Rearmed(e, now, id));
    if Dropped(e, now, threshold) || !Periodic(e) {
      assert after == before;
    }
  }

  lemma ProgressEnds(all: multiset<Entry>, due: seq<Entry>, left: multiset<Entry>, heap: multiset<Entry>, now: int,
                     threshold: int, id: nat)
    requires Progress(all, due, left, heap, now, threshold, id)
    requires heap == multiset{} || exists e :: e in heap && e.deadline > now
                                               && forall f :: f in heap ==> e.deadline <= f.deadline
    ensures DueIn(due, all, now) && heap == Next(all, Poll(now, due, id), threshold)
    ensures forall e :: e in heap ==> e.deadline > now
  {
    hide Successors, Taken, Queue, DueIn;
    SuccessorsLater(due, now, threshold, id);
    QueueEnd(all, due, heap, left, Successors(due, now, threshold, id), now);
  }

  lemma QueueTop(heap: multiset<Entry>, left: multiset<Entry>, rearmed: seq<Entry>, e: Entry, now: int)
    requires Queue(heap, left, rearmed) && e in heap && e.deadline <= now
    requires forall f :: f in rearmed ==> f.deadline > now
    requires forall f :: f in heap ==> e.deadline <= f.deadline
    ensures e in left && (forall f :: f in left ==> e.deadline <= f.deadline) && |left - multiset{e}| < |left|
  {
    assert e !in multiset(rearmed);
    assert forall f :: f in left ==> f in heap;
  }

  lemma QueueStep(heap: multiset<Entry>, left: multiset<Entry>, rearmed: seq<Entry>, e: Entry, next: Entry)
    requires Queue(heap, left, rearmed) && e in left
    ensures Queue(heap - multiset{e}, left - multiset{e}, rearmed)
    ensures Queue(heap - multiset{e} + multiset{next}, left - multiset{e}, rearmed + [next])
  {
    assert multiset(rearmed + [next]) == multiset(rearmed) + multiset{next};
  }

  lemma QueueEnd(all: multiset<Entry>, due: seq<Entry>, heap: multiset<Entry>, left: multiset<Entry>,
                 rearmed: seq<Entry>, now: int)
    requires Taken(all, due, left, now) && Queue(heap, left, rearmed)
    requires heap == multiset{} || exists e :: e in heap && e.deadline > now
                                               && forall f :: f in heap ==> e.deadline <= f.deadline
    requires forall f :: f in rearmed ==> f.deadline > now
    ensures DueIn(due, all, now) && heap == all - multiset(due) + multiset(rearmed)
    ensures forall e :: e in heap ==> e.deadline > now
  {
    assert forall f :: f in left ==> f in heap;
    TakenIsDue(all, due, left, now);
  }

  /** due has been taken from all in deadline order, and left is the rest. */
  ghost predicate Taken(all: multiset<Entry>, due: seq<Entry>, left: multiset<Entry>, now: int) {
    && all == left + multiset(due) && Sorted(due)
    && (forall e :: e in multiset(due) ==> e.deadline <= now)
    && (forall i, e :: 0 <= i < |due| && e in left ==> due[i].deadline <= e.deadline)
  }

  lemma NothingTaken(all: multiset<Entry>, now: int, threshold: int, id: nat)
    ensures Progress(all, [], all, all, now, threshold, id)
    ensures Returned([], now, threshold) == [] && Skipped([], now, threshold) == []
            && Successors([], now, threshold, id) == []
  {}

  lemma TakeOne(all: multiset<Entry>, due: seq<Entry>, left: multiset<Entry>, e: Entry, now: int)
    requires Taken(all, due, left, now) && e in left && e.deadline <= now
    requires forall f :: f in left ==> e.deadline <= f.deadline
    ensures Taken(all, due + [e], left - multiset{e}, now)
  {
    assert multiset(due + [e]) == multiset(due) + multiset{e};
    assert left == left - multiset{e} + multiset{e};
    forall i, f | 0 <= i < |due + [e]| && f in left - multiset{e}
      ensures (due + [e])[i].deadline <= f.deadline
    {
      assert f in left;
    }
  }

  lemma TakenIsDue(all: multiset<Entry>, due: seq<Entry>, left: multiset<Entry>, now: int)
    requires Taken(all, due, left, now) && forall e :: e in left ==> e.deadline > now
    ensures DueIn(due, all, now) && all - multiset(due) == left
  {}
}
