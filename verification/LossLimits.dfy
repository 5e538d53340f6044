/** How far acknowledgement safety reaches: each of its assumptions is given up in a feasible run that breaks it. */
module LossLimits {
  import opened Collections
  import opened Options
  import opened ReportCursor
  import opened SendBuffer
  import opened LossProtocol

  lemma ExtendRun(events: seq<Event>, e: Event)
    requires Feasible(Initial(), events) && Enabled(Run(Initial(), events), e)
    ensures Feasible(Initial(), events + [e])
    ensures Run(Initial(), events + [e]) == Next(Run(Initial(), events), e)
    ensures Reports(events + [e]) == Reports(events) + if e.ReportBuilt? then [e] else []
  {
    assert (events + [e])[..|events|] == events;
  }

  lemma ExtendRoom(events: seq<Event>, e: Event)
    requires RoomForAll(events)
    requires var rx := Run(Initial(), events).rx;
             e.ReportBuilt? ==> |Scan(rx, rx.missing.Keys, e.now, e.c).1| <= MAX_LISTED
    ensures RoomForAll(events + [e])
  {
    hide Scan, Run;
    var all := events + [e];
    forall n | 0 <= n < |all| && all[n].ReportBuilt?
      ensures var rx := Run(Initial(), all[..n]).rx;
              |Scan(rx, rx.missing.Keys, all[n].now, all[n].c).1| <= MAX_LISTED
    {
      assert all[..n] == events[..n];
      assert events[..|events|] == events;
    }
  }

  /** k packets are sent; only the first and the last of them arrive. */
  function Opening(k: nat): seq<Event> {
    Sends(k) + [DataArrives(1, 0)] + [DataArrives(k, 0)]
  }

  function Sends(k: nat): seq<Event> {
    if k == 0 then [] else Sends(k - 1) + [SendData]
  }

  function Zeros(lo: nat, hi: nat): (r: map<nat, nat>)
    ensures forall s :: s in r <==> lo <= s < hi
    ensures forall s | s in r :: r[s] == 0
  {
    if hi <= lo then map[] else Zeros(lo, hi - 1)[hi - 1 := 0]
  }

  function Opened(k: nat): System {
    System(Rx(Zeros(2, k), {k}, 2, true), History(1, {1, k}, {}, {}), {}, {}, 0, k + 1, Zeros(1, k + 1), map[], {})
  }

  lemma {:induction false} SendsRun(k: nat)
    ensures Feasible(Initial(), Sends(k)) && RoomForAll(Sends(k)) && Reports(Sends(k)) == []
    ensures Run(Initial(), Sends(k)) == Initial().(out := k + 1, retries := Zeros(1, k + 1))
  {
    if k > 0 {
      SendsRun(k - 1);
      ExtendRun(Sends(k - 1), SendData);
      ExtendRoom(Sends(k - 1), SendData);
      hide Run, Feasible, RoomForAll, Reports;
    }
  }

  lemma OpeningRun(k: nat)
    requires k > 2
    ensures Feasible(Initial(), Opening(k)) && RoomForAll(Opening(k)) && Reports(Opening(k)) == []
    ensures Run(Initial(), Opening(k)) == Opened(k)
  {
    hide Run, Feasible, RoomForAll, Reports, Sends, Next, Zeros;
    var a, b := DataArrives(1, 0), DataArrives(k, 0);
    SendsRun(k);
    ExtendRun(Sends(k), a);
    ExtendRoom(Sends(k), a);
    TwoArrive(Initial().(out := k + 1, retries := Zeros(1, k + 1)), k);
    ExtendRun(Sends(k) + [a], b);
    ExtendRoom(Sends(k) + [a], b);
  }

  lemma TwoArrive(y: System, k: nat)
    requires k > 2 && y == Initial().(out := y.out, retries := y.retries)
    ensures var z := Next(Next(y, DataArrives(1, 0)), DataArrives(k, 0));
            z == Opened(k).(out := y.out, retries := y.retries)
    ensures Next(y, DataArrives(1, 0)).clock == 0
  {
    hide Zeros;
    var z := Next(y, DataArrives(1, 0));
    assert z.rx == Rx(map[], {}, 2, true) && z.h == History(1, {1}, {}, {});
    assert WithGaps(map[], {}, 2, k, 0) == Zeros(2, k);
    assert {} + {k} == {k} && {1} + {k} == {1, k};
    assert Advance({k}, 2) == ({k}, 2);
  }

  /** A single listed gap: what a report does with it. */
  lemma ReportOnOne(rx: Rx, h: History, g: nat, now: nat, c: Config)
    requires rx.missing.Keys == {g} && now - rx.missing[g] <= c.giveUp && c.retransmit
    ensures var lost := if Listable(rx.missing[g], now, c) then [g] else [];
            var after := if lost == [] then rx else SkipGap(rx, g);
            && ReportStep(rx, now, c) == (after, Report(Ack(after), lost))
            && Scan(rx, rx.missing.Keys, now, c).1 == lost && CutOff(rx, now, c) == {}
            && AfterReport(rx, h, now, c)
               == h.(skipped := if after.next != rx.next then h.skipped + {g} else h.skipped)
  {
    var (after, lost) := Visit(rx, g, now, c);
    assert Least({g}) == g && {g} - {g} == {};
    assert Scan(after, {}, now, c) == (after, []) && (if lost then [g] else []) + [] == if lost then [g] else [];
    assert Scan(rx, {g}, now, c) == (after, if lost then [g] else []);
    var h' := AfterVisit(rx, h, g, now, c);
    assert AfterScan(after, h', {}, now, c) == h';
    assert AfterScan(rx, h, {g}, now, c) == h';
    assert |after.missing| == |after.missing.Keys| == |{g}| == 1;
    assert Capped(after.missing) == after.missing;
    hide Scan, AfterScan, Visit;
  }

  ghost predicate TwoReports(events: seq<Event>, c: Config, d: Config, elapsed: nat) {
    var r := Reports(events);
    |r| == 2 && r[0].c == c && r[1].c == d && r[1].now - r[0].now == elapsed
  }

  /** The first packet and the third have arrived; a report has skipped and listed the second. */
  function Skipped(now: nat): System {
    System(Rx(map[2 := 0], {}, 4, true), History(1, {1, 3}, {2}, {}), {}, {Report(3, [2])}, now,
           4, Zeros(1, 4), map[], {})
  }

  lemma FirstSkips(k: nat, now: nat, c: Config)
    requires k == 3 && Listable(0, now, c)
    ensures Next(Opened(k), ReportBuilt(now, c)) == Skipped(now)
    ensures |Scan(Opened(k).rx, Opened(k).rx.missing.Keys, now, c).1| <= MAX_LISTED
  {
    hide ReportStep, CutOff, AfterReport, Scan, Zeros, SkipGap;
    var rx, h := Opened(k).rx, Opened(k).h;
    assert rx.missing == map[2 := 0];
    ReportOnOne(rx, h, 2, now, c);
    SkipToFour(rx);
  }

  lemma SkipToFour(rx: Rx)
    requires rx.recv == {3} && rx.next == 2 && rx.inited
    ensures SkipGap(rx, 2) == rx.(recv := {}, next := 4)
  {
    assert {3} - {3} == {};
    assert Advance({3}, 3) == ({}, 4);
  }

  lemma SecondSpares(earlier: nat, now: nat, c: Config)
    requires Spared(0, now, c)
    ensures var z := Next(Skipped(earlier), ReportBuilt(now, c));
            z == Skipped(earlier).(net := {Report(3, [2]), Report(3, [])}, clock := now)
    ensures |Scan(Skipped(earlier).rx, Skipped(earlier).rx.missing.Keys, now, c).1| <= MAX_LISTED
  {
    ReportOnOne(Skipped(earlier).rx, Skipped(earlier).h, 2, now, c);
    hide ReportStep, CutOff, AfterReport, Scan, SkipGap;
  }

  /** A report that acknowledges, unlisted, what is still awaited. */
  lemma PrunesAwaited(y: System, r: Report, s: nat)
    requires s in y.retries && s <= r.ack && s !in r.lost && Resends(y, s) < MAX_RETRIES
    requires y.h.first <= s && s !in y.h.received && s !in y.h.dropped
    ensures !Safe(Next(y, ReportArrives(r)))
  {
    var z := Next(y, ReportArrives(r));
    assert s in z.pruned && Resends(z, s) == Resends(y, s);
  }

  /** Successive reports that do not agree prune a packet that never arrived, is still awaited, and was not resent. */
  lemma UnsteadyUnsafe(c: Config, d: Config, elapsed: nat) returns (events: seq<Event>)
    requires !Steady(c, d, elapsed)
    ensures Feasible(Initial(), events) && RoomForAll(events) && TwoReports(events, c, d, elapsed)
    ensures !Safe(Run(Initial(), events))
  {
    hide Next, Feasible, RoomForAll, Reports, Opening, Scan, Safe, Run, Skipped, Opened, Initial;
    var k, now := 3, c.lossThreshold + 1;
    var first, second, arrival := ReportBuilt(now, c), ReportBuilt(now + elapsed, d), ReportArrives(Report(3, []));
    OpeningRun(k);
    FirstSkips(k, now, c);
    SecondSpares(now, now + elapsed, d);
    SkippedShape(now);
    AnyTime(k, now, c);
    var e0 := Opening(k);
    var e1 := e0 + [first];
    var e2 := e1 + [second];
    events := e2 + [arrival];
    ExtendRun(e0, first);
    ExtendRoom(e0, first);
    ExtendRun(e1, second);
    ExtendRoom(e1, second);
    ExtendRun(e2, arrival);
    ExtendRoom(e2, arrival);
    PrunesAwaited(Run(Initial(), e2), Report(3, []), 2);
  }

  lemma SkippedShape(now: nat)
    ensures var y := Skipped(now);
            y.clock == now && 2 in y.retries && y.h == History(1, {1, 3}, {2}, {}) && Resends(y, 2) == 0
  {}

  /** The condition is exact: two successive reports are safe in every run if and only if they agree. */
  lemma SteadyExact(c: Config, d: Config, elapsed: nat)
    ensures Steady(c, d, elapsed) <==>
            forall events | Feasible(Initial(), events) && RoomForAll(events) && TwoReports(events, c, d, elapsed) ::
              Safe(Run(Initial(), events))
  {
    if Steady(c, d, elapsed) {
      forall events | Feasible(Initial(), events) && RoomForAll(events) && TwoReports(events, c, d, elapsed)
        ensures Safe(Run(Initial(), events))
      {
        AckSafety(events);
      }
    } else {
      var events := UnsteadyUnsafe(c, d, elapsed);
    }
  }

  /** The parameters the code derives from the sender's round-trip time and the report interval. */
  function Derived(rttUs: nat, intervalMs: nat): Config {
    Config(LossThreshold(rttUs), GiveUp(intervalMs), true)
  }

  /**
   * In the code's own terms, for reports at least one interval apart: a rising round-trip time is unsafe if and only if
   * it raises the threshold by more than the time between two reports, within the give-up time. Reports one second
   * apart and a rise from 20 to 400 milliseconds are such a case.
   */
  lemma RisingRttExact(low: nat, high: nat, intervalMs: nat, elapsed: nat)
    requires intervalMs * 1000 <= elapsed
    ensures LossThreshold(low) + elapsed < LossThreshold(high) && LossThreshold(low) + elapsed < GiveUp(intervalMs) <==>
            exists events :: Feasible(Initial(), events) && RoomForAll(events)
                             && TwoReports(events, Derived(low, intervalMs), Derived(high, intervalMs), elapsed)
                             && !Safe(Run(Initial(), events))
  {
    SteadyExact(Derived(low, intervalMs), Derived(high, intervalMs), elapsed);
    hide Feasible, RoomForAll, TwoReports, Safe, LossThreshold, GiveUp;
  }

  lemma {:induction false} CappedKeepsLast(missing: map<nat, nat>, last: nat)
    requires last in missing && forall g | g in missing :: g <= last
    ensures last in Capped(missing)
    decreases |missing|
  {
    if |missing| > MAX_MISSING {
      var g := Least(missing.Keys);
      assert |missing.Keys - {last}| == |missing.Keys| - 1;
      var other :| other in missing.Keys - {last};
      CappedKeepsLast(missing - {g}, last);
    }
  }

  /**
   * More than 256 overdue gaps break it too. When they are all the report finds, the last of them is acknowledged
   * without being listed, though it never arrived and is still awaited.
   */
  lemma CutOffUnsafe(rx: Rx, now: nat, c: Config, last: nat, highest: nat)
    requires MAX_LISTED < |rx.missing| && forall g | g in rx.missing :: Listable(rx.missing[g], now, c)
    requires Covered(rx, rx.missing.Keys, highest)
    requires last in rx.missing && forall g | g in rx.missing :: g <= last
    ensures var (after, r) := ReportStep(rx, now, c);
            last <= r.ack && last !in r.lost && last in after.missing
  {
    ScanReachesHighest(rx, rx.missing.Keys, now, c, highest);
    ScanListsAscending(rx, rx.missing.Keys, now, c);
    CappedKeepsLast(rx.missing, last);
    InCover(rx, last, highest);
    hide Scan, Covered, Skips, Capped, Listed, Listable;
    var (scanned, overdue) := Scan(rx, rx.missing.Keys, now, c);
    assert |overdue| == |rx.missing.Keys| == |rx.missing|;
    LastUnlisted(overdue, last);
    assert scanned.missing == rx.missing && scanned.next == highest + 1;
  }

  lemma LastUnlisted(overdue: seq<nat>, last: nat)
    requires Ascending(overdue) && |overdue| > MAX_LISTED && forall i | 0 <= i < |overdue| :: overdue[i] <= last
    ensures last !in Listed(overdue)
  {
    assert |Listed(overdue)| <= MAX_LISTED;
    assert forall i | 0 <= i < |Listed(overdue)| :: Listed(overdue)[i] == overdue[i] < overdue[MAX_LISTED];
  }

  lemma InCover(rx: Rx, g: nat, highest: nat)
    requires Covered(rx, rx.missing.Keys, highest) && g in rx.missing
    ensures g <= highest
  {}

  /**
   * Every number of overdue gaps above 256 has a feasible run with a single report, however long the gaps have been
   * overdue, in which a packet is pruned that never arrived, is still awaited, and was not resent.
   */
  lemma ManyGapsUnsafe(n: nat, now: nat, c: Config) returns (events: seq<Event>)
    requires MAX_LISTED < n && Listable(0, now, c)
    ensures Feasible(Initial(), events) && Reports(events) == [ReportBuilt(now, c)] && |events| >= 2
    ensures var rx := Run(Initial(), events[..|events| - 2]).rx;
            |Scan(rx, rx.missing.Keys, now, c).1| == n
    ensures !Safe(Run(Initial(), events))
  {
    hide Next, Feasible, RoomForAll, Opening, Scan, Safe, Run, Opened, Initial;
    var k := n + 2;
    var report := ReportBuilt(now, c);
    OpeningRun(k);
    AnyTime(k, now, c);
    var r := GapsReported(k, now, c);
    var e0 := Opening(k);
    var e1 := e0 + [report];
    ExtendRun(e0, report);
    ExtendRun(e1, ReportArrives(r));
    events := e1 + [ReportArrives(r)];
    TwoLast(events);
    assert events[..|events| - 2] == e0;
  }

  lemma TwoLast(events: seq<Event>)
    requires |events| >= 2 && !events[|events| - 1].ReportBuilt? && events[|events| - 2].ReportBuilt?
    ensures Reports(events) == Reports(events[..|events| - 2]) + [events[|events| - 2]]
  {
    var before := events[..|events| - 1];
    assert before[..|before| - 1] == events[..|events| - 2];
    assert Reports(before) + [] == Reports(before);
  }

  lemma AnyTime(k: nat, now: nat, c: Config)
    ensures Enabled(Opened(k), ReportBuilt(now, c))
  {}

  lemma GapsReported(k: nat, now: nat, c: Config) returns (r: Report)
    requires MAX_LISTED + 2 < k && Listable(0, now, c)
    ensures var y := Next(Opened(k), ReportBuilt(now, c));
            r in y.net && !Safe(Next(y, ReportArrives(r)))
    ensures |Scan(Opened(k).rx, Opened(k).rx.missing.Keys, now, c).1| == k - 2
  {
    hide Next, Opened, Scan, Safe;
    r := GapsCutOff(k, now, c);
    PrunesAwaited(Next(Opened(k), ReportBuilt(now, c)), r, k - 1);
  }

  lemma GapsCutOff(k: nat, now: nat, c: Config) returns (r: Report)
    requires MAX_LISTED + 2 < k && Listable(0, now, c)
    ensures var y := Next(Opened(k), ReportBuilt(now, c));
            && r in y.net && k - 1 <= r.ack && k - 1 !in r.lost
            && k - 1 in y.retries && Resends(y, k - 1) == 0
            && y.h.first == 1 && k - 1 !in y.h.received && k - 1 !in y.h.dropped
    ensures |Scan(Opened(k).rx, Opened(k).rx.missing.Keys, now, c).1| == k - 2
  {
    hide ReportStep, CutOff, AfterReport, Scan, Zeros, Covered, Listable, Core;
    var rx, h := Opened(k).rx, Opened(k).h;
    GapsCovered(k, now, c);
    CutOffUnsafe(rx, now, c, k - 1, k);
    ScanListsAscending(rx, rx.missing.Keys, now, c);
    CoreOpened(k);
    ReportKeepsCore(rx, h, now, c);
    ReportDropsRemoved(rx, h, now, c);
    r := ReportStep(rx, now, c).1;
    BuiltIsStep(Opened(k), now, c);
  }

  lemma BuiltIsStep(y: System, now: nat, c: Config)
    ensures var z, r := Next(y, ReportBuilt(now, c)), ReportStep(y.rx, now, c).1;
            r in z.net && z.h == AfterReport(y.rx, y.h, now, c) && z.retries == y.retries && z.resends == y.resends
  {}

  lemma CoreOpened(k: nat)
    requires k > 2
    ensures Core(Opened(k).rx, Opened(k).h)
  {
    hide Zeros;
  }

  lemma GapsCovered(k: nat, now: nat, c: Config)
    requires k > 2 && Listable(0, now, c)
    ensures var rx := Opened(k).rx;
            Covered(rx, rx.missing.Keys, k) && |rx.missing| == k - 2
            && (forall g | g in rx.missing :: Listable(rx.missing[g], now, c) && g <= k - 1) && k - 1 in rx.missing
  {
    ZerosSize(2, k);
    hide Zeros;
  }

  /** A report gives up on nothing but what it takes off the loss list. */
  lemma ReportDropsRemoved(rx: Rx, h: History, now: nat, c: Config)
    ensures AfterReport(rx, h, now, c).dropped
         == h.dropped + (rx.missing.Keys - ReportStep(rx, now, c).0.missing.Keys)
  {
    ScanDropsRemoved(rx, h, rx.missing.Keys, now, c);
    hide Scan, AfterScan;
  }

  lemma {:induction false} ScanDropsRemoved(rx: Rx, h: History, todo: set<nat>, now: nat, c: Config)
    requires todo <= rx.missing.Keys
    ensures var after := Scan(rx, todo, now, c).0;
            && rx.missing.Keys - todo <= after.missing.Keys <= rx.missing.Keys
            && AfterScan(rx, h, todo, now, c).dropped == h.dropped + (todo - after.missing.Keys)
    decreases |todo|
  {
    if todo != {} {
      var g := Least(todo);
      ScanDropsRemoved(Visit(rx, g, now, c).0, AfterVisit(rx, h, g, now, c), todo - {g}, now, c);
      hide Scan, AfterScan;
    }
  }

  lemma {:induction false} ZerosSize(lo: nat, hi: nat)
    requires lo <= hi
    ensures |Zeros(lo, hi)| == hi - lo
  {
    if lo < hi {
      ZerosSize(lo, hi - 1);
    }
  }
}
