/**
 * The acknowledgement protocol over whole runs: data and reports may be lost, repeated and reordered on the way.
 * Ghost history records what the receiver got, what it skipped while listed as missing and what it gave up on.
 */
module LossProtocol {
  import opened Collections
  import opened Options
  import opened ReportCursor
  import opened SendBuffer

  datatype History = History(first: nat, received: set<nat>, skipped: set<nat>, dropped: set<nat>)

  // ----- Receiver invariant -----

  ghost predicate Passed(rx: Rx, h: History, s: nat) {
    h.first <= s < rx.next
  }

  /** The cursor only passes sequences that were received, or skipped while listed as missing. */
  ghost predicate Core(rx: Rx, h: History) {
    && (!rx.inited ==> rx.missing == map[] && rx.recv == {} && h.received == {})
    && (rx.inited ==> h.first in h.received && 0 < h.first < rx.next)
    && (forall s | s in rx.recv :: s in h.received && s > rx.next)
    && (forall s | Passed(rx, h, s) && s !in h.received :: s in h.skipped)
    && (forall s | Passed(rx, h, s) && s !in h.received :: s in rx.missing || s in h.dropped)
  }

  /** Passed by the cursor, not received, and still on the loss list. */
  ghost predicate Awaited(rx: Rx, h: History, s: nat) {
    s in rx.missing && Passed(rx, h, s) && s !in h.received
  }

  /** A report at this moment puts a gap of this age on its list. */
  predicate Listable(since: nat, now: nat, c: Config) {
    c.retransmit && c.lossThreshold < now - since <= c.giveUp
  }

  /** A report at this moment keeps a gap of this age, but does not list it. */
  predicate Spared(since: nat, now: nat, c: Config) {
    c.retransmit && now - since <= c.lossThreshold && now - since <= c.giveUp
  }

  /** The latest report, if there was one, listed everything the cursor has passed and still awaits. */
  ghost predicate Reported(rx: Rx, h: History, last: Option<Event>) {
    forall s | Awaited(rx, h, s) ::
      last.Some? && last.value.ReportBuilt? && Listable(rx.missing[s], last.value.now, last.value.c)
  }

  function AfterData(rx: Rx, h: History, seqNo: nat): History {
    if seqNo == 0 then h
    else if !rx.inited then History(seqNo, {seqNo}, h.skipped, h.dropped)
    else h.(received := h.received + {seqNo})
  }

  lemma DataKeepsCore(rx: Rx, h: History, seqNo: nat, now: nat)
    requires Core(rx, h)
    ensures Core(DataStep(rx, seqNo, now), AfterData(rx, h, seqNo))
    ensures rx.inited ==> DataStep(rx, seqNo, now).inited && DataStep(rx, seqNo, now).next >= rx.next
  {
  }

  lemma DataKeepsReported(rx: Rx, h: History, seqNo: nat, now: nat, last: Option<Event>)
    requires Core(rx, h) && Reported(rx, h, last)
    ensures Reported(DataStep(rx, seqNo, now), AfterData(rx, h, seqNo), last)
  {
    hide Listable;
  }

  /** Visiting a gap may skip it (it was at the cursor) or forget it. */
  ghost function AfterVisit(rx: Rx, h: History, g: nat, now: nat, c: Config): History
    requires g in rx.missing
  {
    var (after, _) := Visit(rx, g, now, c);
    h.(skipped := if after.next != rx.next then h.skipped + {g} else h.skipped,
       dropped := if g in after.missing then h.dropped else h.dropped + {g})
  }

  lemma VisitKeepsCore(rx: Rx, h: History, g: nat, now: nat, c: Config)
    requires Core(rx, h) && g in rx.missing
    ensures var (after, _) := Visit(rx, g, now, c);
            Core(after, AfterVisit(rx, h, g, now, c)) && after.next >= rx.next && after.inited == rx.inited
  {
  }

  /** In the middle of a scan: gaps still to visit will not be spared, the others are on the list. */
  ghost predicate Scanning(rx: Rx, h: History, todo: set<nat>, now: nat, c: Config) {
    forall s | Awaited(rx, h, s) ::
      if s in todo then !Spared(rx.missing[s], now, c) else Listable(rx.missing[s], now, c)
  }

  lemma VisitKeepsScanning(rx: Rx, h: History, todo: set<nat>, g: nat, now: nat, c: Config)
    requires Core(rx, h) && g in todo && g in rx.missing && Scanning(rx, h, todo, now, c)
    ensures Scanning(Visit(rx, g, now, c).0, AfterVisit(rx, h, g, now, c), todo - {g}, now, c)
  {
  }

  ghost function AfterScan(rx: Rx, h: History, todo: set<nat>, now: nat, c: Config): History
    requires todo <= rx.missing.Keys
    decreases |todo|
  {
    if todo == {} then h
    else
      var g := Least(todo);
      AfterScan(Visit(rx, g, now, c).0, AfterVisit(rx, h, g, now, c), todo - {g}, now, c)
  }

  lemma {:induction false} ScanKeepsCore(rx: Rx, h: History, todo: set<nat>, now: nat, c: Config)
    requires Core(rx, h) && todo <= rx.missing.Keys
    ensures var (after, _) := Scan(rx, todo, now, c);
            var h' := AfterScan(rx, h, todo, now, c);
            && Core(after, h')
            && after.next >= rx.next && after.inited == rx.inited
            && h'.first == h.first && h'.received == h.received
            && h.skipped <= h'.skipped <= h.skipped + todo && h.dropped <= h'.dropped
    decreases |todo|
  {
    if todo != {} {
      var g := Least(todo);
      VisitKeepsCore(rx, h, g, now, c);
      ScanKeepsCore(Visit(rx, g, now, c).0, AfterVisit(rx, h, g, now, c), todo - {g}, now, c);
    }
  }

  lemma {:induction false} ScanLeavesListed(rx: Rx, h: History, todo: set<nat>, now: nat, c: Config)
    requires Core(rx, h) && todo <= rx.missing.Keys && Scanning(rx, h, todo, now, c)
    ensures Scanning(Scan(rx, todo, now, c).0, AfterScan(rx, h, todo, now, c), {}, now, c)
    decreases |todo|
  {
    if todo != {} {
      var g := Least(todo);
      VisitKeepsCore(rx, h, g, now, c);
      VisitKeepsScanning(rx, h, todo, g, now, c);
      ScanLeavesListed(Visit(rx, g, now, c).0, AfterVisit(rx, h, g, now, c), todo - {g}, now, c);
    }
  }

  /** A gap kept by the scan keeps its time, and is reported when it is overdue. */
  lemma {:induction false} ScanReports(rx: Rx, todo: set<nat>, now: nat, c: Config, s: nat)
    requires todo <= rx.missing.Keys
    ensures var (after, lost) := Scan(rx, todo, now, c);
            && (s in after.missing ==> s in rx.missing && after.missing[s] == rx.missing[s])
            && (s in after.missing && s in todo && Listable(rx.missing[s], now, c) ==> s in lost)
    decreases |todo|
  {
    if todo != {} {
      var g := Least(todo);
      ScanReports(Visit(rx, g, now, c).0, todo - {g}, now, c, s);
    }
  }

  /** A report is sound: what it acknowledges without listing was received, given up on, or cut off its list. */
  ghost predicate Sound(r: Report, h: History, cut: set<nat>) {
    forall s | h.first <= s <= r.ack && s !in r.lost :: s in h.received || s in h.dropped || s in cut
  }

  /** Overdue sequences that do not fit on the list. */
  function Unlisted(overdue: seq<nat>): set<nat> {
    set s | s in overdue && s !in Listed(overdue)
  }

  ghost function CutOff(rx: Rx, now: nat, c: Config): set<nat> {
    Unlisted(Scan(rx, rx.missing.Keys, now, c).1)
  }

  ghost function AfterReport(rx: Rx, h: History, now: nat, c: Config): History {
    var scanned := AfterScan(rx, h, rx.missing.Keys, now, c);
    var (after, _) := ReportStep(rx, now, c);
    scanned.(dropped := scanned.dropped + (Scan(rx, rx.missing.Keys, now, c).0.missing.Keys - after.missing.Keys))
  }

  lemma ReportKeepsCore(rx: Rx, h: History, now: nat, c: Config)
    requires Core(rx, h)
    ensures var (after, r) := ReportStep(rx, now, c);
            var h' := AfterReport(rx, h, now, c);
            && Core(after, h')
            && after.next >= rx.next && after.inited == rx.inited
            && h'.first == h.first && h.received == h'.received
            && h.skipped <= h'.skipped <= h.skipped + rx.missing.Keys && h.dropped <= h'.dropped
            && (!rx.inited ==> r.ack == 0 && r.lost == [])
  {
    hide Scan, AfterScan;
    ScanKeepsCore(rx, h, rx.missing.Keys, now, c);
    if !rx.inited {
      NothingMissing(rx, h, now, c);
    }
  }

  lemma NothingMissing(rx: Rx, h: History, now: nat, c: Config)
    requires rx.missing == map[] && !rx.inited
    ensures Scan(rx, rx.missing.Keys, now, c) == (rx, []) && Ack(rx) == 0
  {}

  /**
   * Two successive reports agree if no gap listed by the first can be both too young for the second and not yet given
   * up on: the threshold rises by no more than the time between them, unless giving up rules such a gap out.
   */
  predicate Steady(c: Config, d: Config, elapsed: int) {
    c.retransmit && d.retransmit && c.lossThreshold < c.giveUp && c.lossThreshold + elapsed < d.giveUp
    ==> d.lossThreshold <= c.lossThreshold + elapsed
  }

  ghost predicate Follows(last: Option<Event>, now: nat, c: Config) {
    last.Some? && last.value.ReportBuilt? ==> Steady(last.value.c, c, now - last.value.now)
  }

  lemma SteadyListed(since: nat, last: Event, now: nat, c: Config)
    requires last.ReportBuilt? && Listable(since, last.now, last.c) && Follows(Some(last), now, c)
    ensures !Spared(since, now, c)
  {}

  lemma ReportKeepsReported(rx: Rx, h: History, now: nat, c: Config, last: Option<Event>)
    requires Core(rx, h) && Reported(rx, h, last) && Follows(last, now, c)
    ensures Reported(ReportStep(rx, now, c).0, AfterReport(rx, h, now, c), Some(ReportBuilt(now, c)))
    ensures rx.inited ==> Sound(ReportStep(rx, now, c).1, AfterReport(rx, h, now, c), CutOff(rx, now, c))
  {
    ReportKeepsCore(rx, h, now, c);
    ScanKeepsCore(rx, h, rx.missing.Keys, now, c);
    forall s | Awaited(rx, h, s)
      ensures !Spared(rx.missing[s], now, c)
    {
      SteadyListed(rx.missing[s], last.value, now, c);
    }
    ScanLeavesListed(rx, h, rx.missing.Keys, now, c);
    hide Visit, AfterScan, Scan, Listable;
    var scanned := Scan(rx, rx.missing.Keys, now, c).0;
    var (after, r) := ReportStep(rx, now, c);
    var h' := AfterReport(rx, h, now, c);
    assert forall s | Awaited(after, h', s) :: Awaited(scanned, AfterScan(rx, h, rx.missing.Keys, now, c), s);
    forall s | rx.inited && h.first <= s <= r.ack && s !in r.lost
      ensures s in h'.received || s in h'.dropped || s in CutOff(rx, now, c)
    {
      ScanReports(rx, rx.missing.Keys, now, c, s);
      assert Passed(scanned, h', s);
    }
  }

  ghost predicate Ascending(s: seq<nat>) {
    forall i, j | 0 <= i < j < |s| :: s[i] < s[j]
  }

  /** Overdue gaps are listed in ascending order; when the scan skips every gap, all of them are. */
  lemma {:induction false} ScanListsAscending(rx: Rx, todo: set<nat>, now: nat, c: Config)
    requires todo <= rx.missing.Keys
    ensures var lost := Scan(rx, todo, now, c).1;
            && (forall i | 0 <= i < |lost| :: lost[i] in todo)
            && (forall i, j | 0 <= i < j < |lost| :: lost[i] < lost[j])
            && ((forall g | g in todo :: Listable(rx.missing[g], now, c)) ==> |lost| == |todo|)
    decreases |todo|
  {
    if todo == {} {
      ScanNothing(rx, now, c);
    } else {
      var g := Least(todo);
      var (visited, lost) := Visit(rx, g, now, c);
      ScanUnfold(rx, todo, now, c);
      ScanListsAscending(visited, todo - {g}, now, c);
      VisitKeepsTimes(rx, g, now, c);
      hide Scan, Visit, Listable;
      var more := Scan(visited, todo - {g}, now, c).1;
      assert forall i | 0 <= i < |more| :: g < more[i] && more[i] in todo;
      var all := (if lost then [g] else []) + more;
      assert all == Scan(rx, todo, now, c).1;
      assert |todo - {g}| == |todo| - 1;
    }
  }

  lemma VisitKeepsTimes(rx: Rx, g: nat, now: nat, c: Config)
    requires g in rx.missing
    ensures var (visited, lost) := Visit(rx, g, now, c);
            && (forall k | k in rx.missing && k != g :: k in visited.missing && visited.missing[k] == rx.missing[k])
            && (lost <==> Listable(rx.missing[g], now, c))
  {}

  /** Nothing is cut off exactly if there are at most 256 overdue gaps. */
  lemma NothingCut(rx: Rx, now: nat, c: Config)
    ensures CutOff(rx, now, c) == {} <==> |Scan(rx, rx.missing.Keys, now, c).1| <= MAX_LISTED
  {
    hide Scan, Listed, Unlisted;
    ScanListsAscending(rx, rx.missing.Keys, now, c);
    assert Ascending(Scan(rx, rx.missing.Keys, now, c).1);
    UnlistedExactly(Scan(rx, rx.missing.Keys, now, c).1);
  }

  lemma UnlistedExactly(overdue: seq<nat>)
    requires Ascending(overdue)
    ensures Unlisted(overdue) == {} <==> |overdue| <= MAX_LISTED
  {
    if |overdue| <= MAX_LISTED {
      assert Listed(overdue) == overdue;
      assert Unlisted(overdue) == {};
    } else {
      var last := overdue[|overdue| - 1];
      assert |Listed(overdue)| <= MAX_LISTED;
      assert forall i | 0 <= i < |Listed(overdue)| :: Listed(overdue)[i] == overdue[i] < last;
      assert last in Unlisted(overdue);
    }
  }

  // ----- Both ends and the network between them -----

  /**
   * retries: the sender's pending packets; resends: how often each sequence was resent over the run; net: every
   * report built so far, any of which may arrive at any time, again and again or never.
   */
  datatype System = System(
    rx: Rx, h: History, cut: set<nat>, net: set<Report>, clock: nat,
    out: nat, retries: map<nat, nat>, resends: map<nat, nat>, pruned: set<nat>)

  datatype Event =
    | SendData
    | DataArrives(seqNo: nat, now: nat)
    | ReportBuilt(now: nat, c: Config)
    | ReportArrives(r: Report)

  function Initial(): System {
    System(Rx(map[], {}, 0, false), History(0, {}, {}, {}), {}, {}, 0, 1, map[], map[], {})
  }

  /** Data and reports carry the receiver's steady clock; only reports that were built can arrive. */
  predicate Enabled(y: System, e: Event) {
    match e
    case SendData => true
    case DataArrives(_, now) => y.clock <= now
    case ReportBuilt(now, _) => y.clock <= now
    case ReportArrives(r) => r in y.net
  }

  function Resends(y: System, s: nat): nat {
    if s in y.resends then y.resends[s] else 0
  }

  ghost function Next(y: System, e: Event): System {
    match e
    case SendData => y.(out := y.out + 1, retries := y.retries[y.out := 0])
    case DataArrives(seqNo, now) =>
      y.(rx := DataStep(y.rx, seqNo, now), h := AfterData(y.rx, y.h, seqNo), clock := now)
    case ReportBuilt(now, c) =>
      var (after, r) := ReportStep(y.rx, now, c);
      y.(rx := after, h := AfterReport(y.rx, y.h, now, c), cut := y.cut + CutOff(y.rx, now, c),
         net := y.net + {r}, clock := now)
    case ReportArrives(r) =>
      y.(retries := Handled(y.retries, r),
         resends := y.resends + (map s | s in Resent(y.retries, r) :: Resends(y, s) + 1),
         pruned := y.pruned + (y.retries.Keys - Handled(y.retries, r).Keys))
  }

  ghost predicate Accounted(y: System, s: nat) {
    s in y.h.received || s in y.h.dropped || s in y.cut || Resends(y, s) == MAX_RETRIES
  }

  ghost predicate ReceiverSide(y: System, last: Option<Event>) {
    && Core(y.rx, y.h) && Reported(y.rx, y.h, last)
    && (y.rx.inited ==> forall r | r in y.net :: Sound(r, y.h, y.cut))
    && (!y.rx.inited ==> forall r | r in y.net :: r.ack == 0 && r.lost == [])
  }

  ghost predicate SenderSide(y: System) {
    && (forall s | s in y.retries :: 0 < s < y.out && y.retries[s] == Resends(y, s))
    && (forall s | s in y.resends :: 0 < s < y.out && y.resends[s] <= MAX_RETRIES)
    && (!y.rx.inited ==> y.pruned == {} && y.resends == map[])
  }

  ghost predicate Inv(y: System, last: Option<Event>) {
    && ReceiverSide(y, last) && SenderSide(y) && y.out > 0
    && (y.rx.inited ==> forall s | s in y.pruned && s >= y.h.first :: Accounted(y, s))
  }

  lemma SendKeeps(y: System, last: Option<Event>)
    requires Inv(y, last)
    ensures Inv(Next(y, SendData), last)
  {
    hide Core, Reported;
    var z := Next(y, SendData);
    assert forall s | s in y.pruned :: Accounted(z, s) == Accounted(y, s);
  }

  lemma DataKeeps(y: System, seqNo: nat, now: nat, last: Option<Event>)
    requires Inv(y, last)
    ensures Inv(Next(y, DataArrives(seqNo, now)), last)
  {
    DataKeepsCore(y.rx, y.h, seqNo, now);
    DataKeepsReported(y.rx, y.h, seqNo, now, last);
    hide Core, Reported;
    var z := Next(y, DataArrives(seqNo, now));
    if y.rx.inited {
      assert forall r | r in y.net :: Sound(r, z.h, z.cut);
      assert forall s | s in y.pruned && Accounted(y, s) :: Accounted(z, s);
    } else {
      assert forall r | r in y.net && z.rx.inited :: Sound(r, z.h, z.cut);
    }
  }

  lemma BuildKeeps(y: System, now: nat, c: Config, last: Option<Event>)
    requires Inv(y, last) && Follows(last, now, c)
    ensures Inv(Next(y, ReportBuilt(now, c)), Some(ReportBuilt(now, c)))
  {
    hide Core, Reported, ReportStep, AfterReport, CutOff, Follows;
    ReportKeepsCore(y.rx, y.h, now, c);
    ReportKeepsReported(y.rx, y.h, now, c, last);
    var z := Next(y, ReportBuilt(now, c));
    if y.rx.inited {
      assert forall r | r in y.net :: Sound(r, z.h, z.cut);
      assert forall s | s in y.pruned && Accounted(y, s) :: Accounted(z, s);
    }
  }

  lemma ArrivalKeeps(y: System, r: Report, last: Option<Event>)
    requires Inv(y, last) && r in y.net
    ensures Inv(Next(y, ReportArrives(r)), last)
  {
    hide Core, Reported;
    var z := Next(y, ReportArrives(r));
    forall s | s in y.retries
      ensures Resends(z, s) == if Resendable(s, y.retries[s], r) then y.retries[s] + 1 else y.retries[s]
    {}
    forall s | s in z.pruned && s >= y.h.first && y.rx.inited ensures Accounted(z, s) {
      if s in y.pruned {
        assert Accounted(y, s);
      } else {
        assert s in y.retries && Prunable(s, y.retries[s], r);
      }
    }
  }

  // ----- Whole runs -----

  ghost function Run(y: System, events: seq<Event>): System {
    if events == [] then y
    else Next(Run(y, events[..|events| - 1]), events[|events| - 1])
  }

  ghost predicate Feasible(y: System, events: seq<Event>) {
    events == []
    || (Feasible(y, events[..|events| - 1])
        && Enabled(Run(y, events[..|events| - 1]), events[|events| - 1]))
  }

  /** The reports built along the run, in order. */
  function Reports(events: seq<Event>): (r: seq<Event>)
    ensures forall k | 0 <= k < |r| :: r[k].ReportBuilt?
  {
    if events == [] then []
    else
      var e := events[|events| - 1];
      Reports(events[..|events| - 1]) + if e.ReportBuilt? then [e] else []
  }

  function Last<T>(s: seq<T>): Option<T> {
    if s == [] then None else Some(s[|s| - 1])
  }

  /** Any two successive reports of the run agree. */
  ghost predicate AllSteady(events: seq<Event>) {
    var r := Reports(events);
    forall k | 0 < k < |r| :: Steady(r[k - 1].c, r[k].c, r[k].now - r[k - 1].now)
  }

  lemma ReportsStep(before: seq<Event>, e: Event)
    ensures Reports(before + [e]) == Reports(before) + if e.ReportBuilt? then [e] else []
  {
    assert (before + [e])[..|before|] == before;
  }

  lemma SteadyStep(before: seq<Event>, e: Event)
    requires AllSteady(before + [e])
    ensures AllSteady(before)
    ensures Last(Reports(before + [e])) == if e.ReportBuilt? then Some(e) else Last(Reports(before))
    ensures e.ReportBuilt? ==> Follows(Last(Reports(before)), e.now, e.c)
  {
    ReportsStep(before, e);
    hide Steady, Reports;
    var r, r' := Reports(before), Reports(before + [e]);
    assert forall k | 0 <= k < |r| :: r'[k] == r[k];
    if e.ReportBuilt? && r != [] {
      assert r'[|r|] == e;
    }
  }

  lemma {:induction false} RunKeeps(events: seq<Event>)
    requires Feasible(Initial(), events) && AllSteady(events)
    ensures Inv(Run(Initial(), events), Last(Reports(events)))
  {
    hide Inv, Next, Last, AllSteady, Reports, Follows;
    if events == [] {
      assert Inv(Initial(), Last(Reports([]))) by { InitialInv(Last(Reports([]))); }
    } else {
      var before, e := events[..|events| - 1], events[|events| - 1];
      assert before + [e] == events;
      SteadyStep(before, e);
      RunKeeps(before);
      var y, last := Run(Initial(), before), Last(Reports(before));
      match e {
        case SendData => SendKeeps(y, last);
        case DataArrives(seqNo, now) => DataKeeps(y, seqNo, now, last);
        case ReportBuilt(now, c) => BuildKeeps(y, now, c, last);
        case ReportArrives(r) => ArrivalKeeps(y, r, last);
      }
    }
  }

  lemma InitialInv(last: Option<Event>)
    ensures Inv(Initial(), last)
  {}

  /** Every report built along the run had room for all its overdue gaps. */
  ghost predicate RoomForAll(events: seq<Event>) {
    forall n | 0 <= n < |events| && events[n].ReportBuilt? ::
      var rx := Run(Initial(), events[..n]).rx;
      |Scan(rx, rx.missing.Keys, events[n].now, events[n].c).1| <= MAX_LISTED
  }

  lemma {:induction false} NeverCut(events: seq<Event>)
    requires RoomForAll(events)
    ensures Run(Initial(), events).cut == {}
  {
    if events != [] {
      var n := |events| - 1;
      var before := events[..n];
      forall k | 0 <= k < n && before[k].ReportBuilt?
        ensures var rx := Run(Initial(), before[..k]).rx;
                |Scan(rx, rx.missing.Keys, before[k].now, before[k].c).1| <= MAX_LISTED
      {
        assert before[..k] == events[..k];
      }
      NeverCut(before);
      if events[n].ReportBuilt? {
        NothingCut(Run(Initial(), before).rx, events[n].now, events[n].c);
      }
    }
  }

  /** What was pruned at or above the first sequence received, the receiver got or gave up, or was resent ten times. */
  ghost predicate Safe(y: System) {
    forall s | s in y.pruned :: y.rx.inited && (s >= y.h.first ==>
      s in y.h.received || s in y.h.dropped || Resends(y, s) == MAX_RETRIES)
  }

  /**
   * Acknowledgement safety. Whatever the network does, and however the parameters of the reports change: if successive
   * reports agree and each has room for its overdue gaps, nothing is pruned without account, and nothing is resent
   * more than ten times.
   */
  lemma AckSafety(events: seq<Event>)
    requires Feasible(Initial(), events) && AllSteady(events) && RoomForAll(events)
    ensures Safe(Run(Initial(), events))
    ensures forall s: nat :: Resends(Run(Initial(), events), s) <= MAX_RETRIES
  {
    RunKeeps(events);
    NeverCut(events);
    hide Run, RoomForAll, Core;
    var y := Run(Initial(), events);
    assert forall s | s in y.pruned && s >= y.h.first :: Accounted(y, s);
  }

  // ----- The cursor alone, under any mix of report parameters -----

  datatype Input = Arrival(seqNo: nat, now: nat) | Reporting(now: nat, c: Config)

  ghost function Follow(rx: Rx, h: History, e: Input): (Rx, History) {
    match e
    case Arrival(seqNo, now) => (DataStep(rx, seqNo, now), AfterData(rx, h, seqNo))
    case Reporting(now, c) => (ReportStep(rx, now, c).0, AfterReport(rx, h, now, c))
  }

  ghost function FollowAll(inputs: seq<Input>): (Rx, History) {
    if inputs == [] then (Initial().rx, Initial().h)
    else
      var (rx, h) := FollowAll(inputs[..|inputs| - 1]);
      Follow(rx, h, inputs[|inputs| - 1])
  }

  /**
   * In every run the cursor never moves back; what it passed was received or skipped while listed as missing; and
   * every buffered sequence lies strictly above it.
   */
  lemma {:induction false} CursorRuns(inputs: seq<Input>)
    ensures var (rx, h) := FollowAll(inputs);
            && Core(rx, h)
            && (inputs != [] ==>
                  var (rx0, h0) := FollowAll(inputs[..|inputs| - 1]);
                  (rx0.inited ==> rx.inited && rx0.next <= rx.next && h.first == h0.first))
  {
    hide Core, DataStep, ReportStep, AfterReport;
    if inputs == [] {
      assert Core(Initial().rx, Initial().h) by { InitialCore(); }
    } else {
      var before := inputs[..|inputs| - 1];
      CursorRuns(before);
      var (rx, h) := FollowAll(before);
      match inputs[|inputs| - 1] {
        case Arrival(seqNo, now) =>
          DataKeepsCore(rx, h, seqNo, now);
        case Reporting(now, c) =>
          ReportKeepsCore(rx, h, now, c);
      }
    }
  }

  lemma InitialCore()
    ensures Core(Initial().rx, Initial().h)
  {}

  // ----- Reports that skip every gap they visit -----

  /** Visiting this gap at the cursor moves the cursor past it. */
  ghost predicate Skips(rx: Rx, g: nat, now: nat, c: Config)
    requires g in rx.missing
  {
    !c.retransmit || c.lossThreshold < now - rx.missing[g] <= c.giveUp
  }

  /** Between the cursor and the highest sequence seen, everything is buffered or about to be visited. */
  ghost predicate Covered(rx: Rx, todo: set<nat>, highest: nat) {
    && rx.inited && rx.next <= highest + 1
    && (forall s | s in rx.recv :: rx.next < s <= highest)
    && (forall g | g in todo :: g <= highest)
    && (forall s | rx.next <= s <= highest :: s in rx.recv || s in todo)
  }

  /** Draining buffered sequences stays within what is covered. */
  lemma AdvanceKeepsCovered(rx: Rx, todo: set<nat>, highest: nat)
    requires rx.inited && rx.next <= highest + 1
    requires forall s | s in rx.recv :: rx.next <= s <= highest
    requires forall g | g in todo :: g <= highest
    requires forall s | rx.next <= s <= highest :: s in rx.recv || s in todo
    ensures Covered(Advanced(rx), todo, highest)
  {
    var after := Advanced(rx);
    if after.next > rx.next {
      assert after.next - 1 in rx.recv;
    }
    forall s | after.next <= s <= highest ensures s in after.recv || s in todo {
      assert s in rx.recv || s in todo;
    }
  }

  lemma VisitKeepsCovered(rx: Rx, todo: set<nat>, now: nat, c: Config, highest: nat)
    requires todo <= rx.missing.Keys && todo != {} && Covered(rx, todo, highest)
    requires Skips(rx, Least(todo), now, c)
    ensures var visited := Visit(rx, Least(todo), now, c).0;
            && Covered(visited, todo - {Least(todo)}, highest)
            && visited.missing == (if c.retransmit then rx.missing else rx.missing - {Least(todo)})
  {
    var g := Least(todo);
    if g == rx.next {
      var moved := rx.(next := rx.next + 1);
      forall s | moved.next <= s <= highest ensures s in moved.recv || s in todo - {g} {
        assert s in rx.recv || s in todo;
      }
      AdvanceKeepsCovered(moved, todo - {g}, highest);
    } else {
      assert rx.next > highest || rx.next in rx.recv || rx.next in todo;
      forall s | rx.next <= s <= highest ensures s in rx.recv || s in todo - {g} {
        assert s in rx.recv || s in todo;
      }
    }
  }

  lemma {:induction false} ScanReachesHighest(rx: Rx, todo: set<nat>, now: nat, c: Config, highest: nat)
    requires todo <= rx.missing.Keys && Covered(rx, todo, highest)
    requires forall g | g in todo :: Skips(rx, g, now, c)
    ensures var (after, _) := Scan(rx, todo, now, c);
            && after.inited && after.next == highest + 1 && after.recv == {}
            && (!c.retransmit ==> after.missing.Keys == rx.missing.Keys - todo)
            && (c.retransmit ==> after.missing == rx.missing)
    decreases |todo|
  {
    if todo == {} {
      assert rx.next > highest || rx.next in rx.recv || rx.next in todo;
    } else {
      var g := Least(todo);
      VisitKeepsCovered(rx, todo, now, c, highest);
      ScanReachesHighest(Visit(rx, g, now, c).0, todo - {g}, now, c, highest);
    }
  }

  ghost predicate Highest(received: set<nat>, m: nat) {
    m in received && forall s | s in received :: s <= m
  }

  /** What data keeps when every report so far emptied the loss list. */
  lemma DataKeepsCovered(rx: Rx, seqNo: nat, now: nat, highest: nat)
    requires rx.inited && Covered(rx, rx.missing.Keys, highest) && seqNo > 0
    ensures var m := if seqNo > highest then seqNo else highest;
            var after := DataStep(rx, seqNo, now);
            Covered(after, after.missing.Keys, m)
  {
    var m := if seqNo > highest then seqNo else highest;
    var missing := if seqNo >= rx.next then WithGaps(rx.missing, rx.recv, rx.next, seqNo, now)
                   else rx.missing - {seqNo};
    var recv := if seqNo >= rx.next then rx.recv + {seqNo} else rx.recv;
    forall s | rx.next <= s <= m ensures s in recv || s in missing.Keys {
      assert s > highest || s in rx.recv || s in rx.missing.Keys;
    }
    AdvanceKeepsCovered(rx.(missing := missing, recv := recv), missing.Keys, m);
  }

  /** The runs in question: retransmission is off at either end throughout. */
  ghost predicate NoRetransmit(inputs: seq<Input>) {
    forall i | 0 <= i < |inputs| && inputs[i].Reporting? :: !inputs[i].c.retransmit
  }

  lemma {:induction false} CoveredThroughout(inputs: seq<Input>) returns (highest: nat)
    requires NoRetransmit(inputs)
    ensures var (rx, h) := FollowAll(inputs);
            rx.inited ==> Highest(h.received, highest) && Covered(rx, rx.missing.Keys, highest)
  {
    highest := 0;
    if inputs != [] {
      var before := inputs[..|inputs| - 1];
      highest := CoveredThroughout(before);
      var (rx, h) := FollowAll(before);
      CursorRuns(before);
      match inputs[|inputs| - 1] {
        case Arrival(seqNo, now) =>
          if seqNo != 0 {
            if rx.inited {
              DataKeepsCovered(rx, seqNo, now, highest);
              highest := if seqNo > highest then seqNo else highest;
            } else {
              highest := seqNo;
            }
          }
        case Reporting(now, c) =>
          ReportKeepsCore(rx, h, now, c);
          if rx.inited {
            ScanReachesHighest(rx, rx.missing.Keys, now, c, highest);
          }
      }
    }
  }

  /**
   * With retransmission off throughout, each report empties the loss list and the out-of-order set and acknowledges
   * exactly the highest sequence received: the cursor never stalls.
   */
  lemma OffNeverStalls(inputs: seq<Input>, now: nat, c: Config)
    requires NoRetransmit(inputs) && !c.retransmit && FollowAll(inputs).0.inited
    ensures var (rx, h) := FollowAll(inputs);
            var (after, r) := ReportStep(rx, now, c);
            after.missing == map[] && after.recv == {} && r.lost == [] && Highest(h.received, r.ack)
  {
    hide FollowAll, ReportStep, Covered, Highest, NoRetransmit;
    var highest := CoveredThroughout(inputs);
    ReportEmpties(FollowAll(inputs).0, now, c, highest);
  }

  lemma ReportEmpties(rx: Rx, now: nat, c: Config, highest: nat)
    requires Covered(rx, rx.missing.Keys, highest) && !c.retransmit
    ensures var (after, r) := ReportStep(rx, now, c);
            after.missing == map[] && after.recv == {} && r.lost == [] && r.ack == highest
  {
    ScanReachesHighest(rx, rx.missing.Keys, now, c, highest);
    ScanOffSilent(rx, rx.missing.Keys, now, c);
    hide Scan, Covered;
    var scanned := Scan(rx, rx.missing.Keys, now, c).0;
    assert scanned.missing.Keys == {};
    assert scanned.missing == map[] && Capped(map[]) == map[];
  }

  lemma {:induction false} ScanOffSilent(rx: Rx, todo: set<nat>, now: nat, c: Config)
    requires todo <= rx.missing.Keys && !c.retransmit
    ensures Scan(rx, todo, now, c).1 == []
    decreases |todo|
  {
    if todo != {} {
      ScanOffSilent(Visit(rx, Least(todo), now, c).0, todo - {Least(todo)}, now, c);
    }
  }
}
