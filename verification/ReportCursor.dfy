/** The receiver's sequence bookkeeping: what a data packet and a report do to the cursor and the loss list. */
module ReportCursor {
  import opened Collections

  /** Sequence numbers are unbounded here; the wrap at 2^32 is not modelled. Times are in microseconds. */
  datatype Rx = Rx(missing: map<nat, nat>, recv: set<nat>, next: nat, inited: bool)

  /** Parameters of one report: the loss threshold, the give-up time and whether both ends retransmit. */
  datatype Config = Config(lossThreshold: nat, giveUp: nat, retransmit: bool)

  const MAX_RETRIES: nat := 10
  const MAX_MISSING: nat := 4096
  const MAX_LISTED: nat := 256

  function LossThreshold(rttUs: nat): nat {
    var rtt := if rttUs > 0 then rttUs else 10000;
    if rtt < 10000 then 100000 else (rtt * 7 % 0x1_0000_0000) / 2
  }

  function GiveUp(intervalMs: nat): nat {
    intervalMs * 1000 * (MAX_RETRIES + 2)
  }

  // ----- Specification -----

  /** Consumes buffered sequences that continue the cursor. */
  function Advance(recv: set<nat>, next: nat): (r: (set<nat>, nat))
    ensures next <= r.1
    ensures forall s | next <= s < r.1 :: s in recv
    ensures forall s :: s in r.0 <==> s in recv && !(next <= s < r.1)
    ensures r.1 !in r.0
    decreases |recv|
  {
    if next in recv then
      var r := Advance(recv - {next}, next + 1);
      assert forall s | next <= s < r.1 :: s in recv by {
        forall s | next <= s < r.1 ensures s in recv {
          assert s == next || s in recv - {next};
        }
      }
      r
    else (recv, next)
  }

  function Advanced(rx: Rx): Rx {
    var (recv, next) := Advance(rx.recv, rx.next);
    rx.(recv := recv, next := next)
  }

  /** Records gaps; a sequence already listed keeps its time. */
  function WithGaps(missing: map<nat, nat>, recv: set<nat>, lo: nat, hi: nat, now: nat): map<nat, nat> {
    missing + (map g | lo <= g < hi && g !in recv && g !in missing :: now)
  }

  function DataStep(rx: Rx, seqNo: nat, now: nat): Rx {
    if seqNo == 0 then rx
    else if !rx.inited then rx.(next := seqNo + 1, inited := true)
    else if seqNo >= rx.next then
      Advanced(rx.(missing := WithGaps(rx.missing, rx.recv, rx.next, seqNo, now), recv := rx.recv + {seqNo}))
    else
      Advanced(rx.(missing := rx.missing - {seqNo}))
  }

  function SkipGap(rx: Rx, g: nat): Rx {
    if rx.inited && g == rx.next then Advanced(rx.(next := rx.next + 1)) else rx
  }

  /** What a report does with one listed gap. */
  ghost function Visit(rx: Rx, g: nat, now: nat, c: Config): (r: (Rx, bool))
    requires g in rx.missing
  {
    if !c.retransmit then (SkipGap(rx, g).(missing := rx.missing - {g}), false)
    else if now - rx.missing[g] > c.giveUp then (rx.(missing := rx.missing - {g}), false)
    else if now - rx.missing[g] > c.lossThreshold then (SkipGap(rx, g), true)
    else (rx, false)
  }

  /** The gaps still to visit, in ascending order; the second result lists those reported lost. */
  ghost function Scan(rx: Rx, todo: set<nat>, now: nat, c: Config): (Rx, seq<nat>)
    requires todo <= rx.missing.Keys
    decreases |todo|
  {
    if todo == {} then (rx, [])
    else
      var g := Least(todo);
      var (visited, lost) := Visit(rx, g, now, c);
      var (rest, more) := Scan(visited, todo - {g}, now, c);
      (rest, (if lost then [g] else []) + more)
  }

  ghost function Capped(missing: map<nat, nat>): (r: map<nat, nat>)
    ensures r.Keys <= missing.Keys && |r| <= MAX_MISSING
    ensures forall k | k in r :: r[k] == missing[k]
    decreases |missing|
  {
    if |missing| <= MAX_MISSING then missing
    else
      assert missing.Keys != {};
      Capped(missing - {Least(missing.Keys)})
  }

  /** The report: the new state, the acknowledgement and the sequences listed as lost. */
  datatype Report = Report(ack: nat, lost: seq<nat>)

  /** At most 256 losses are listed; their number is truncated to 16 bits first. */
  function Listed<T>(overdue: seq<T>): seq<T> {
    var n := |overdue| % 0x1_0000;
    overdue[..if n > MAX_LISTED then MAX_LISTED else n]
  }

  function Ack(rx: Rx): nat {
    if rx.inited && rx.next > 0 then rx.next - 1 else 0
  }

  ghost function ReportStep(rx: Rx, now: nat, c: Config): (Rx, Report) {
    var (scanned, overdue) := Scan(rx, rx.missing.Keys, now, c);
    var after := scanned.(missing := Capped(scanned.missing));
    (after, Report(Ack(after), Listed(overdue)))
  }

  // ----- The receiver -----

  class Cursor {
    var missing: map<nat, nat>
    var recv: set<nat>
    var next: nat
    var inited: bool

    ghost function Now(): Rx
      reads this
    {
      Rx(missing, recv, next, inited)
    }

    constructor ()
      ensures Now() == Rx(map[], {}, 0, false)
    {
      missing, recv, next, inited := map[], {}, 0, false;
    }

    method DrainReceived()
      modifies this`recv, this`next
      ensures Now() == Advanced(old(Now()))
    {
      while next in recv
        invariant Advanced(Now()) == Advanced(old(Now()))
        decreases |recv|
      {
        recv := recv - {next};
        next := next + 1;
      }
    }

    method HandleData(seqNo: nat, now: nat)
      modifies this
      ensures Now() == DataStep(old(Now()), seqNo, now)
    {
      hide Advanced, WithGaps;
      if seqNo == 0 {
      } else if !inited {
        next := seqNo + 1;
        inited := true;
      } else if seqNo >= next {
        GapsNone(missing, recv, next, now);
        for g := next to seqNo
          invariant missing == WithGaps(old(missing), recv, next, g, now)
          invariant recv == old(recv) && next == old(next) && inited
        {
          GapsStep(old(missing), recv, next, g, now);
          if g !in recv && g !in missing {
            missing := missing[g := now];
          }
        }
        recv := recv + {seqNo};
        DrainReceived();
      } else {
        if seqNo in missing {
          missing := missing - {seqNo};
        }
        assert missing == old(missing) - {seqNo};
        DrainReceived();
      }
    }

    method Skip(g: nat)
      modifies this`recv, this`next
      ensures Now() == SkipGap(old(Now()), g)
    {
      if inited && g == next {
        next := next + 1;
        DrainReceived();
      }
    }

    /** Retransmission off: the gap is skipped and forgotten. Long unanswered: forgotten. Overdue: reported, skipped. */
    method VisitGap(g: nat, now: nat, c: Config) returns (lost: bool)
      requires g in missing
      modifies this
      ensures (Now(), lost) == Visit(old(Now()), g, now, c)
    {
      lost := false;
      if !c.retransmit {
        Skip(g);
        missing := missing - {g};
      } else if now - missing[g] > c.giveUp {
        missing := missing - {g};
      } else if now - missing[g] > c.lossThreshold {
        lost := true;
        Skip(g);
      }
    }

    /** Walks the loss list in ascending order: skips overdue gaps and collects them. */
    method ScanMissing(now: nat, c: Config) returns (overdue: seq<nat>)
      modifies this
      ensures (Now(), overdue) == Scan(old(Now()), old(missing.Keys), now, c)
    {
      hide Visit;
      var todo := missing.Keys;
      overdue := [];
      ghost var goal := Scan(Now(), todo, now, c);
      while todo != {}
        invariant todo <= missing.Keys
        invariant goal.0 == Scan(Now(), todo, now, c).0
        invariant goal.1 == overdue + Scan(Now(), todo, now, c).1
        decreases |todo|
      {
        LeastExists(todo);
        var g :| g in todo && forall k | k in todo :: g <= k;
        assert g == Least(todo);
        ScanUnfold(Now(), todo, now, c);
        var lost := VisitGap(g, now, c);
        Regroup(overdue, if lost then [g] else [], Scan(Now(), todo - {g}, now, c).1);
        if lost {
          overdue := overdue + [g];
        }
        todo := todo - {g};
      }
      ScanNothing(Now(), now, c);
      assert overdue + [] == overdue;
    }

    method CapMissing()
      modifies this`missing
      ensures missing == Capped(old(missing))
    {
      while |missing| > MAX_MISSING
        invariant Capped(missing) == Capped(old(missing))
        decreases |missing|
      {
        assert missing.Keys != {};
        LeastExists(missing.Keys);
        var g :| g in missing && forall k | k in missing :: g <= k;
        assert g == Least(missing.Keys);
        missing := missing - {g};
      }
    }

    method BuildReport(now: nat, c: Config) returns (r: Report)
      modifies this
      ensures (Now(), r) == ReportStep(old(Now()), now, c)
    {
      var overdue := ScanMissing(now, c);
      CapMissing();
      var n := |overdue| % 0x1_0000;
      if n > MAX_LISTED {
        n := MAX_LISTED;
      }
      r := Report(if inited && next > 0 then next - 1 else 0, overdue[..n]);
    }
  }

  lemma GapsNone(missing: map<nat, nat>, recv: set<nat>, lo: nat, now: nat)
    ensures WithGaps(missing, recv, lo, lo, now) == missing
  {}

  lemma GapsStep(missing: map<nat, nat>, recv: set<nat>, lo: nat, hi: nat, now: nat)
    requires lo <= hi
    ensures var before := WithGaps(missing, recv, lo, hi, now);
            WithGaps(missing, recv, lo, hi + 1, now) ==
              if hi !in recv && hi !in before then before[hi := now] else before
  {}

  lemma Regroup(a: seq<nat>, b: seq<nat>, c: seq<nat>)
    ensures a + (b + c) == (a + b) + c && (b == [] ==> a + b == a)
  {}

  lemma ScanNothing(rx: Rx, now: nat, c: Config)
    ensures Scan(rx, {}, now, c) == (rx, [])
  {}

  lemma ScanUnfold(rx: Rx, todo: set<nat>, now: nat, c: Config)
    requires todo <= rx.missing.Keys && todo != {}
    ensures var g := Least(todo);
            var v := Visit(rx, g, now, c);
            && todo - {g} <= v.0.missing.Keys
            && Scan(rx, todo, now, c).0 == Scan(v.0, todo - {g}, now, c).0
            && Scan(rx, todo, now, c).1 == (if v.1 then [g] else []) + Scan(v.0, todo - {g}, now, c).1
  {}
}
