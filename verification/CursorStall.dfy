/** When the receiver's cursor moves with retransmission on, and when it stands still for good. */
module CursorStall {
  import opened Collections
  import opened ReportCursor
  import opened LossProtocol

  /** Waiting at a gap: the sequence at the cursor has not been received. */
  predicate Waiting(rx: Rx) {
    rx.inited && rx.next !in rx.recv
  }

  /** A report takes the cursor past a gap of this age. */
  predicate Passes(since: nat, now: nat, c: Config) {
    !c.retransmit || Listable(since, now, c)
  }

  /** A report forgets a gap of this age without passing it. */
  predicate GivesUp(since: nat, now: nat, c: Config) {
    c.retransmit && now - since > c.giveUp
  }

  lemma {:induction false} ScanMonotone(rx: Rx, todo: set<nat>, now: nat, c: Config)
    requires todo <= rx.missing.Keys
    ensures Scan(rx, todo, now, c).0.next >= rx.next
    decreases |todo|
  {
    if todo == {} {
      ScanNothing(rx, now, c);
    } else {
      ScanUnfold(rx, todo, now, c);
      ScanMonotone(Visit(rx, Least(todo), now, c).0, todo - {Least(todo)}, now, c);
    }
  }

  lemma VisitElsewhere(rx: Rx, g: nat, now: nat, c: Config)
    requires g in rx.missing && Waiting(rx) && g != rx.next
    ensures var v := Visit(rx, g, now, c).0;
            && Waiting(v) && v.next == rx.next && v.recv == rx.recv && v.missing.Keys <= rx.missing.Keys
            && (rx.next in v.missing <==> rx.next in rx.missing)
            && (rx.next in v.missing ==> v.missing[rx.next] == rx.missing[rx.next])
  {}

  lemma VisitCursor(rx: Rx, now: nat, c: Config)
    requires rx.next in rx.missing && Waiting(rx)
    ensures var v, since := Visit(rx, rx.next, now, c).0, rx.missing[rx.next];
            && (Passes(since, now, c) ==> v.next > rx.next)
            && (!Passes(since, now, c) ==>
                  Waiting(v) && v.next == rx.next && v.recv == rx.recv && v.missing.Keys <= rx.missing.Keys
                  && (rx.next !in v.missing <==> GivesUp(since, now, c)))
  {}

  /** Walking the loss list moves the cursor exactly if it passes the gap there; otherwise it may still forget it. */
  lemma {:induction false} ScanMoves(rx: Rx, todo: set<nat>, now: nat, c: Config)
    requires todo <= rx.missing.Keys && Waiting(rx)
    ensures var after, n := Scan(rx, todo, now, c).0, rx.next;
            && (after.next > n <==> n in todo && Passes(rx.missing[n], now, c))
            && (after.next == n ==>
                  Waiting(after) && after.missing.Keys <= rx.missing.Keys
                  && (n in rx.missing ==>
                        (n !in after.missing <==> n in todo && GivesUp(rx.missing[n], now, c))))
    decreases |todo|
  {
    hide Visit, Passes, GivesUp, Waiting;
    if todo == {} {
      ScanNothing(rx, now, c);
    } else {
      var g := Least(todo);
      var v := Visit(rx, g, now, c).0;
      ScanUnfold(rx, todo, now, c);
      hide Scan;
      if g != rx.next {
        VisitElsewhere(rx, g, now, c);
        ScanMoves(v, todo - {g}, now, c);
      } else {
        VisitCursor(rx, now, c);
        if Passes(rx.missing[g], now, c) {
          ScanMonotone(v, todo - {g}, now, c);
        } else {
          ScanMoves(v, todo - {g}, now, c);
        }
      }
    }
  }

  /**
   * A report moves the cursor if and only if the gap it waits at is on the loss list and overdue, but not given up (or
   * retransmission is off). Of a gap that is listed it loses track, without passing it, if and only if it gives it up,
   * as long as the list does not overflow.
   */
  lemma ReportMoves(rx: Rx, now: nat, c: Config)
    requires Waiting(rx)
    ensures var after, n := ReportStep(rx, now, c).0, rx.next;
            && (after.next > n <==> n in rx.missing && Passes(rx.missing[n], now, c))
            && (after.next == n ==> Waiting(after) && after.missing.Keys <= rx.missing.Keys)
            && (after.next == n && n in rx.missing && |rx.missing| <= MAX_MISSING ==>
                  (n !in after.missing <==> GivesUp(rx.missing[n], now, c)))
  {
    hide Scan, Passes, GivesUp, Waiting, Capped;
    ScanMoves(rx, rx.missing.Keys, now, c);
    ScanMonotone(rx, rx.missing.Keys, now, c);
    var scanned := Scan(rx, rx.missing.Keys, now, c).0;
    if scanned.next == rx.next {
      SubsetSize(scanned.missing.Keys, rx.missing.Keys);
      NothingCapped(scanned.missing);
      StillWaiting(scanned, Capped(scanned.missing));
    }
  }

  lemma NothingCapped(missing: map<nat, nat>)
    ensures |missing.Keys| <= MAX_MISSING ==> Capped(missing) == missing
  {}

  lemma StillWaiting(rx: Rx, missing: map<nat, nat>)
    requires Waiting(rx)
    ensures Waiting(rx.(missing := missing))
  {}

  // ----- Standing still -----

  /** Reports with any parameters, and packets below the cursor or without a number. */
  predicate Quiet(e: Input, next: nat) {
    e.Arrival? ==> e.seqNo < next
  }

  ghost predicate AllQuiet(inputs: seq<Input>, next: nat) {
    forall i | 0 <= i < |inputs| :: Quiet(inputs[i], next)
  }

  ghost function Continue(rx: Rx, inputs: seq<Input>): Rx {
    if inputs == [] then rx
    else
      match inputs[|inputs| - 1]
      case Arrival(seqNo, now) => DataStep(Continue(rx, inputs[..|inputs| - 1]), seqNo, now)
      case Reporting(now, c) => ReportStep(Continue(rx, inputs[..|inputs| - 1]), now, c).0
  }

  lemma QuietArrival(rx: Rx, seqNo: nat, now: nat)
    requires Waiting(rx) && rx.next !in rx.missing && seqNo < rx.next
    ensures var after := DataStep(rx, seqNo, now);
            Waiting(after) && after.next == rx.next && after.next !in after.missing
  {}

  /** Once the gap at the cursor is off the loss list, nothing below it and no report moves the cursor. */
  lemma {:induction false} Stuck(rx: Rx, inputs: seq<Input>)
    requires Waiting(rx) && rx.next !in rx.missing && AllQuiet(inputs, rx.next)
    ensures var after := Continue(rx, inputs);
            Waiting(after) && after.next == rx.next && after.next !in after.missing
  {
    hide DataStep, ReportStep, Waiting;
    if inputs != [] {
      var n := |inputs| - 1;
      assert Quiet(inputs[n], rx.next);
      Stuck(rx, inputs[..n]);
      var before := Continue(rx, inputs[..n]);
      match inputs[n] {
        case Arrival(seqNo, now) => QuietArrival(before, seqNo, now);
        case Reporting(now, c) =>
          ReportMoves(before, now, c);
          CursorKept(before, now, c);
      }
    }
  }

  lemma CursorKept(rx: Rx, now: nat, c: Config)
    ensures ReportStep(rx, now, c).0.next >= rx.next
  {
    ScanMonotone(rx, rx.missing.Keys, now, c);
    hide Scan;
  }

  /**
   * The exact stall condition: no reports and no packets below it ever move a waiting cursor if and only if the gap it
   * waits at is not on the loss list. Only a packet at or above the cursor helps then: it fills the gap, or lists it
   * again.
   */
  lemma StallExactly(rx: Rx)
    requires Waiting(rx)
    ensures (forall inputs | AllQuiet(inputs, rx.next) :: Continue(rx, inputs).next == rx.next)
            <==> rx.next !in rx.missing
  {
    if rx.next !in rx.missing {
      forall inputs | AllQuiet(inputs, rx.next) ensures Continue(rx, inputs).next == rx.next {
        Stuck(rx, inputs);
      }
    } else {
      var now, c := rx.missing[rx.next] + 1, Config(0, 1, true);
      var inputs := [Reporting(now, c)];
      ReportMoves(rx, now, c);
      hide ReportStep;
      assert inputs[..0] == [];
      assert Continue(rx, []) == rx && Continue(rx, inputs) == ReportStep(rx, now, c).0;
      assert AllQuiet(inputs, rx.next);
    }
  }

  /** A packet above the cursor puts the gap on the list again, so that a later report can pass it. */
  lemma ListedAgain(rx: Rx, seqNo: nat, now: nat)
    requires Waiting(rx) && seqNo > rx.next
    ensures var after := DataStep(rx, seqNo, now);
            after.next == rx.next && rx.next in after.missing
            && after.missing[rx.next] == if rx.next in rx.missing then rx.missing[rx.next] else now
  {}
}
