/**
 * What becomes of a message of any size the sender accepts: one whose counts fit their header fields, one whose counts
 * wrap, and one whose data count collides with the mark of sealing.
 */
module PacketLimits {
  import opened Options
  import opened Gf256
  import opened GfTables
  import opened ReedSolomon
  import opened Fragments
  import opened Fragmenter
  import opened Reassembler
  import opened Delivery
  import SealedPacket

  /** Which fragments the receiver's count check lets pass: in the fields as sent, and as long as they do not wrap. */
  lemma IgnoredExactly(s: State, m: Message, id: nat, i: nat, maxMessageBytes: nat)
    requires m.slice > 0 && i < Total(m) && id !in s.completed
    ensures Ignored(s, PacketOf(m, id, i), maxMessageBytes) <==>
            var count := Total(m) % 0x1_0000; i % 0x1_0000 >= count || count > MaxFragments(maxMessageBytes)
    ensures Total(m) < 0x1_0000 ==>
            (Ignored(s, PacketOf(m, id, i), maxMessageBytes) <==> Total(m) > MaxFragments(maxMessageBytes))
  {
    hide Wire, RealSize, DataCount;
  }

  // ----- The way to the receiver -----

  /**
   * The packet as the receiver's reassembly sees it. Sealing marks bit 15 of the data count and opening clears it; in
   * the clear a packet with that bit is taken for a sealed one, and dropped for want of a key.
   */
  function Arriving(p: Packet, sealed: bool): Option<Packet> {
    if sealed then Some(p.(dataCount := p.dataCount % 0x8000))
    else if p.dataCount < 0x8000 then Some(p)
    else None
  }

  /** That is what marking and clearing the flags field does, whose values are the data counts. */
  lemma FlagBit(flags: bv16)
    ensures SealedPacket.MarkedSealed(flags) <==> flags >= 0x8000
    ensures SealedPacket.Unmark(SealedPacket.Mark(flags)) == flags % 0x8000
  {}

  // ----- Messages that get through -----

  /** The fragments fit the receiver's limit, their number the 16-bit fields, and the data count its field. */
  predicate Countable(dataCount: nat, parity: nat, sealed: bool, maxMessageBytes: nat) {
    && dataCount + parity <= MaxFragments(maxMessageBytes) && dataCount + parity < 0x1_0000
    && (dataCount < 0x8000 || (sealed && dataCount == 0x8000 && parity == 1))
  }

  predicate GetsThrough(m: Message, sealed: bool, maxMessageBytes: nat)
    requires m.slice > 0
  {
    Countable(DataCount(m), m.parity, sealed, maxMessageBytes)
  }

  /** A data count of exactly 2^15 arrives as 0, which stands for all but one of the fragments. */
  predicate Borderline(m: Message, sealed: bool)
    requires m.slice > 0
  {
    sealed && DataCount(m) == 0x8000
  }

  /** The data count as it arrives. */
  function Claim(m: Message, sealed: bool): nat
    requires m.slice > 0
  {
    if sealed then Word16(DataCount(m)) % 0x8000 else Word16(DataCount(m))
  }

  predicate Sizes(m: Message, maxMessageBytes: nat) {
    0 < m.slice < 0x1_0000 && 1 <= m.parity <= 3 && |m.payload| <= maxMessageBytes < 0x1_0000_0000
  }

  /** The entry of a message that gets through, when the given fragments have arrived. */
  ghost function Entry(m: Message, id: nat, sealed: bool, have: set<nat>): Incoming
    requires m.slice > 0
  {
    EntryOf(m, id, have).(dataCount := Claim(m, sealed))
  }

  ghost function Collecting(m: Message, id: nat, sealed: bool, have: set<nat>): State
    requires m.slice > 0
  {
    State(if have == {} then map[] else map[id := Entry(m, id, sealed, have)], {})
  }

  lemma EntryExpects(m: Message, id: nat, sealed: bool, maxMessageBytes: nat, have: set<nat>)
    requires Sizes(m, maxMessageBytes) && GetsThrough(m, sealed, maxMessageBytes)
    ensures Legal(m, maxMessageBytes)
    ensures var e := Entry(m, id, sealed, have);
            Expected(e) == DataCount(m) && WellFormed(e) && e.totalCount == Total(m) >= 2 && Genuine(e, m)
  {
    hide Wire, RealSize, DataCount;
  }

  lemma AllDataAssembles(m: Message, id: nat, sealed: bool, maxMessageBytes: nat, have: set<nat>)
    requires Sizes(m, maxMessageBytes) && GetsThrough(m, sealed, maxMessageBytes)
    requires forall i | 0 <= i < DataCount(m) :: i in have
    ensures var e := Entry(m, id, sealed, have); WellFormed(e) && Assemblable(e)
  {
    hide Wire, RealSize, DataCount, Genuine, Legal;
    EntryExpects(m, id, sealed, maxMessageBytes, have);
    AllPresent(Entry(m, id, sealed, have).fragments[..DataCount(m)]);
  }

  lemma {:induction false} AllPresent(data: seq<Option<Bytes>>)
    requires forall i | 0 <= i < |data| :: data[i].Some?
    ensures Missing(data) == []
  {
    if data != [] {
      AllPresent(data[..|data| - 1]);
    }
  }

  /** One more fragment of a message that gets through. */
  lemma GoodStep(m: Message, id: nat, sealed: bool, maxMessageBytes: nat, have: set<nat>, i: nat)
    requires Sizes(m, maxMessageBytes) && GetsThrough(m, sealed, maxMessageBytes) && id != 0 && i < Total(m)
    ensures Arriving(PacketOf(m, id, i), sealed) == Some(PacketOf(m, id, i).(dataCount := Claim(m, sealed)))
    ensures var p, s := PacketOf(m, id, i).(dataCount := Claim(m, sealed)), Collecting(m, id, sealed, have);
            var e := Entry(m, id, sealed, have + {i});
            && WellFormed(e) && Genuine(e, m) && Legal(m, maxMessageBytes) && StateOk(s)
            && Fits(EntryFor(s.incoming, p), p) && WithFragment(EntryFor(s.incoming, p), p) == e
            && Step(s, p, maxMessageBytes) ==
                 if Assemblable(e) then (State(map[], {id}), Delivered)
                 else (Collecting(m, id, sealed, have + {i}), Kept)
  {
    var c := Claim(m, sealed);
    EntryExpects(m, id, sealed, maxMessageBytes, have);
    EntryExpects(m, id, sealed, maxMessageBytes, have + {i});
    PlainHeader(m, id, i, maxMessageBytes);
    OneMore(m, id, have, i, maxMessageBytes);
    NoneArrived(m, id, PacketOf(m, id, i), maxMessageBytes);
    Claimed(m, id, i, sealed);
    hide Wire, RealSize, DataCount, Genuine, Assemblable, WithFragment, PacketOf, EntryOf, Legal, Arriving, Claim,
         Fresh;
    var p, q := PacketOf(m, id, i).(dataCount := c), PacketOf(m, id, i);
    Recount(EntryOf(m, id, have), q, c);
    assert EntryFor(Collecting(m, id, sealed, have).incoming, p) == Entry(m, id, sealed, have) by {
      EntryId(m, id, have);
      hide WellFormed;
    }
    var e := Entry(m, id, sealed, have + {i});
    assert p.count <= MaxFragments(maxMessageBytes);
    AfterFirst(m, id, sealed, have, i);
  }

  lemma Claimed(m: Message, id: nat, i: nat, sealed: bool)
    requires m.slice > 0 && i < Total(m)
    ensures Arriving(PacketOf(m, id, i), sealed) ==
              if sealed || Claim(m, sealed) < 0x8000 then Some(PacketOf(m, id, i).(dataCount := Claim(m, sealed)))
              else None
  {
    hide Wire, RealSize, DataCount;
  }

  lemma EntryId(m: Message, id: nat, have: set<nat>)
    requires m.slice > 0
    ensures EntryOf(m, id, have).messageId == id
  {}

  lemma Recount(e: Incoming, p: Packet, c: nat)
    ensures Fresh(p.(dataCount := c)) == Fresh(p).(dataCount := c)
    ensures Fits(e, p) ==>
              Fits(e.(dataCount := c), p.(dataCount := c))
              && WithFragment(e.(dataCount := c), p.(dataCount := c)) == WithFragment(e, p).(dataCount := c)
  {}

  lemma AfterFirst(m: Message, id: nat, sealed: bool, have: set<nat>, i: nat)
    requires m.slice > 0
    ensures var s, e := Collecting(m, id, sealed, have), Entry(m, id, sealed, have + {i});
            && s.(incoming := s.incoming[id := e]) == Collecting(m, id, sealed, have + {i})
            && State(s.incoming - {id}, s.completed + {id}) == State(map[], {id})
  {
    hide EntryOf, Claim;
  }

  // ----- Messages that do not -----

  /** What the receiver knows of a message with wrapped or clipped counts. */
  ghost predicate Misled(s: State, m: Message, id: nat, sealed: bool)
    requires m.slice > 0
  {
    StateOk(s) && (id in s.incoming ==> MisledEntry(s.incoming[id], m, id, sealed))
  }

  ghost predicate MisledEntry(e: Incoming, m: Message, id: nat, sealed: bool)
    requires m.slice > 0
  {
    && e.messageId == id && e.totalCount == Word16(Total(m)) && e.dataCount == Claim(m, sealed)
    && Reassembler.Within(e, m.slice)
  }

  lemma BadStep(s: State, m: Message, id: nat, sealed: bool, maxMessageBytes: nat, i: nat)
    requires m.slice > 0 && i < Total(m) && id != 0 && Misled(s, m, id, sealed)
    ensures var p := PacketOf(m, id, i).(dataCount := Claim(m, sealed));
            && (Step(s, p, maxMessageBytes).1 != Outside ==> Misled(Step(s, p, maxMessageBytes).0, m, id, sealed))
            && (Fits(EntryFor(s.incoming, p), p) ==>
                  MisledEntry(WithFragment(EntryFor(s.incoming, p), p), m, id, sealed))
            && (Ignored(s, p, maxMessageBytes) || 1 <= Word16(Total(m)) <= MaxFragments(maxMessageBytes))
  {
    hide Wire, RealSize, DataCount, Claim, Word16, Assemblable, MaxFragments;
  }

  /** Fewer fragments are expected than there are. */
  lemma ExpectsFewer(m: Message, sealed: bool, maxMessageBytes: nat)
    requires Sizes(m, maxMessageBytes) && !GetsThrough(m, sealed, maxMessageBytes) && !Borderline(m, sealed)
    requires 1 <= Word16(Total(m)) <= MaxFragments(maxMessageBytes)
    requires sealed || Claim(m, sealed) < 0x8000
    ensures (if Claim(m, sealed) > 0 then Claim(m, sealed) else Word16(Total(m)) - 1) < DataCount(m)
    ensures DataCount(m) > 4
  {
    hide DataCount;
  }

  lemma TooShort(m: Message, e: Incoming, message: Bytes)
    requires m.slice > 0 && e.totalCount >= 1 && Expected(e) < DataCount(m) && DataCount(m) > 4
    requires Covered(e, m.slice, message)
    ensures |message| < |m.payload|
  {
    DataCountBounds(m);
    hide DataCount;
    Monotone(Expected(e), DataCount(m) - 1, m.slice);
    Monotone(4, DataCount(m) - 1, m.slice);
    assert |Full(m)| == |m.payload| + 4;
  }

  /** The borderline case with more than one parity: the first parity is expected as if it were data. */
  ghost predicate OneShort(s: State, m: Message, id: nat)
    requires m.slice > 0
  {
    StateOk(s) && (id in s.incoming ==> OneShortEntry(s.incoming[id], m, id))
  }

  ghost predicate OneShortEntry(e: Incoming, m: Message, id: nat)
    requires m.slice > 0
  {
    && e.messageId == id && e.totalCount == Total(m) && e.dataCount == 0 && Shaped(e)
    && forall k | DataCount(m) <= k < |e.fragments| :: e.fragments[k].None?
  }

  lemma OneShortStep(s: State, m: Message, id: nat, maxMessageBytes: nat, i: nat)
    requires Sizes(m, maxMessageBytes) && Borderline(m, true) && m.parity > 1
    requires i < DataCount(m) && id != 0 && OneShort(s, m, id)
    ensures var p := PacketOf(m, id, i).(dataCount := 0);
            Step(s, p, maxMessageBytes).1 == Kept && OneShort(Step(s, p, maxMessageBytes).0, m, id)
  {
    hide Wire, RealSize, DataCount, Assemblable, MaxFragments;
    var p := PacketOf(m, id, i).(dataCount := 0);
    if !Ignored(s, p, maxMessageBytes) {
      var e := WithFragment(EntryFor(s.incoming, p), p);
      assert OneShortEntry(e, m, id);
      NotYetAssembled(e, m, id);
    }
  }

  lemma NotYetAssembled(e: Incoming, m: Message, id: nat)
    requires m.slice > 0 && m.parity > 1 && OneShortEntry(e, m, id)
    ensures WellFormed(e) && !Assemblable(e)
  {
    hide DataCount, Recoverable;
    var n := Total(m) - 1;
    var data := e.fragments[..n];
    assert data[DataCount(m)].None?;
    SomeMissing(data, DataCount(m));
    assert ParitiesAt(e.fragments, n, 0) == [];
    assert Parities(e) == ParitiesAt(e.fragments, n, 1) == [] + [];
    TooFew(data, Parities(e));
  }

  lemma {:induction false} SomeMissing(data: seq<Option<Bytes>>, k: nat)
    requires k < |data| && data[k].None?
    ensures |Missing(data)| > 0
  {
    if k < |data| - 1 {
      SomeMissing(data[..|data| - 1], k);
    }
  }

  /** With the fragments it expects at hand such a message is assembled, as if it were complete. */
  lemma CutShort(m: Message, id: nat, sealed: bool, e: Incoming)
    requires m.slice > 0 && MisledEntry(e, m, id, sealed) && Shaped(e)
    requires e.totalCount >= 2 && 0 < Claim(m, sealed) <= Word16(Total(m))
    requires forall i | 0 <= i < Claim(m, sealed) :: e.fragments[i].Some?
    ensures WellFormed(e) && Assemblable(e)
  {
    hide DataCount, Claim;
    AllPresent(e.fragments[..Expected(e)]);
  }

  /** The longest payload at a transfer unit of 200 bytes: its counts wrap to 3451 and 3450, which pass the check. */
  lemma TenMegabytes(payload: Bytes)
    requires |payload| == 10485760
    ensures var m := Message(payload, SliceSize(200), 1);
            && Total(m) == 68987 && Word16(Total(m)) == 3451 <= MaxFragments(10485760) && Claim(m, false) == 3450
            && !GetsThrough(m, false, 10485760) && !GetsThrough(m, true, 10485760)
  {}

  // ----- A whole run -----

  predicate AllData(m: Message, order: seq<nat>)
    requires m.slice > 0
  {
    forall i | 0 <= i < DataCount(m) :: i in order
  }

  predicate OnlyData(m: Message, order: seq<nat>)
    requires m.slice > 0
  {
    forall k | 0 <= k < |order| :: order[k] < DataCount(m)
  }

  /** The run so far of a message that gets through. */
  ghost predicate Good(s: State, m: Message, id: nat, sealed: bool, order: seq<nat>, delivered: seq<Bytes>)
    requires m.slice > 0
  {
    if delivered == [] then s == Collecting(m, id, sealed, Elements(order)) && !AllData(m, order)
    else s == State(map[], {id}) && delivered == [m.payload]
  }

  function Elements(order: seq<nat>): set<nat> {
    set i | i in order
  }

  /** The run so far of one that does not. */
  ghost predicate Bad(s: State, m: Message, id: nat, sealed: bool, order: seq<nat>, delivered: seq<Bytes>)
    requires m.slice > 0
  {
    if Borderline(m, sealed) then OnlyData(m, order) ==> OneShort(s, m, id) && delivered == []
    else Misled(s, m, id, sealed) && Shorter(delivered, m.payload)
  }

  predicate Shorter(delivered: seq<Bytes>, payload: Bytes) {
    forall k | 0 <= k < |delivered| :: |delivered[k]| < |payload|
  }

  lemma Started(m: Message, id: nat, sealed: bool)
    requires m.slice > 0
    ensures StateOk(State(map[], {}))
    ensures Good(State(map[], {}), m, id, sealed, [], []) && Bad(State(map[], {}), m, id, sealed, [], [])
  {
    hide Wire, RealSize, DataCount, Claim;
    var none: seq<nat> := [];
    assert Elements(none) == {} && 0 !in none;
    assert DataCount(m) > 0;
  }

  /** The message handed over is the one all of whose fragments were collected. */
  ghost predicate Honest(s: State, p: Packet, m: Message, maxMessageBytes: nat, verdict: Verdict, message: Bytes)
    requires m.slice > 0
  {
    verdict.Delivered? ==>
      var e := EntryFor(s.incoming, p);
      && Fits(e, p)
      && (Legal(m, maxMessageBytes) && Genuine(WithFragment(e, p), m) ==> message == m.payload)
      && (Reassembler.Within(WithFragment(e, p), m.slice) && WithFragment(e, p).totalCount >= 1 ==>
            Covered(WithFragment(e, p), m.slice, message))
  }

  /** One packet of the message arrives: state s becomes t. */
  ghost predicate Arrives(s: State, t: State, m: Message, id: nat, sealed: bool, maxMessageBytes: nat, i: nat,
                          verdict: Verdict, message: Bytes)
    requires m.slice > 0 && i < Total(m)
  {
    var p := Arriving(PacketOf(m, id, i), sealed);
    && p.Some? && StateOk(s) && (t, verdict) == Step(s, p.value, maxMessageBytes)
    && Honest(s, p.value, m, maxMessageBytes, verdict, message)
  }

  lemma GoodArrival(s: State, t: State, m: Message, id: nat, sealed: bool, maxMessageBytes: nat, have: set<nat>, i: nat,
                    verdict: Verdict, message: Bytes)
    requires m.slice > 0 && i < Total(m) && id != 0
    requires Sizes(m, maxMessageBytes) && GetsThrough(m, sealed, maxMessageBytes)
    requires s == Collecting(m, id, sealed, have)
    requires Arrives(s, t, m, id, sealed, maxMessageBytes, i, verdict, message)
    ensures WellFormed(Entry(m, id, sealed, have + {i}))
    ensures if Assemblable(Entry(m, id, sealed, have + {i}))
            then t == State(map[], {id}) && verdict == Delivered && message == m.payload
            else t == Collecting(m, id, sealed, have + {i}) && verdict == Kept
  {
    hide Wire, RealSize, DataCount, Claim, Genuine, Legal, Assemblable, WithFragment, EntryFor, GetsThrough, Sizes,
         Collecting, Entry, Arriving, Step, PacketOf, Reassembler.Within, Covered, Fits, WellFormed;
    GoodStep(m, id, sealed, maxMessageBytes, have, i);
  }

  lemma DoneArrival(s: State, t: State, m: Message, id: nat, sealed: bool, maxMessageBytes: nat, i: nat,
                    verdict: Verdict, message: Bytes)
    requires m.slice > 0 && i < Total(m) && id in s.completed
    requires sealed || Claim(m, sealed) < 0x8000
    requires Arrives(s, t, m, id, sealed, maxMessageBytes, i, verdict, message)
    ensures t == s && verdict == Kept
  {
    hide Wire, RealSize, DataCount, Claim, Arriving, Step, PacketOf, Honest;
    Claimed(m, id, i, sealed);
    CompletedStep(s, m, id, i, Claim(m, sealed), maxMessageBytes);
  }

  lemma NotDropped(m: Message, sealed: bool, maxMessageBytes: nat)
    requires m.slice > 0 && GetsThrough(m, sealed, maxMessageBytes)
    ensures sealed || Claim(m, sealed) < 0x8000
  {
    hide DataCount, MaxFragments;
  }

  lemma GoodNext(s: State, t: State, m: Message, id: nat, sealed: bool, maxMessageBytes: nat, order: seq<nat>, i: nat,
                 delivered: seq<Bytes>, verdict: Verdict, message: Bytes)
    requires m.slice > 0 && i < Total(m) && id != 0
    requires Sizes(m, maxMessageBytes) && GetsThrough(m, sealed, maxMessageBytes)
    requires Good(s, m, id, sealed, order, delivered)
    requires Arrives(s, t, m, id, sealed, maxMessageBytes, i, verdict, message)
    ensures verdict != Outside
    ensures Good(t, m, id, sealed, order + [i], if verdict.Delivered? then delivered + [message] else delivered)
  {
    var have := Elements(order);
    assert Elements(order + [i]) == have + {i};
    hide DataCount, Claim, Assemblable, GetsThrough, Sizes, Collecting, Entry, Arrives, AllData, Elements, WellFormed;
    if delivered != [] {
      NotDropped(m, sealed, maxMessageBytes);
      DoneArrival(s, t, m, id, sealed, maxMessageBytes, i, verdict, message);
    } else {
      GoodArrival(s, t, m, id, sealed, maxMessageBytes, have, i, verdict, message);
      if AllData(m, order + [i]) {
        EveryData(m, order + [i]);
        AllDataAssembles(m, id, sealed, maxMessageBytes, have + {i});
      }
    }
  }

  lemma EveryData(m: Message, order: seq<nat>)
    requires m.slice > 0 && AllData(m, order)
    ensures forall i | 0 <= i < DataCount(m) :: i in Elements(order)
  {
    hide DataCount;
  }

  lemma CompletedStep(s: State, m: Message, id: nat, i: nat, c: nat, maxMessageBytes: nat)
    requires m.slice > 0 && i < Total(m) && StateOk(s) && id in s.completed
    ensures Step(s, PacketOf(m, id, i).(dataCount := c), maxMessageBytes) == (s, Kept)
  {
    hide Wire, RealSize, DataCount;
  }

  lemma NeverDropped(m: Message, id: nat, sealed: bool, maxMessageBytes: nat, i: nat)
    requires Sizes(m, maxMessageBytes) && GetsThrough(m, sealed, maxMessageBytes) && i < Total(m)
    ensures Arriving(PacketOf(m, id, i), sealed).Some?
  {
    hide Wire, RealSize, DataCount, Claim, Arriving, GetsThrough, PacketOf;
    NotDropped(m, sealed, maxMessageBytes);
    Claimed(m, id, i, sealed);
  }

  lemma MisledNext(s: State, t: State, m: Message, id: nat, sealed: bool, maxMessageBytes: nat, i: nat,
                   verdict: Verdict, message: Bytes)
    requires Sizes(m, maxMessageBytes) && !GetsThrough(m, sealed, maxMessageBytes) && id != 0 && i < Total(m)
    requires Misled(s, m, id, sealed) && !Borderline(m, sealed)
    requires Arrives(s, t, m, id, sealed, maxMessageBytes, i, verdict, message)
    ensures verdict != Outside ==> Misled(t, m, id, sealed)
    ensures verdict == Delivered ==> |message| < |m.payload|
  {
    Claimed(m, id, i, sealed);
    hide Wire, RealSize, DataCount, PacketOf, Arriving, Claim, GetsThrough, Borderline, Misled, WithFragment, EntryFor,
         Reassembler.Within, Covered, Ignored;
    BadStep(s, m, id, sealed, maxMessageBytes, i);
    var p := PacketOf(m, id, i).(dataCount := Claim(m, sealed));
    if verdict == Delivered {
      DeliveredNotIgnored(s, p, maxMessageBytes);
      ExpectsFewer(m, sealed, maxMessageBytes);
      TooShort(m, WithFragment(EntryFor(s.incoming, p), p), message);
    }
  }

  lemma DeliveredNotIgnored(s: State, p: Packet, maxMessageBytes: nat)
    requires StateOk(s) && Step(s, p, maxMessageBytes).1 == Delivered
    ensures !Ignored(s, p, maxMessageBytes)
  {
    hide WithFragment, EntryFor, Assemblable;
  }

  lemma OneShortNext(s: State, m: Message, id: nat, maxMessageBytes: nat, i: nat)
    requires Sizes(m, maxMessageBytes) && !GetsThrough(m, true, maxMessageBytes) && Borderline(m, true)
    requires id != 0 && i < DataCount(m) && OneShort(s, m, id)
    ensures var p := Arriving(PacketOf(m, id, i), true);
            && p.Some? && Step(s, p.value, maxMessageBytes).1 == Kept
            && OneShort(Step(s, p.value, maxMessageBytes).0, m, id)
  {
    Claimed(m, id, i, true);
    hide PacketOf, DataCount, Arriving, Claim, Step, OneShort, MaxFragments;
    BorderlineClaim(m);
    if m.parity > 1 {
      OneShortStep(s, m, id, maxMessageBytes, i);
    } else {
      TooManyStep(s, m, id, i, 0, maxMessageBytes);
    }
  }

  lemma BorderlineClaim(m: Message)
    requires m.slice > 0 && Borderline(m, true)
    ensures Claim(m, true) == 0
  {
    hide DataCount;
  }

  lemma TooManyStep(s: State, m: Message, id: nat, i: nat, c: nat, maxMessageBytes: nat)
    requires m.slice > 0 && i < Total(m) && StateOk(s) && MaxFragments(maxMessageBytes) < Total(m) < 0x1_0000
    ensures Step(s, PacketOf(m, id, i).(dataCount := c), maxMessageBytes) == (s, Kept)
  {
    hide Wire, RealSize, DataCount, MaxFragments;
    var p := PacketOf(m, id, i).(dataCount := c);
    assert p.count == Total(m);
    hide PacketOf, WithFragment, EntryFor, Assemblable, WellFormed;
    assert Ignored(s, p, maxMessageBytes);
  }

  lemma BadNext(s: State, t: State, m: Message, id: nat, sealed: bool, maxMessageBytes: nat, order: seq<nat>, i: nat,
                delivered: seq<Bytes>, verdict: Verdict, message: Bytes)
    requires Sizes(m, maxMessageBytes) && !GetsThrough(m, sealed, maxMessageBytes) && id != 0 && i < Total(m)
    requires Bad(s, m, id, sealed, order, delivered)
    requires Arrives(s, t, m, id, sealed, maxMessageBytes, i, verdict, message)
    ensures if verdict == Outside then !Borderline(m, sealed) || !OnlyData(m, order + [i])
            else Bad(t, m, id, sealed, order + [i], if verdict.Delivered? then delivered + [message] else delivered)
  {
    LastOfData(m, order, i);
    hide Step, Arriving, PacketOf, DataCount, GetsThrough, Sizes, OneShort, Misled, Honest, OnlyData;
    assert forall k | 0 <= k < |delivered| :: (delivered + [message])[k] == delivered[k];
    if !Borderline(m, sealed) {
      MisledNext(s, t, m, id, sealed, maxMessageBytes, i, verdict, message);
    } else if OnlyData(m, order + [i]) {
      OneShortNext(s, m, id, maxMessageBytes, i);
    }
  }

  lemma LastOfData(m: Message, order: seq<nat>, i: nat)
    requires m.slice > 0
    ensures OnlyData(m, order + [i]) <==> OnlyData(m, order) && i < DataCount(m)
  {
    hide DataCount;
    assert (order + [i])[|order|] == i;
    if OnlyData(m, order + [i]) {
      forall k | 0 <= k < |order| ensures order[k] < DataCount(m) {
        assert (order + [i])[k] == order[k];
      }
    }
  }

  /** A packet that is dropped on the way changes nothing. */
  lemma BadSkip(s: State, m: Message, id: nat, sealed: bool, order: seq<nat>, i: nat, delivered: seq<Bytes>)
    requires m.slice > 0 && Bad(s, m, id, sealed, order, delivered)
    ensures Bad(s, m, id, sealed, order + [i], delivered)
  {
    LastOfData(m, order, i);
    hide DataCount, OnlyData, OneShort, Misled;
  }

  /** The run ends before its last packet: the rest of it does not matter. */
  lemma OutsideEnd(s: State, m: Message, id: nat, sealed: bool, order: seq<nat>, k: nat, delivered: seq<Bytes>)
    requires m.slice > 0 && k < |order| && Bad(s, m, id, sealed, order[..k], delivered)
    requires !Borderline(m, sealed) || !OnlyData(m, order[..k + 1])
    ensures OnlyData(m, order) || !Borderline(m, sealed) ==> Shorter(delivered, m.payload)
  {
    hide OneShort, Misled, Borderline, DataCount;
    assert OnlyData(m, order) ==> OnlyData(m, order[..k + 1]);
  }

  lemma GoodEnd(s: State, m: Message, id: nat, sealed: bool, order: seq<nat>, delivered: seq<Bytes>)
    requires m.slice > 0 && Good(s, m, id, sealed, order, delivered)
    ensures (delivered == [] || delivered == [m.payload]) && (AllData(m, order) ==> delivered == [m.payload])
    ensures delivered == [m.payload] ==> m.payload in delivered
  {
    hide Collecting, AllData;
  }

  lemma BadEnd(s: State, m: Message, id: nat, sealed: bool, order: seq<nat>, delivered: seq<Bytes>)
    requires m.slice > 0 && Bad(s, m, id, sealed, order, delivered)
    ensures OnlyData(m, order) || !Borderline(m, sealed) ==> Shorter(delivered, m.payload)
  {
    hide OneShort, Misled, OnlyData, Borderline;
  }

  /**
   * Sends the fragments of one message in the given order, through sealing or in the clear, to a new receiver. A
   * message that gets through is delivered intact and once as soon as all its data are there. Any other is not
   * delivered intact when its data arrive, and but for the borderline case in no run at all: whatever is delivered is
   * cut short.
   */
  method ReceiveMessage(t: Tables, m: Message, id: nat, order: seq<nat>, sealed: bool, maxMessageBytes: nat)
    returns (delivered: seq<Bytes>)
    requires t.Valid() && Sizes(m, maxMessageBytes) && id != 0
    requires forall k | 0 <= k < |order| :: order[k] < Total(m)
    ensures GetsThrough(m, sealed, maxMessageBytes) ==>
              (delivered == [] || delivered == [m.payload]) && (AllData(m, order) ==> delivered == [m.payload])
    ensures !GetsThrough(m, sealed, maxMessageBytes) ==>
              (OnlyData(m, order) || !Borderline(m, sealed) ==> Shorter(delivered, m.payload))
    ensures AllData(m, order) && OnlyData(m, order) ==>
              (m.payload in delivered <==> GetsThrough(m, sealed, maxMessageBytes))
  {
    assert m.slice > 0;
    hide GetsThrough, Good, Bad, Step, PacketOf, Sizes, Arriving, Claim, DataCount, AllData, OnlyData;
    var receiver := new Receiver();
    delivered := [];
    Started(m, id, sealed);
    for k := 0 to |order|
      invariant StateOk(receiver.Now())
      invariant GetsThrough(m, sealed, maxMessageBytes) ==>
                  Good(receiver.Now(), m, id, sealed, order[..k], delivered)
      invariant !GetsThrough(m, sealed, maxMessageBytes) ==>
                  Bad(receiver.Now(), m, id, sealed, order[..k], delivered)
    {
      assert order[..k + 1] == order[..k] + [order[k]];
      var p := Arriving(PacketOf(m, id, order[k]), sealed);
      if p.Some? {
        ghost var was, before := receiver.Now(), delivered;
        var verdict, message := receiver.HandleData(t, p.value, maxMessageBytes);
        ghost var now := receiver.Now();
        assert Arrives(was, now, m, id, sealed, maxMessageBytes, order[k], verdict, message);
        if verdict.Delivered? {
          delivered := delivered + [message];
        }
        if GetsThrough(m, sealed, maxMessageBytes) {
          GoodNext(was, now, m, id, sealed, maxMessageBytes, order[..k], order[k], before, verdict, message);
        } else {
          BadNext(was, now, m, id, sealed, maxMessageBytes, order[..k], order[k], before, verdict, message);
        }
        if verdict.Outside? {
          OutsideEnd(was, m, id, sealed, order, k, delivered);
          return;
        }
      } else if GetsThrough(m, sealed, maxMessageBytes) {
        NeverDropped(m, id, sealed, maxMessageBytes, order[k]);
      } else {
        BadSkip(receiver.Now(), m, id, sealed, order[..k], order[k], delivered);
      }
    }
    assert order[..|order|] == order;
    if GetsThrough(m, sealed, maxMessageBytes) {
      GoodEnd(receiver.Now(), m, id, sealed, order, delivered);
    } else {
      BadEnd(receiver.Now(), m, id, sealed, order, delivered);
    }
  }

  // ----- Transfer unit and size limit -----

  /** Data fragments of the longest payload. */
  function MostData(slice: nat, maxMessageBytes: nat): nat
    requires slice > 0
  {
    (maxMessageBytes + 4 + slice - 1) / slice
  }

  lemma FewerData(m: Message, maxMessageBytes: nat)
    requires m.slice > 0 && |m.payload| <= maxMessageBytes
    ensures DataCount(m) <= MostData(m.slice, maxMessageBytes)
    ensures |m.payload| == maxMessageBytes ==> DataCount(m) == MostData(m.slice, maxMessageBytes)
  {
    QuotientMonotone(|m.payload| + 4 + m.slice - 1, maxMessageBytes + 4 + m.slice - 1, m.slice);
  }

  lemma QuotientMonotone(a: nat, b: nat, s: nat)
    requires a <= b && s > 0
    ensures a / s <= b / s
  {
    assert a / s * s <= b < (b / s + 1) * s;
    FactorLess(a / s, b / s + 1, s);
  }

  lemma FactorLess(a: nat, b: nat, s: nat)
    requires a * s < b * s
    ensures a < b
  {
    Monotone(b, if a < b then b else a, s);
  }

  ghost predicate AllGetThrough(slice: nat, parity: nat, sealed: bool, maxMessageBytes: nat)
    requires slice > 0
  {
    forall payload: Bytes | |payload| <= maxMessageBytes ::
      GetsThrough(Message(payload, slice, parity), sealed, maxMessageBytes)
  }

  /**
   * For a transfer unit and a size limit, every payload up to the limit gets through if and only if the fragments of
   * the longest pass the count check, fit 16 bits, and leave the flag bit clear. For units of at least 112 bytes the
   * count check always passes.
   */
  lemma ConfigurationExact(mtu: nat, parity: nat, sealed: bool, maxMessageBytes: nat)
    requires 1 <= parity <= 3
    ensures var slice := SliceSize(mtu);
            var most := MostData(slice, maxMessageBytes);
            && (AllGetThrough(slice, parity, sealed, maxMessageBytes)
                <==> Countable(most, parity, sealed, maxMessageBytes))
            && (mtu >= HEADER_SIZE + 64 ==> most + parity <= MaxFragments(maxMessageBytes))
  {
    hide DataCount, SliceSize, MaxFragments, MostData, Countable;
    var slice := SliceSize(mtu);
    var most := MostData(slice, maxMessageBytes);
    var longest := Message(seq(maxMessageBytes, i => 0), slice, parity);
    FewerData(longest, maxMessageBytes);
    assert GetsThrough(longest, sealed, maxMessageBytes) == Countable(most, parity, sealed, maxMessageBytes);
    forall payload: Bytes | |payload| <= maxMessageBytes && Countable(most, parity, sealed, maxMessageBytes)
      ensures GetsThrough(Message(payload, slice, parity), sealed, maxMessageBytes)
    {
      FewerData(Message(payload, slice, parity), maxMessageBytes);
      FewerCountable(DataCount(Message(payload, slice, parity)), most, parity, sealed, maxMessageBytes);
    }
    if mtu >= HEADER_SIZE + 64 {
      CountCheckPasses(longest, maxMessageBytes);
    }
  }

  lemma FewerCountable(d: nat, most: nat, parity: nat, sealed: bool, maxMessageBytes: nat)
    requires d <= most && Countable(most, parity, sealed, maxMessageBytes)
    ensures Countable(d, parity, sealed, maxMessageBytes)
  {}
}
