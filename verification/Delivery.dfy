/** Whole runs of the receiver: fragments arriving in any order, repeated and interleaved. */
module Delivery {
  import opened Collections
  import opened Options
  import opened Gf256
  import opened GfTables
  import opened GfMatrix
  import opened ReedSolomon
  import opened Vandermonde
  import opened Fragments
  import opened Reassembler

  // ----- One step of the receiver -----

  datatype State = State(incoming: map<nat, Incoming>, completed: set<nat>)

  function Fresh(p: Packet): Incoming {
    Incoming(p.messageId, p.count, p.dataCount, seq(p.count, i => None), seq(p.count, i => 0))
  }

  /** The entry a packet belongs to; an entry that never learnt its id starts over. */
  function EntryFor(incoming: map<nat, Incoming>, p: Packet): Incoming {
    if p.messageId in incoming && incoming[p.messageId].messageId != 0 then incoming[p.messageId] else Fresh(p)
  }

  predicate Fits(e: Incoming, p: Packet) {
    p.index < |e.fragments| == |e.sizes|
  }

  /** First come, first kept: a repeated fragment changes nothing. */
  function WithFragment(e: Incoming, p: Packet): Incoming
    requires Fits(e, p)
  {
    if e.fragments[p.index].Some? then e
    else e.(fragments := e.fragments[p.index := Some(p.payload)], sizes := e.sizes[p.index := p.realSize])
  }

  ghost predicate StateOk(s: State) {
    forall id | id in s.incoming :: WellFormed(s.incoming[id])
  }

  lemma EntryShaped(s: State, p: Packet)
    requires StateOk(s) && p.count > 0
    ensures Shaped(EntryFor(s.incoming, p))
  {}

  /** Packets the receiver drops before they touch an entry. */
  predicate Ignored(s: State, p: Packet, maxMessageBytes: nat) {
    p.count == 0 || p.messageId in s.completed || p.index >= p.count || p.count > MaxFragments(maxMessageBytes)
  }

  /** What a packet comes to; Outside when the source indexes past the packet's entry, after which nothing is known. */
  datatype Verdict = Kept | Delivered | Outside

  ghost function Step(s: State, p: Packet, maxMessageBytes: nat): (r: (State, Verdict))
    requires StateOk(s)
    ensures r.1 != Outside ==> StateOk(r.0)
  {
    if Ignored(s, p, maxMessageBytes) then (s, Kept)
    else
      var e := EntryFor(s.incoming, p);
      if e.totalCount != p.count then (s.(incoming := s.incoming[p.messageId := e]), Kept)
      else
        var e' := WithFragment(e, p);
        if !WellFormed(e') then (s.(incoming := s.incoming[p.messageId := e']), Outside)
        else if Assemblable(e') then
          (State(s.incoming - {p.messageId}, s.completed + {p.messageId}), Delivered)
        else
          (s.(incoming := s.incoming[p.messageId := e']), Kept)
  }

  class Receiver {
    var incoming: map<nat, Incoming>
    var completed: set<nat>

    ghost function Now(): State
      reads this
    {
      State(incoming, completed)
    }

    constructor ()
      ensures Now() == State(map[], {})
    {
      incoming, completed := map[], {};
    }

    /**
     * Takes one data or parity packet. The message handed over is the payload of any legal message all of whose
     * collected fragments are genuine, and never longer than the fragments the entry expects.
     */
    method HandleData(t: Tables, p: Packet, maxMessageBytes: nat) returns (verdict: Verdict, message: Bytes)
      requires t.Valid() && StateOk(Now())
      modifies this
      ensures (Now(), verdict) == Step(old(Now()), p, maxMessageBytes)
      ensures verdict.Delivered? ==> Fits(EntryFor(old(incoming), p), p)
      ensures forall m: Message | verdict.Delivered? && Legal(m, maxMessageBytes)
                && Genuine(WithFragment(EntryFor(old(incoming), p), p), m) :: message == m.payload
      ensures forall n: nat | verdict.Delivered? && Within(WithFragment(EntryFor(old(incoming), p), p), n) ::
                Covered(WithFragment(EntryFor(old(incoming), p), p), n, message)
    {
      hide Assemblable, Genuine, Legal, EntryFor, StateOk, Within, Covered, WellFormed;
      verdict, message := Kept, [];
      if p.count == 0 || p.messageId in completed || p.index >= p.count {
        return;
      }
      if p.count > maxMessageBytes / 64 + 8 {
        return;
      }
      EntryShaped(Now(), p);
      var e := EntryFor(incoming, p);
      incoming := incoming[p.messageId := e];
      if e.totalCount != p.count {
        return;
      }
      if e.fragments[p.index].None? {
        e := e.(fragments := e.fragments[p.index := Some(p.payload)], sizes := e.sizes[p.index := p.realSize]);
        incoming := incoming[p.messageId := e];
      }
      assert incoming == old(incoming)[p.messageId := e];
      var inside, out := TryAssemble(t, e, maxMessageBytes);
      if !inside {
        verdict := Outside;
      } else if out.Some? {
        verdict, message := Delivered, out.value;
        completed := completed + {p.messageId};
        incoming := incoming - {p.messageId};
        assert incoming == old(incoming) - {p.messageId};
      }
    }

    /**
     * When what has arrived so far is the given trace of the messages sent, the receiver stays in step with the trace
     * and delivers exactly on the completing arrival.
     */
    method HandleArrival(t: Tables, p: Packet, maxMessageBytes: nat,
                         ghost sent: map<nat, Message>, ghost trace: seq<Arrival>, ghost a: Arrival)
      returns (out: Option<Bytes>)
      requires t.Valid() && Sent(sent, maxMessageBytes) && a.id in sent && a.index < Total(sent[a.id])
      requires p == PacketOf(sent[a.id], a.id, a.index) && Now() == ExpectedState(sent, trace)
      modifies this
      ensures Now() == ExpectedState(sent, trace + [a])
      ensures out == if Completes(sent, trace, a) then Some(sent[a.id].payload) else None
    {
      hide Step, Genuine, Legal, ExpectedState, Completes, PacketOf, Total, DataCount, WithFragment, EntryFor;
      StepExpected(sent, trace, a, maxMessageBytes);
      var verdict, message := HandleData(t, p, maxMessageBytes);
      out := if verdict.Delivered? then Some(message) else None;
    }
  }

  // ----- Runs of arbitrary packets -----

  /** The state of a new receiver after the given packets, unless an index was outside on the way. */
  ghost function After(packets: seq<Packet>, maxMessageBytes: nat): (r: Option<State>)
    ensures r.Some? ==> StateOk(r.value)
  {
    if packets == [] then Some(State(map[], {}))
    else
      match After(packets[..|packets| - 1], maxMessageBytes)
      case None => None
      case Some(s) =>
        var (t, verdict) := Step(s, packets[|packets| - 1], maxMessageBytes);
        if verdict == Outside then None else Some(t)
  }

  /** The packet opens an entry, and announces more data fragments than fragments. */
  predicate Overstates(s: State, p: Packet, maxMessageBytes: nat) {
    && !Ignored(s, p, maxMessageBytes)
    && !(p.messageId in s.incoming && s.incoming[p.messageId].messageId != 0)
    && 2 <= p.count < p.dataCount
  }

  lemma OutsideExactly(s: State, p: Packet, maxMessageBytes: nat)
    requires StateOk(s)
    ensures Step(s, p, maxMessageBytes).1 == Outside <==> Overstates(s, p, maxMessageBytes)
  {
    hide Assemblable;
  }

  /** Unless the run has ended before, the k-th packet does not overstate its data fragments. */
  ghost predicate Fair(packets: seq<Packet>, k: nat, maxMessageBytes: nat)
    requires k < |packets|
  {
    var s := After(packets[..k], maxMessageBytes);
    s.Some? ==> !Overstates(s.value, packets[k], maxMessageBytes)
  }

  /** Over every run all indices stay inside if and only if no packet that opens an entry overstates its data. */
  lemma {:induction false} InsideExactly(packets: seq<Packet>, maxMessageBytes: nat)
    ensures After(packets, maxMessageBytes).Some? <==>
            forall k | 0 <= k < |packets| :: Fair(packets, k, maxMessageBytes)
  {
    hide Fair, After;
    if packets == [] {
      NothingYet(maxMessageBytes);
    } else {
      var n := |packets| - 1;
      InsideExactly(packets[..n], maxMessageBytes);
      FairLast(packets, maxMessageBytes);
      forall k | 0 <= k < n ensures Fair(packets[..n], k, maxMessageBytes) == Fair(packets, k, maxMessageBytes) {
        FairBefore(packets, k, maxMessageBytes);
      }
    }
  }

  lemma NothingYet(maxMessageBytes: nat)
    ensures After([], maxMessageBytes) == Some(State(map[], {}))
  {}

  lemma FairBefore(packets: seq<Packet>, k: nat, maxMessageBytes: nat)
    requires k < |packets| - 1
    ensures Fair(packets[..|packets| - 1], k, maxMessageBytes) == Fair(packets, k, maxMessageBytes)
  {
    hide After, Overstates;
    assert packets[..|packets| - 1][..k] == packets[..k];
  }

  lemma FairLast(packets: seq<Packet>, maxMessageBytes: nat)
    requires packets != []
    ensures var n := |packets| - 1;
            After(packets, maxMessageBytes).Some?
            <==> After(packets[..n], maxMessageBytes).Some? && Fair(packets, n, maxMessageBytes)
  {
    hide Step, Overstates;
    var n := |packets| - 1;
    if After(packets[..n], maxMessageBytes).Some? {
      OutsideExactly(After(packets[..n], maxMessageBytes).value, packets[n], maxMessageBytes);
    }
  }

  /** Any such packet, and be it the very first one, makes the receiver index outside. */
  lemma FirstOverstates(p: Packet, maxMessageBytes: nat)
    requires 2 <= p.count <= MaxFragments(maxMessageBytes) && p.index < p.count < p.dataCount
    ensures After([p], maxMessageBytes) == None
  {
    hide Step, Overstates;
    var s := State(map[], {});
    assert [p][..0] == [];
    NothingYet(maxMessageBytes);
    assert Overstates(s, p, maxMessageBytes) by { Overstated(p, maxMessageBytes); }
    OutsideExactly(s, p, maxMessageBytes);
  }

  lemma Overstated(p: Packet, maxMessageBytes: nat)
    requires 2 <= p.count <= MaxFragments(maxMessageBytes) && p.index < p.count < p.dataCount
    ensures Overstates(State(map[], {}), p, maxMessageBytes)
  {}

  // ----- Runs -----

  datatype Arrival = Arrival(id: nat, index: nat)

  /** What was sent: legal messages under distinct nonzero ids. */
  ghost predicate Sent(sent: map<nat, Message>, maxMessageBytes: nat) {
    Sendable(sent) && forall id | id in sent :: id != 0 && Legal(sent[id], maxMessageBytes)
  }

  /** Arrivals are fragments of messages sent: some lost, some repeated, in any order. */
  ghost predicate Arrivals(sent: map<nat, Message>, trace: seq<Arrival>)
    requires forall id | id in sent :: sent[id].slice > 0
  {
    forall i | 0 <= i < |trace| :: trace[i].id in sent && trace[i].index < Total(sent[trace[i].id])
  }

  ghost function Arrived(trace: seq<Arrival>, id: nat): set<nat> {
    if trace == [] then {}
    else
      var last := trace[|trace| - 1];
      var rest := Arrived(trace[..|trace| - 1], id);
      if last.id == id then rest + {last.index} else rest
  }

  /** The entry of a message of which the given fragments have arrived. */
  ghost function EntryOf(m: Message, id: nat, have: set<nat>): Incoming
    requires m.slice > 0
  {
    Incoming(id, Total(m), DataCount(m),
             seq(Total(m), i requires 0 <= i < Total(m) => if i in have then Some(Wire(m, i)) else None),
             seq(Total(m), i requires 0 <= i < Total(m) => if i in have then RealSize(m, i) else 0))
  }

  /** The given fragments suffice to assemble the message. */
  ghost predicate Ready(m: Message, have: set<nat>)
    requires m.slice > 0 && m.parity > 0
  {
    Assemblable(EntryOf(m, 1, have))
  }

  /** The message was assemblable at some moment of the run. */
  ghost predicate Done(sent: map<nat, Message>, trace: seq<Arrival>, id: nat)
    requires id in sent && sent[id].slice > 0 && sent[id].parity > 0
  {
    trace != []
    && (Done(sent, trace[..|trace| - 1], id)
        || (trace[|trace| - 1].id == id && Ready(sent[id], Arrived(trace, id))))
  }

  ghost predicate Sendable(sent: map<nat, Message>) {
    forall id | id in sent :: sent[id].slice > 0 && sent[id].parity > 0
  }

  /** Messages some of whose fragments have arrived, none of them assembled. */
  ghost function Open(sent: map<nat, Message>, trace: seq<Arrival>): (r: set<nat>)
    requires Sendable(sent)
    ensures r <= sent.Keys
  {
    set id | id in sent && Arrived(trace, id) != {} && !Done(sent, trace, id)
  }

  ghost function Finished(sent: map<nat, Message>, trace: seq<Arrival>): (r: set<nat>)
    requires Sendable(sent)
    ensures r <= sent.Keys
  {
    set id | id in sent && Done(sent, trace, id)
  }

  /** The receiver's state, told from the arrivals alone. */
  ghost function ExpectedState(sent: map<nat, Message>, trace: seq<Arrival>): State
    requires Sendable(sent)
  {
    State(map id | id in Open(sent, trace) :: EntryOf(sent[id], id, Arrived(trace, id)), Finished(sent, trace))
  }

  /** The arrival completes its message. */
  ghost predicate Completes(sent: map<nat, Message>, trace: seq<Arrival>, a: Arrival)
    requires a.id in sent && sent[a.id].slice > 0 && sent[a.id].parity > 0
  {
    !Done(sent, trace, a.id) && Ready(sent[a.id], Arrived(trace + [a], a.id))
  }

  lemma Extended(sent: map<nat, Message>, trace: seq<Arrival>, a: Arrival, id: nat)
    requires id in sent && sent[id].slice > 0 && sent[id].parity > 0
    ensures Arrived(trace + [a], id) == if a.id == id then Arrived(trace, id) + {a.index} else Arrived(trace, id)
    ensures Done(sent, trace + [a], id)
       <==> Done(sent, trace, id) || (a.id == id && Ready(sent[id], Arrived(trace + [a], id)))
  {
    assert (trace + [a])[..|trace|] == trace;
  }

  lemma NoneArrived(m: Message, id: nat, p: Packet, maxMessageBytes: nat)
    requires Legal(m, maxMessageBytes) && p.messageId == id && p.count == Total(m) && p.dataCount == DataCount(m)
    ensures Fresh(p) == EntryOf(m, id, {})
  {
    hide DataCount;
    assert Fresh(p).fragments == EntryOf(m, id, {}).fragments;
    assert Fresh(p).sizes == EntryOf(m, id, {}).sizes;
  }

  lemma OneMore(m: Message, id: nat, have: set<nat>, i: nat, maxMessageBytes: nat)
    requires Legal(m, maxMessageBytes) && i < Total(m)
    ensures var p, e := PacketOf(m, id, i), EntryOf(m, id, have);
            Fits(e, p) && WithFragment(e, p) == EntryOf(m, id, have + {i})
  {
    PlainHeader(m, id, i, maxMessageBytes);
    hide Wire, RealSize, DataCount, Word16, Slice;
    var p, e, e' := PacketOf(m, id, i), EntryOf(m, id, have), EntryOf(m, id, have + {i});
    assert WithFragment(e, p).fragments == e'.fragments;
    assert WithFragment(e, p).sizes == e'.sizes;
  }

  /** Header fields of a legal message do not wrap. */
  lemma PlainHeader(m: Message, id: nat, i: nat, maxMessageBytes: nat)
    requires Legal(m, maxMessageBytes) && i < Total(m)
    ensures PacketOf(m, id, i) == Packet(id, i, Total(m), DataCount(m), RealSize(m, i), Wire(m, i))
  {
    hide Wire, RealSize, DataCount, Word16;
    RealSizeBound(m, i);
    Plain(i);
    Plain(Total(m));
    Plain(DataCount(m));
    Plain(RealSize(m, i));
  }

  lemma RealSizeBound(m: Message, i: nat)
    requires m.slice > 0 && i < Total(m)
    ensures RealSize(m, i) <= m.slice
  {
    hide Slice, DataCount;
  }

  lemma Plain(n: nat)
    ensures n < 0x1_0000 ==> Word16(n) == n
  {}

  lemma EntryGenuine(m: Message, id: nat, have: set<nat>)
    requires m.slice > 0 && m.parity > 0
    ensures Genuine(EntryOf(m, id, have), m)
  {
    hide Wire, RealSize, DataCount;
  }

  lemma ExpectedOk(sent: map<nat, Message>, trace: seq<Arrival>)
    requires Sendable(sent)
    ensures StateOk(ExpectedState(sent, trace))
  {
    hide Genuine, EntryOf, Arrived, Done, WellFormed, DataCount;
    var s := ExpectedState(sent, trace);
    forall k | k in s.incoming ensures WellFormed(s.incoming[k]) {
      EntryGenuine(sent[k], k, Arrived(trace, k));
      GenuineShape(s.incoming[k], sent[k]);
    }
  }

  lemma SetsAfter(sent: map<nat, Message>, trace: seq<Arrival>, a: Arrival)
    requires Sendable(sent) && a.id in sent
    ensures var ready := Ready(sent[a.id], Arrived(trace, a.id) + {a.index});
            && Finished(sent, trace + [a]) == Finished(sent, trace) + (if ready then {a.id} else {})
            && Open(sent, trace + [a]) == (if a.id in Finished(sent, trace) then Open(sent, trace)
                 else if ready then Open(sent, trace) - {a.id} else Open(sent, trace) + {a.id})
  {
    hide Ready, Arrived, Done, DataCount;
    forall k | k in sent
      ensures Arrived(trace + [a], k) == if a.id == k then Arrived(trace, k) + {a.index} else Arrived(trace, k)
      ensures Done(sent, trace + [a], k)
              <==> Done(sent, trace, k) || (a.id == k && Ready(sent[k], Arrived(trace + [a], k)))
    {
      Extended(sent, trace, a, k);
    }
  }

  /** How one arrival changes the expected state. */
  lemma ExpectedAfter(sent: map<nat, Message>, trace: seq<Arrival>, a: Arrival)
    requires Sendable(sent) && a.id in sent
    ensures var s, m := ExpectedState(sent, trace), sent[a.id];
            var have := Arrived(trace, a.id) + {a.index};
            ExpectedState(sent, trace + [a]) ==
              if a.id in s.completed then s
              else if Ready(m, have) then State(s.incoming - {a.id}, s.completed + {a.id})
              else State(s.incoming[a.id := EntryOf(m, a.id, have)], s.completed)
  {
    hide Ready, EntryOf, Done, Open, Finished, Arrived;
    var s, s', m := ExpectedState(sent, trace), ExpectedState(sent, trace + [a]), sent[a.id];
    var have := Arrived(trace, a.id) + {a.index};
    SetsAfter(sent, trace, a);
    forall k | k in sent
      ensures Arrived(trace + [a], k) == if a.id == k then Arrived(trace, k) + {a.index} else Arrived(trace, k)
    {
      Extended(sent, trace, a, k);
    }
    if a.id in s.completed {
      FinishedNotOpen(sent, trace, a.id);
      assert s'.incoming == s.incoming;
    } else if Ready(m, have) {
      assert s'.incoming == s.incoming - {a.id};
    } else {
      assert s'.incoming == s.incoming[a.id := EntryOf(m, a.id, have)];
    }
  }

  lemma FinishedNotOpen(sent: map<nat, Message>, trace: seq<Arrival>, id: nat)
    requires Sendable(sent) && id in Finished(sent, trace)
    ensures id !in Open(sent, trace)
  {}

  lemma EntryExpected(sent: map<nat, Message>, trace: seq<Arrival>, a: Arrival, maxMessageBytes: nat)
    requires Sent(sent, maxMessageBytes) && a.id in sent && a.index < Total(sent[a.id])
    requires a.id !in ExpectedState(sent, trace).completed
    ensures var m, p := sent[a.id], PacketOf(sent[a.id], a.id, a.index);
            EntryFor(ExpectedState(sent, trace).incoming, p) == EntryOf(m, a.id, Arrived(trace, a.id))
  {
    var m, id := sent[a.id], a.id;
    PlainHeader(m, id, a.index, maxMessageBytes);
    NoneArrived(m, id, PacketOf(m, id, a.index), maxMessageBytes);
    hide Wire, RealSize, DataCount, Done, PacketOf, Arrived, Fresh, Genuine;
    assert id in Open(sent, trace) <==> Arrived(trace, id) != {};
  }

  /** Each arrival takes the expected state to the expected state, and delivers just when it completes its message. */
  lemma StepExpected(sent: map<nat, Message>, trace: seq<Arrival>, a: Arrival, maxMessageBytes: nat)
    requires Sent(sent, maxMessageBytes) && a.id in sent && a.index < Total(sent[a.id])
    ensures var p, s := PacketOf(sent[a.id], a.id, a.index), ExpectedState(sent, trace);
            && StateOk(s)
            && Step(s, p, maxMessageBytes)
               == (ExpectedState(sent, trace + [a]), if Completes(sent, trace, a) then Delivered else Kept)
            && (Completes(sent, trace, a) ==>
                  var e := EntryFor(s.incoming, p);
                  Fits(e, p) && Genuine(WithFragment(e, p), sent[a.id]))
  {
    var m, id := sent[a.id], a.id;
    var s, p, have := ExpectedState(sent, trace), PacketOf(m, id, a.index), Arrived(trace, id);
    ExpectedOk(sent, trace);
    ExpectedAfter(sent, trace, a);
    PlainHeader(m, id, a.index, maxMessageBytes);
    Extended(sent, trace, a, id);
    assert id in s.completed <==> Done(sent, trace, id);
    OneMore(m, id, have, a.index, maxMessageBytes);
    EntryGenuine(m, id, have + {a.index});
    SameAssembly(m, id, have + {a.index});
    hide Wire, RealSize, DataCount, Genuine, Assemblable, WithFragment, PacketOf, Arrived, Done, Ready,
         ExpectedState, EntryOf;
    assert p.count <= MaxFragments(maxMessageBytes);
    if id !in s.completed {
      EntryExpected(sent, trace, a, maxMessageBytes);
      assert EntryOf(m, id, have).totalCount == p.count by { EntryCount(m, id, have); }
    }
  }

  lemma EntryCount(m: Message, id: nat, have: set<nat>)
    requires m.slice > 0
    ensures EntryOf(m, id, have).totalCount == Total(m) && EntryOf(m, id, have).dataCount == DataCount(m)
  {}

  /** Assembly does not look at the message id. */
  lemma SameAssembly(m: Message, id: nat, have: set<nat>)
    requires m.slice > 0 && m.parity > 0
    ensures Assemblable(EntryOf(m, id, have)) <==> Ready(m, have)
  {
    hide Wire, RealSize, DataCount, Recoverable;
    EntryGenuine(m, id, have);
    var e, f := EntryOf(m, id, have), EntryOf(m, 1, have);
    assert e.fragments == f.fragments;
  }

  // ----- Exactly once -----

  /** Ids of the messages delivered over the run. */
  ghost function Log(sent: map<nat, Message>, trace: seq<Arrival>): seq<nat>
    requires Sendable(sent) && Arrivals(sent, trace)
  {
    if trace == [] then []
    else
      var before, last := trace[..|trace| - 1], trace[|trace| - 1];
      Log(sent, before) + (if Completes(sent, before, last) then [last.id] else [])
  }

  /** Every message is delivered once if it could be assembled at some moment, and never otherwise. */
  lemma {:induction false} ExactlyOnce(sent: map<nat, Message>, trace: seq<Arrival>, id: nat)
    requires Sendable(sent) && Arrivals(sent, trace) && id in sent
    ensures multiset(Log(sent, trace))[id] == if Done(sent, trace, id) then 1 else 0
  {
    hide Ready, Arrived;
    if trace != [] {
      var before, last := trace[..|trace| - 1], trace[|trace| - 1];
      assert before + [last] == trace;
      ExactlyOnce(sent, before, id);
      var rest, tail := Log(sent, before), if Completes(sent, before, last) then [last.id] else [];
      assert multiset(rest + tail) == multiset(rest) + multiset(tail);
    }
  }

  lemma {:induction false} MissingSplit(x: seq<Option<Bytes>>, y: seq<Option<Bytes>>)
    ensures |Missing(x + y)| == |Missing(x)| + |Missing(y)|
  {
    if y == [] {
      assert x + y == x;
    } else {
      var n := |y| - 1;
      assert (x + y)[..|x + y| - 1] == x + y[..n];
      MissingSplit(x, y[..n]);
    }
  }

  lemma {:induction false} MissingCounted(fragments: seq<Option<Bytes>>, have: set<nat>)
    requires forall i | 0 <= i < |fragments| :: fragments[i].Some? <==> i in have
    requires forall i | i in have :: i < |fragments|
    ensures |have| + |Missing(fragments)| == |fragments|
  {
    if fragments == [] {
      assert have == {};
    } else {
      var n := |fragments| - 1;
      MissingCounted(fragments[..n], have - {n});
      if n in have {
        assert |have - {n}| == |have| - 1;
      } else {
        assert have - {n} == have;
      }
    }
  }

  /** Fragments at hand, lost data fragments and parities balance. */
  lemma Balance(fragments: seq<Option<Bytes>>, have: set<nat>, d: nat, n: nat)
    requires |fragments| == d + n
    requires forall i | 0 <= i < |fragments| :: fragments[i].Some? <==> i in have
    requires forall i | i in have :: i < |fragments|
    ensures |have| + |Missing(fragments[..d])| == d + |ParitiesAt(fragments, d, n)|
  {
    assert fragments == fragments[..d] + fragments[d..d + n];
    MissingSplit(fragments[..d], fragments[d..d + n]);
    MissingCounted(fragments, have);
    ParitiesCounted(fragments, d, n);
  }

  /** A parity at hand is a full-width fragment. */
  lemma ParityHasWidth(m: Message, have: set<nat>)
    requires m.slice > 0 && m.parity > 0
    requires Parities(EntryOf(m, 1, have)) != []
    ensures Widest(EntryOf(m, 1, have).fragments) > 0
  {
    var e, d := EntryOf(m, 1, have), DataCount(m);
    hide Wire, RealSize, DataCount;
    ParitiesFound(e.fragments, d, m.parity);
    assert e.fragments[d + Parities(e)[0].0].Some?;
    WidestGenuine(e.fragments, m.slice);
  }

  lemma SenderEntry(m: Message, have: set<nat>)
    requires m.slice > 0 && 1 <= m.parity <= 3
    requires forall i | i in have :: i < Total(m)
    ensures var e, d := EntryOf(m, 1, have), DataCount(m);
            && WellFormed(e) && e.totalCount == d + m.parity && e.dataCount == d
            && |have| + |Missing(e.fragments[..d])| == d + |Parities(e)|
            && SenderRows(Parities(e), |Parities(e)|)
  {
    hide Wire, RealSize, DataCount, ParitiesAt, EntryOf, Missing;
    var e, d := EntryOf(m, 1, have), DataCount(m);
    EntryShape(m, have);
    Balance(e.fragments, have, d, m.parity);
    ParitiesFound(e.fragments, d, m.parity);
  }

  lemma EntryShape(m: Message, have: set<nat>)
    requires m.slice > 0 && m.parity > 0
    ensures var e := EntryOf(m, 1, have);
      WellFormed(e) && e.totalCount == DataCount(m) + m.parity && e.dataCount == DataCount(m)
      && forall i | 0 <= i < |e.fragments| :: e.fragments[i].Some? <==> i in have
  {
    hide Wire, RealSize, DataCount;
  }

  /** Up to 255 data fragments, as many distinct fragments as there are data fragments suffice, whichever they are. */
  lemma ReadyIffEnough(m: Message, have: set<nat>)
    requires m.slice > 0 && 1 <= m.parity <= 3 && DataCount(m) <= 255
    requires forall i | i in have :: i < Total(m)
    ensures Ready(m, have) <==> |have| >= DataCount(m)
  {
    hide DataCount, Nonsingular, Coefficients, EntryOf, ParitiesAt, Widest, SenderRows;
    SenderEntry(m, have);
    var e, d := EntryOf(m, 1, have), DataCount(m);
    if |have| >= d && Missing(e.fragments[..d]) != [] {
      RecoveryAlwaysSucceeds(e.fragments[..d], Parities(e));
      ParityHasWidth(m, have);
    }
  }

  /** At that size the receiver has delivered a message exactly when enough distinct fragments have arrived. */
  lemma {:induction false} DeliveredIffEnough(sent: map<nat, Message>, trace: seq<Arrival>, id: nat)
    requires Sendable(sent) && Arrivals(sent, trace)
    requires id in sent && sent[id].parity <= 3 && DataCount(sent[id]) <= 255
    ensures forall i | i in Arrived(trace, id) :: i < Total(sent[id])
    ensures Done(sent, trace, id) <==> |Arrived(trace, id)| >= DataCount(sent[id])
  {
    hide Ready, DataCount, Done, Arrived;
    NothingArrived(sent, id);
    if trace != [] {
      var before, last := trace[..|trace| - 1], trace[|trace| - 1];
      assert before + [last] == trace;
      DeliveredIffEnough(sent, before, id);
      Extended(sent, before, last, id);
      ReadyIffEnough(sent[id], Arrived(trace, id));
      SubsetSize(Arrived(before, id), Arrived(trace, id));
    }
  }

  // ----- A whole run of the receiver -----

  lemma LogStep(sent: map<nat, Message>, before: seq<Arrival>, a: Arrival)
    requires Sendable(sent) && Arrivals(sent, before + [a])
    ensures Arrivals(sent, before) && a.id in sent && a.index < Total(sent[a.id])
    ensures Log(sent, before + [a]) == Log(sent, before) + if Completes(sent, before, a) then [a.id] else []
  {
    hide Completes, DataCount;
    assert (before + [a])[..|before|] == before && (before + [a])[|before|] == a;
    forall i | 0 <= i < |before| ensures before[i].id in sent && before[i].index < Total(sent[before[i].id]) {
      assert before[i] == (before + [a])[i];
    }
  }

  lemma ExpectedAtFirst(sent: map<nat, Message>)
    requires Sendable(sent)
    ensures ExpectedState(sent, []) == State(map[], {})
  {
    hide Ready, EntryOf;
    var s := ExpectedState(sent, []);
    assert s.incoming == map[] && s.completed == {};
  }

  /** The packets of a trace. */
  ghost predicate Carries(sent: map<nat, Message>, trace: seq<Arrival>, packets: seq<Packet>)
    requires Sendable(sent) && Arrivals(sent, trace)
  {
    |packets| == |trace|
    && forall i | 0 <= i < |trace| :: packets[i] == PacketOf(sent[trace[i].id], trace[i].id, trace[i].index)
  }

  /**
   * A new receiver fed with all packets of a run hands over exactly the payloads sent of the messages that could be
   * assembled, each of them once; up to 255 data fragments these are the messages of which enough fragments came.
   */
  method ReceiveAll(t: Tables, packets: seq<Packet>, maxMessageBytes: nat,
                    ghost sent: map<nat, Message>, ghost trace: seq<Arrival>)
    returns (delivered: seq<Bytes>)
    requires t.Valid() && Sent(sent, maxMessageBytes) && Arrivals(sent, trace) && Carries(sent, trace, packets)
    ensures |delivered| == |Log(sent, trace)|
    ensures forall k | 0 <= k < |delivered| ::
              var id := Log(sent, trace)[k]; id in sent && delivered[k] == sent[id].payload
    ensures forall id | id in sent :: multiset(Log(sent, trace))[id] == if Done(sent, trace, id) then 1 else 0
    ensures forall id | id in sent && DataCount(sent[id]) <= 255 ::
              multiset(Log(sent, trace))[id] == if |Arrived(trace, id)| >= DataCount(sent[id]) then 1 else 0
  {
    hide Log, Completes, ExpectedState, Done, DataCount, Arrived, Step, PacketOf, Legal, Genuine;
    var receiver := new Receiver();
    delivered := [];
    ghost var ids: seq<nat> := [];
    ExpectedAtFirst(sent);
    LogEmpty(sent);
    for i := 0 to |packets|
      invariant receiver.Now() == ExpectedState(sent, trace[..i])
      invariant Arrivals(sent, trace[..i]) && ids == Log(sent, trace[..i])
      invariant |delivered| == |ids|
      invariant forall k | 0 <= k < |ids| :: ids[k] in sent && delivered[k] == sent[ids[k]].payload
    {
      ghost var before, a := trace[..i], trace[i];
      assert trace[..i + 1] == before + [a];
      LogStep(sent, before, a);
      var out := receiver.HandleArrival(t, packets[i], maxMessageBytes, sent, before, a);
      if out.Some? {
        delivered := delivered + [out.value];
        ids := ids + [a.id];
      }
    }
    assert trace[..|packets|] == trace;
    forall id | id in sent ensures multiset(Log(sent, trace))[id] == if Done(sent, trace, id) then 1 else 0 {
      ExactlyOnce(sent, trace, id);
    }
    forall id | id in sent && DataCount(sent[id]) <= 255
      ensures multiset(Log(sent, trace))[id] == if |Arrived(trace, id)| >= DataCount(sent[id]) then 1 else 0
    {
      ParityBounded(sent, maxMessageBytes, id);
      DeliveredIffEnough(sent, trace, id);
    }
  }

  lemma ParityBounded(sent: map<nat, Message>, maxMessageBytes: nat, id: nat)
    requires Sent(sent, maxMessageBytes) && id in sent
    ensures sent[id].parity <= 3
  {}

  lemma LogEmpty(sent: map<nat, Message>)
    requires Sendable(sent)
    ensures Log(sent, []) == []
  {}

  lemma NothingArrived(sent: map<nat, Message>, id: nat)
    requires Sendable(sent) && id in sent
    ensures !Done(sent, [], id) && Arrived([], id) == {}
  {}
}
