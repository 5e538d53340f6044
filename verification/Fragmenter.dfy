/** The sender's data path: one message in, all its fragments out. */
module Fragmenter {
  import opened Gf256
  import opened GfTables
  import opened ReedSolomon
  import opened Fragments

  const ID_MASK: nat := 0x8000_0000

  function SliceSize(mtu: nat): (s: nat)
    ensures s >= 5
    ensures mtu >= HEADER_SIZE + 64 ==> s == mtu - HEADER_SIZE >= 64
  {
    var s := if mtu > HEADER_SIZE then mtu - HEADER_SIZE else 64;
    if s <= 4 then 64 else s
  }

  /** Message ids count through 1 .. 2^31 - 1 and start over, skipping 0. */
  function IdAfter(id: nat): nat {
    if id + 1 < ID_MASK then id + 1 else 1
  }

  /** The 32-bit counter, seen modulo 2^31. */
  lemma Counting(n: nat)
    requires n < 0x1_0000_0000
    ensures ((n + 1) % 0x1_0000_0000) % ID_MASK == if n % ID_MASK + 1 == ID_MASK then 0 else n % ID_MASK + 1
  {}

  class Sender {
    var msgIdOut: nat
    var parities: seq<Bytes>

    ghost predicate Valid()
      reads this
    {
      msgIdOut < 0x1_0000_0000
    }

    /** The id of the next message. */
    ghost function NextId(): nat
      reads this
    {
      if msgIdOut % ID_MASK == 0 then 1 else msgIdOut % ID_MASK
    }

    constructor ()
      ensures Valid() && NextId() == 1
    {
      msgIdOut := 1;
      parities := [];
    }

    method AssignId() returns (id: nat)
      requires Valid()
      modifies this`msgIdOut
      ensures Valid() && id == old(NextId()) && 0 < id < ID_MASK
      ensures NextId() == IdAfter(id)
    {
      Counting(msgIdOut);
      id := msgIdOut % ID_MASK;
      msgIdOut := (msgIdOut + 1) % 0x1_0000_0000;
      while id == 0
        invariant msgIdOut < 0x1_0000_0000
        invariant id == 0 ==> msgIdOut % ID_MASK == 1 && old(NextId()) == 1
        invariant id != 0 ==> id == old(NextId()) && id < ID_MASK && NextId() == IdAfter(id)
        decreases id == 0
      {
        Counting(msgIdOut);
        id := msgIdOut % ID_MASK;
        msgIdOut := (msgIdOut + 1) % 0x1_0000_0000;
      }
    }

    /** Emits the data fragments in order, then the parities; parityCount stands for the loss-driven choice. */
    method FragmentAndSend(t: Tables, payload: Bytes, mtu: nat, parityCount: nat)
      returns (id: nat, packets: seq<Packet>)
      requires t.Valid() && Valid() && 1 <= parityCount <= 3
      modifies this
      ensures Valid() && id == old(NextId()) && NextId() == IdAfter(id)
      ensures packets == AllPackets(Message(payload, SliceSize(mtu), parityCount), id)
    {
      var slice := SliceSize(mtu);
      ghost var m := Message(payload, slice, parityCount);
      id := AssignId();
      var spans := Split(payload, slice, parityCount);
      parities := EncodeInto(t, spans, parityCount, slice, parities);
      forall p | 0 <= p < parityCount ensures |parities[p]| >= slice && Pad(parities[p], slice) == ParityRow(m, p) {}
      packets := Emit(id, spans, parities, slice, parityCount, m);
    }
  }

  function AllPackets(m: Message, id: nat): (r: seq<Packet>)
    requires m.slice > 0
    ensures |r| == Total(m) && forall i | 0 <= i < Total(m) :: r[i] == PacketOf(m, id, i)
  {
    seq(Total(m), i requires 0 <= i < Total(m) => PacketOf(m, id, i))
  }

  /** Cuts the prefixed payload into slices. */
  method Split(payload: Bytes, slice: nat, ghost parity: nat) returns (spans: seq<Bytes>)
    requires slice > 0
    ensures spans == Slices(Message(payload, slice, parity))
  {
    ghost var m := Message(payload, slice, parity);
    var full := ToBe32(|payload| % 0x1_0000_0000) + payload;
    assert full == Full(m);
    hide ToBe32, Full;
    var dataCount := (|full| + slice - 1) / slice;
    assert dataCount == DataCount(m);
    spans := [];
    for i := 0 to dataCount
      invariant |spans| == i && forall j | 0 <= j < i :: spans[j] == Slice(m, j)
    {
      SliceBounds(m, i);
      var off := i * slice;
      var len := Min(slice, |full| - off);
      spans := spans + [full[off..off + len]];
    }
  }

  lemma DataPacket(m: Message, id: nat, i: nat)
    requires m.slice > 0 && i < DataCount(m)
    ensures PacketOf(m, id, i) == Packet(id, Word16(i), Word16(Total(m)), Word16(DataCount(m)),
                                         Word16(|Slice(m, i)|), Pad(Slice(m, i), m.slice))
  {
    hide DataCount, Slice, Word16;
  }

  lemma ParityPacket(m: Message, id: nat, p: nat)
    requires m.slice > 0 && p < m.parity
    ensures PacketOf(m, id, DataCount(m) + p)
         == Packet(id, Word16(DataCount(m) + p), Word16(Total(m)), Word16(DataCount(m)), Word16(m.slice),
                   ParityRow(m, p))
  {
    hide DataCount, ParityRow, Word16;
  }

  /** Hands every fragment over, padded to the slice size: data first, then parity. */
  method Emit(id: nat, spans: seq<Bytes>, parities: seq<Bytes>, slice: nat, parityCount: nat, ghost m: Message)
    returns (packets: seq<Packet>)
    requires m.slice == slice > 0 && m.parity == parityCount && spans == Slices(m) && |parities| >= parityCount
    requires forall p | 0 <= p < parityCount :: |parities[p]| >= slice && Pad(parities[p], slice) == ParityRow(m, p)
    ensures packets == AllPackets(m, id)
  {
    hide PacketOf, Full, Word16, DataCount;
    packets := [];
    var dataCount := |spans|;
    for i := 0 to dataCount
      invariant |packets| == i && forall j | 0 <= j < i :: packets[j] == PacketOf(m, id, j)
    {
      DataPacket(m, id, i);
      packets := packets + [Packet(id, Word16(i), Word16(dataCount + parityCount), Word16(dataCount),
                                   Word16(|spans[i]|), Pad(spans[i], slice))];
    }
    for p := 0 to parityCount
      invariant |packets| == dataCount + p
      invariant forall j | 0 <= j < dataCount + p :: packets[j] == PacketOf(m, id, j)
    {
      ParityPacket(m, id, p);
      packets := packets + [Packet(id, Word16(dataCount + p), Word16(dataCount + parityCount), Word16(dataCount),
                                   Word16(slice), Pad(parities[p], slice))];
    }
  }
}
