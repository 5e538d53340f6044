/** What a message looks like on the wire: length prefix, slices, padding and parity. */
module Fragments {
  import opened Gf256
  import opened GfMatrix
  import opened ReedSolomon

  /** A message to send: its payload, the slice size and the number of parity fragments. */
  datatype Message = Message(payload: Bytes, slice: nat, parity: nat)

  datatype Packet = Packet(
    messageId: nat, index: nat, count: nat, dataCount: nat, realSize: nat, payload: Bytes)

  const HEADER_SIZE: nat := 48

  function Word16(n: nat): nat {
    n % 0x1_0000
  }

  // ----- The length prefix -----

  function ToBe32(n: nat): (r: Bytes)
    ensures |r| == 4
  {
    [((n / 0x100_0000) % 256) as Byte, ((n / 0x1_0000) % 256) as Byte, ((n / 0x100) % 256) as Byte, (n % 256) as Byte]
  }

  function FromBe32(b: Bytes): nat
    requires |b| == 4
  {
    b[0] as nat * 0x100_0000 + b[1] as nat * 0x1_0000 + b[2] as nat * 0x100 + b[3] as nat
  }

  lemma Be32RoundTrip(n: nat)
    requires n < 0x1_0000_0000
    ensures FromBe32(ToBe32(n)) == n
  {
    ByteRoundTrip((n / 0x100_0000) % 256);
    ByteRoundTrip((n / 0x1_0000) % 256);
    ByteRoundTrip((n / 0x100) % 256);
    ByteRoundTrip(n % 256);
    Digits256(n);
  }

  lemma Digits256(n: nat)
    requires n < 0x1_0000_0000
    ensures n == (n / 0x100_0000) % 256 * 0x100_0000 + (n / 0x1_0000) % 256 * 0x1_0000
                 + (n / 0x100) % 256 * 0x100 + n % 256
  {
    assert n / 0x100 == 256 * (n / 0x1_0000) + (n / 0x100) % 256;
    assert n / 0x1_0000 == 256 * (n / 0x100_0000) + (n / 0x1_0000) % 256;
  }

  // ----- Slices -----

  /** The byte stream that is cut into fragments: total length, then the payload. */
  function Full(m: Message): Bytes {
    ToBe32(|m.payload| % 0x1_0000_0000) + m.payload
  }

  function DataCount(m: Message): (d: nat)
    requires m.slice > 0
    ensures d > 0
  {
    CeilingDivision(|Full(m)|, m.slice);
    (|Full(m)| + m.slice - 1) / m.slice
  }

  lemma DataCountBounds(m: Message)
    requires m.slice > 0
    ensures (DataCount(m) - 1) * m.slice < |Full(m)| <= DataCount(m) * m.slice
  {
    CeilingDivision(|Full(m)|, m.slice);
  }

  lemma CeilingDivision(n: nat, s: nat)
    requires s > 0 && n > 0
    ensures var d := (n + s - 1) / s; d > 0 && (d - 1) * s < n <= d * s
  {
    var d := (n + s - 1) / s;
    assert n + s - 1 == d * s + (n + s - 1) % s;
    assert (d - 1) * s == d * s - s;
  }

  function Min(a: nat, b: nat): nat {
    if a < b then a else b
  }

  function Slice(m: Message, i: nat): (r: Bytes)
    requires m.slice > 0 && i < DataCount(m)
    ensures 0 < |r| <= m.slice
    ensures i + 1 < DataCount(m) ==> |r| == m.slice
  {
    SliceBounds(m, i);
    Full(m)[i * m.slice..Min((i + 1) * m.slice, |Full(m)|)]
  }

  lemma SliceBounds(m: Message, i: nat)
    requires m.slice > 0 && i < DataCount(m)
    ensures 0 <= i * m.slice < |Full(m)| && (i + 1) * m.slice == i * m.slice + m.slice
    ensures i + 1 < DataCount(m) ==> (i + 1) * m.slice < |Full(m)|
  {
    var d := DataCount(m);
    DataCountBounds(m);
    Monotone(i, d - 1, m.slice);
    if i + 1 < d {
      Monotone(i + 1, d - 1, m.slice);
    }
  }

  lemma Monotone(a: int, b: int, s: nat)
    requires a <= b
    ensures a * s <= b * s
  {}

  function Slices(m: Message): (r: seq<Bytes>)
    requires m.slice > 0
    ensures |r| == DataCount(m) && forall i | 0 <= i < |r| :: r[i] == Slice(m, i)
  {
    seq(DataCount(m), i requires 0 <= i < DataCount(m) => Slice(m, i))
  }

  // ----- Fragments on the wire -----

  function Total(m: Message): nat
    requires m.slice > 0
  {
    DataCount(m) + m.parity
  }

  function ParityRow(m: Message, p: nat): (r: Bytes)
    requires m.slice > 0
    ensures |r| == m.slice && forall k | 0 <= k < m.slice :: r[k] == ParityByte(Slices(m), p, k)
  {
    seq(m.slice, k requires 0 <= k < m.slice => ParityByte(Slices(m), p, k))
  }

  /** Fragment i as sent, padded to the slice size: a data slice, or a parity. */
  function Wire(m: Message, i: nat): (r: Bytes)
    requires m.slice > 0 && i < Total(m)
    ensures |r| == m.slice
  {
    if i < DataCount(m) then Pad(Slice(m, i), m.slice) else ParityRow(m, i - DataCount(m))
  }

  function RealSize(m: Message, i: nat): nat
    requires m.slice > 0 && i < Total(m)
  {
    if i < DataCount(m) then |Slice(m, i)| else m.slice
  }

  function PacketOf(m: Message, id: nat, i: nat): Packet
    requires m.slice > 0 && i < Total(m)
  {
    Packet(id, Word16(i), Word16(Total(m)), Word16(DataCount(m)), Word16(RealSize(m, i)), Wire(m, i))
  }

  // ----- Messages the receiver can take -----

  function MaxFragments(maxMessageBytes: nat): nat {
    maxMessageBytes / 64 + 8
  }

  /** Sizes fit their header fields, the payload is within the limit and the receiver's count check passes. */
  ghost predicate Legal(m: Message, maxMessageBytes: nat) {
    && 0 < m.slice < 0x1_0000 && 1 <= m.parity <= 3
    && |m.payload| <= maxMessageBytes < 0x1_0000_0000
    && Total(m) <= MaxFragments(maxMessageBytes) && Total(m) < 0x1_0000
  }

  /** Slices of at least 64 bytes never trip the count check. */
  lemma CountCheckPasses(m: Message, maxMessageBytes: nat)
    requires 64 <= m.slice && 1 <= m.parity <= 3 && |m.payload| <= maxMessageBytes
    ensures Total(m) <= MaxFragments(maxMessageBytes)
  {
    var d := DataCount(m);
    DataCountBounds(m);
    MonotoneFactor(d - 1, 64, m.slice);
    assert 64 * (d - 1) < |m.payload| + 4;
  }

  lemma MonotoneFactor(a: nat, s: nat, t: nat)
    requires s <= t
    ensures a * s <= a * t
  {}
}
