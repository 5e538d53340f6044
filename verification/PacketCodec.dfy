/** The 48-byte datagram header, the checksum field and decoding. Hosts are little-endian, as the byte swaps assume. */
module PacketCodec {
  import opened Crc32

  const MAGIC: bv32 := 0x54474854
  const VERSION: Byte := 1

  datatype Header = Header(
    magic: bv32, version: Byte, kind: Byte, flags: bv16, clientId: bv32, sessionId: bv64, sequence: bv32,
    acknowledgment: bv32, messageId: bv32, fragmentIndex: bv16, fragmentCount: bv16, payloadSize: bv16,
    reserved: bv16, tick: bv32, checksum: bv32)

  function Size(v: bv16): (n: nat)
    ensures n < 0x10000
  {
    v as nat
  }

  datatype Decoded = Rejected | Packet(header: Header, payload: seq<Byte>)

  // ----- Words as bytes -----

  function Be16(v: bv16): (b: seq<Byte>)
    ensures |b| == 2
  {
    [(v >> 8) as Byte, (v & 0xFF) as Byte]
  }

  function Be32(v: bv32): (b: seq<Byte>)
    ensures |b| == 4
  {
    [(v >> 24) as Byte, ((v >> 16) & 0xFF) as Byte, ((v >> 8) & 0xFF) as Byte, (v & 0xFF) as Byte]
  }

  function Get16(b: seq<Byte>): bv16
    requires |b| == 2
  {
    (b[0] as bv16 << 8) | b[1] as bv16
  }

  function Get32(b: seq<Byte>): bv32
    requires |b| == 4
  {
    (b[0] as bv32 << 24) | (b[1] as bv32 << 16) | (b[2] as bv32 << 8) | b[3] as bv32
  }

  function LowHalf(v: bv64): bv32 {
    (v & 0xFFFFFFFF) as bv32
  }

  function HighHalf(v: bv64): bv32 {
    (v >> 32) as bv32
  }

  function Join(low: bv32, high: bv32): bv64 {
    (high as bv64 << 32) | low as bv64
  }

  lemma Word16(v: bv16)
    ensures Get16(Be16(v)) == v
  {}

  lemma Bytes16(b: seq<Byte>)
    requires |b| == 2
    ensures Be16(Get16(b)) == b
  {}

  lemma Word32(v: bv32)
    ensures Get32(Be32(v)) == v
  {}

  lemma Bytes32(b: seq<Byte>)
    requires |b| == 4
    ensures Be32(Get32(b)) == b
  {}

  lemma Halves64(v: bv64)
    ensures Join(LowHalf(v), HighHalf(v)) == v
  {}

  lemma Joined64(low: bv32, high: bv32)
    ensures LowHalf(Join(low, high)) == low && HighHalf(Join(low, high)) == high
  {}

  // ----- The header -----

  /** Bytes 0 to 12. */
  function Lead(h: Header): (b: seq<Byte>)
    ensures |b| == 12
  {
    Be32(h.magic) + [h.version] + [h.kind] + Be16(h.flags) + Be32(h.clientId)
  }

  /** Bytes 12 to 32; the session id goes out low half first. */
  function Numbers(h: Header): (b: seq<Byte>)
    ensures |b| == 20
  {
    Be32(LowHalf(h.sessionId)) + Be32(HighHalf(h.sessionId)) + Be32(h.sequence) + Be32(h.acknowledgment)
    + Be32(h.messageId)
  }

  /** Bytes 32 to 44. */
  function Fragment(h: Header): (b: seq<Byte>)
    ensures |b| == 12
  {
    Be16(h.fragmentIndex) + Be16(h.fragmentCount) + Be16(h.payloadSize) + Be16(h.reserved) + Be32(h.tick)
  }

  /** The 44 bytes before the checksum. */
  function Front(h: Header): (b: seq<Byte>)
    ensures |b| == 44
  {
    Lead(h) + Numbers(h) + Fragment(h)
  }

  function Parse(b: seq<Byte>): Header
    requires |b| >= 48
  {
    Header(Get32(b[0..4]), b[4], b[5], Get16(b[6..8]), Get32(b[8..12]), Join(Get32(b[12..16]), Get32(b[16..20])),
           Get32(b[20..24]), Get32(b[24..28]), Get32(b[28..32]), Get16(b[32..34]), Get16(b[34..36]),
           Get16(b[36..38]), Get16(b[38..40]), Get32(b[40..44]), Get32(b[44..48]))
  }

  lemma FiveParts(a: seq<Byte>, b: seq<Byte>, c: seq<Byte>, d: seq<Byte>, e: seq<Byte>)
    ensures var s, i, j := a + b + c + d + e, |a| + |b|, |a| + |b| + |c|;
      s[0..|a|] == a && s[|a|..i] == b && s[i..j] == c && s[j..j + |d|] == d && s[j + |d|..j + |d| + |e|] == e
  {}

  lemma LeadParts(h: Header)
    ensures var b := Lead(h);
      b[0..4] == Be32(h.magic) && b[4] == h.version && b[5] == h.kind && b[6..8] == Be16(h.flags)
      && b[8..12] == Be32(h.clientId)
  {
    hide Be16, Be32;
    FiveParts(Be32(h.magic), [h.version], [h.kind], Be16(h.flags), Be32(h.clientId));
    assert Lead(h)[4] == Lead(h)[4..5][0] && Lead(h)[5] == Lead(h)[5..6][0];
  }

  lemma NumbersParts(h: Header)
    ensures var b := Numbers(h);
      b[0..4] == Be32(LowHalf(h.sessionId)) && b[4..8] == Be32(HighHalf(h.sessionId)) && b[8..12] == Be32(h.sequence)
      && b[12..16] == Be32(h.acknowledgment) && b[16..20] == Be32(h.messageId)
  {
    hide Be32, LowHalf, HighHalf;
    FiveParts(Be32(LowHalf(h.sessionId)), Be32(HighHalf(h.sessionId)), Be32(h.sequence), Be32(h.acknowledgment),
              Be32(h.messageId));
  }

  lemma FragmentParts(h: Header)
    ensures var b := Fragment(h);
      b[0..2] == Be16(h.fragmentIndex) && b[2..4] == Be16(h.fragmentCount) && b[4..6] == Be16(h.payloadSize)
      && b[6..8] == Be16(h.reserved) && b[8..12] == Be32(h.tick)
  {
    hide Be16, Be32;
    FiveParts(Be16(h.fragmentIndex), Be16(h.fragmentCount), Be16(h.payloadSize), Be16(h.reserved), Be32(h.tick));
  }

  lemma SliceOfSlice<T>(b: seq<T>, lo: nat, hi: nat, i: nat, j: nat)
    requires lo <= hi <= |b| && i <= j <= hi - lo
    ensures b[lo..hi][i..j] == b[lo + i..lo + j]
  {
    forall k | 0 <= k < j - i
      ensures b[lo..hi][i..j][k] == b[lo + i..lo + j][k]
    {
      assert b[lo..hi][i..j][k] == b[lo..hi][i + k] == b[lo + (i + k)] == b[(lo + i) + k];
    }
  }

  /** Reading the header back gives every field, and the checksum that stands after it. */
  lemma ParseFront(b: seq<Byte>, h: Header, crc: bv32)
    requires |b| >= 48 && b[..44] == Front(h) && b[44..48] == Be32(crc)
    ensures Parse(b) == h.(checksum := crc)
  {
    hide Be16, Be32, LowHalf, HighHalf, Get16, Get32, Join, Lead, Numbers, Fragment;
    assert b[0..12] == Lead(h) && b[12..32] == Numbers(h) && b[32..44] == Fragment(h) by { FrontSplit(b, h); }
    ParseLead(b, h);
    ParseNumbers(b, h);
    ParseFragment(b, h);
    Word32(crc);
  }

  lemma FrontSplit(b: seq<Byte>, h: Header)
    requires |b| >= 48 && b[..44] == Front(h)
    ensures b[0..12] == Lead(h) && b[12..32] == Numbers(h) && b[32..44] == Fragment(h)
  {
    hide Lead, Numbers, Fragment;
    assert b[0..12] == b[..44][..12] && b[12..32] == b[..44][12..32] && b[32..44] == b[..44][32..];
  }

  lemma ParseLead(b: seq<Byte>, h: Header)
    requires |b| >= 48 && b[0..12] == Lead(h)
    ensures Parse(b).magic == h.magic && Parse(b).version == h.version && Parse(b).kind == h.kind
    ensures Parse(b).flags == h.flags && Parse(b).clientId == h.clientId
  {
    hide Be16, Be32, Get16, Get32, Join, Lead;
    LeadParts(h);
    SliceOfSlice(b, 0, 12, 0, 4);
    SliceOfSlice(b, 0, 12, 6, 8);
    SliceOfSlice(b, 0, 12, 8, 12);
    assert b[4] == b[0..12][4] && b[5] == b[0..12][5];
    Word32(h.magic);
    Word16(h.flags);
    Word32(h.clientId);
  }

  lemma ParseNumbers(b: seq<Byte>, h: Header)
    requires |b| >= 48 && b[12..32] == Numbers(h)
    ensures Parse(b).sessionId == h.sessionId && Parse(b).sequence == h.sequence
    ensures Parse(b).acknowledgment == h.acknowledgment && Parse(b).messageId == h.messageId
  {
    hide Be16, Be32, LowHalf, HighHalf, Get16, Get32, Join, Numbers;
    NumbersParts(h);
    SliceOfSlice(b, 12, 32, 0, 4);
    SliceOfSlice(b, 12, 32, 4, 8);
    SliceOfSlice(b, 12, 32, 8, 12);
    SliceOfSlice(b, 12, 32, 12, 16);
    SliceOfSlice(b, 12, 32, 16, 20);
    Word32(LowHalf(h.sessionId));
    Word32(HighHalf(h.sessionId));
    Halves64(h.sessionId);
    Word32(h.sequence);
    Word32(h.acknowledgment);
    Word32(h.messageId);
  }

  lemma ParseFragment(b: seq<Byte>, h: Header)
    requires |b| >= 48 && b[32..44] == Fragment(h)
    ensures Parse(b).fragmentIndex == h.fragmentIndex && Parse(b).fragmentCount == h.fragmentCount
    ensures Parse(b).payloadSize == h.payloadSize && Parse(b).reserved == h.reserved && Parse(b).tick == h.tick
  {
    hide Be16, Be32, Get16, Get32, Join, Fragment;
    FragmentParts(h);
    SliceOfSlice(b, 32, 44, 0, 2);
    SliceOfSlice(b, 32, 44, 2, 4);
    SliceOfSlice(b, 32, 44, 4, 6);
    SliceOfSlice(b, 32, 44, 6, 8);
    SliceOfSlice(b, 32, 44, 8, 12);
    Word16(h.fragmentIndex);
    Word16(h.fragmentCount);
    Word16(h.payloadSize);
    Word16(h.reserved);
    Word32(h.tick);
  }

  /** Writing a parsed header reproduces its bytes. */
  lemma FrontParse(b: seq<Byte>)
    requires |b| >= 48
    ensures Front(Parse(b)) == b[..44] && Be32(Parse(b).checksum) == b[44..48]
  {
    hide Be16, Be32, LowHalf, HighHalf, Get16, Get32, Join, Lead, Numbers, Fragment;
    LeadBytes(b);
    NumbersBytes(b);
    FragmentBytes(b);
    Bytes32(b[44..48]);
    assert b[..44] == b[0..12] + b[12..32] + b[32..44];
  }

  lemma LeadBytes(b: seq<Byte>)
    requires |b| >= 48
    ensures Lead(Parse(b)) == b[0..12]
  {
    hide Be16, Be32, Get16, Get32, Join;
    Bytes32(b[0..4]);
    Bytes16(b[6..8]);
    Bytes32(b[8..12]);
    assert b[0..12] == b[0..4] + [b[4]] + [b[5]] + b[6..8] + b[8..12];
  }

  lemma NumbersBytes(b: seq<Byte>)
    requires |b| >= 48
    ensures Numbers(Parse(b)) == b[12..32]
  {
    hide Be16, Be32, LowHalf, HighHalf, Get16, Get32, Join;
    Bytes32(b[12..16]);
    Bytes32(b[16..20]);
    Joined64(Get32(b[12..16]), Get32(b[16..20]));
    Bytes32(b[20..24]);
    Bytes32(b[24..28]);
    Bytes32(b[28..32]);
    FiveWords(b);
  }

  lemma FiveWords(b: seq<Byte>)
    requires |b| >= 32
    ensures b[12..32] == b[12..16] + b[16..20] + b[20..24] + b[24..28] + b[28..32]
  {
    assert b[12..32] == b[12..28] + b[28..32] && b[12..28] == b[12..24] + b[24..28];
    assert b[12..24] == b[12..20] + b[20..24] && b[12..20] == b[12..16] + b[16..20];
  }

  lemma FragmentBytes(b: seq<Byte>)
    requires |b| >= 48
    ensures Fragment(Parse(b)) == b[32..44]
  {
    hide Be16, Be32, Get16, Get32, Join;
    Bytes16(b[32..34]);
    Bytes16(b[34..36]);
    Bytes16(b[36..38]);
    Bytes16(b[38..40]);
    Bytes32(b[40..44]);
    assert b[32..44] == b[32..34] + b[34..36] + b[36..38] + b[38..40] + b[40..44];
  }

  // ----- Writing -----

  method Put32(out: array<Byte>, off: nat, v: bv32)
    requires off + 4 <= out.Length
    modifies out
    ensures out[..off + 4] == old(out[..off]) + Be32(v)
    ensures forall i :: off + 4 <= i < out.Length ==> out[i] == old(out[i])
  {
    var b := Be32(v);
    hide Be32;
    out[off], out[off + 1], out[off + 2], out[off + 3] := b[0], b[1], b[2], b[3];
  }

  method Put16(out: array<Byte>, off: nat, v: bv16)
    requires off + 2 <= out.Length
    modifies out
    ensures out[..off + 2] == old(out[..off]) + Be16(v)
    ensures forall i :: off + 2 <= i < out.Length ==> out[i] == old(out[i])
  {
    var b := Be16(v);
    hide Be16;
    out[off], out[off + 1] := b[0], b[1];
  }

  method PutByte(out: array<Byte>, off: nat, v: Byte)
    requires off < out.Length
    modifies out
    ensures out[..off + 1] == old(out[..off]) + [v]
    ensures forall i :: off + 1 <= i < out.Length ==> out[i] == old(out[i])
  {
    out[off] := v;
  }

  method PutLead(h: Header, out: array<Byte>)
    requires out.Length >= 48
    modifies out
    ensures out[..12] == Lead(h)
    ensures forall i :: 12 <= i < out.Length ==> out[i] == old(out[i])
  {
    hide Be16, Be32;
    Put32(out, 0, h.magic);
    assert out[..4] == Be32(h.magic);
    PutByte(out, 4, h.version);
    PutByte(out, 5, h.kind);
    Put16(out, 6, h.flags);
    Put32(out, 8, h.clientId);
  }

  method PutNumbers(h: Header, out: array<Byte>)
    requires out.Length >= 48
    modifies out
    ensures out[..32] == old(out[..12]) + Numbers(h)
    ensures forall i :: 32 <= i < out.Length ==> out[i] == old(out[i])
  {
    hide Be32, LowHalf, HighHalf;
    ghost var before, b := out[..12], Be32(LowHalf(h.sessionId));
    Put32(out, 12, LowHalf(h.sessionId));
    Put32(out, 16, HighHalf(h.sessionId));
    assert out[..20] == before + (b + Be32(HighHalf(h.sessionId)));
    b := b + Be32(HighHalf(h.sessionId));
    Put32(out, 20, h.sequence);
    assert out[..24] == before + (b + Be32(h.sequence));
    b := b + Be32(h.sequence);
    Put32(out, 24, h.acknowledgment);
    assert out[..28] == before + (b + Be32(h.acknowledgment));
    b := b + Be32(h.acknowledgment);
    Put32(out, 28, h.messageId);
    assert out[..32] == before + (b + Be32(h.messageId));
  }

  method PutFragment(h: Header, out: array<Byte>)
    requires out.Length >= 48
    modifies out
    ensures out[..44] == old(out[..32]) + Fragment(h)
    ensures forall i :: 44 <= i < out.Length ==> out[i] == old(out[i])
  {
    hide Be16, Be32;
    ghost var before, b := out[..32], Be16(h.fragmentIndex);
    Put16(out, 32, h.fragmentIndex);
    Put16(out, 34, h.fragmentCount);
    assert out[..36] == before + (b + Be16(h.fragmentCount));
    b := b + Be16(h.fragmentCount);
    Put16(out, 36, h.payloadSize);
    assert out[..38] == before + (b + Be16(h.payloadSize));
    b := b + Be16(h.payloadSize);
    Put16(out, 38, h.reserved);
    assert out[..40] == before + (b + Be16(h.reserved));
    b := b + Be16(h.reserved);
    Put32(out, 40, h.tick);
    assert out[..44] == before + (b + Be32(h.tick));
  }

  /** Writes the header with a zeroed checksum field. */
  method EncodeHeaderTo(h: Header, out: array<Byte>)
    requires out.Length >= 48
    modifies out
    ensures out[..48] == Front(h) + Be32(0) && out[48..] == old(out[48..])
  {
    hide Be32, Lead, Numbers, Fragment;
    PutLead(h, out);
    PutNumbers(h, out);
    PutFragment(h, out);
    Put32(out, 44, 0);
  }

  // ----- The checksum -----

  /** The bytes the checksum covers: the datagram with its checksum field zeroed. */
  function Covered(front: seq<Byte>, payload: seq<Byte>): seq<Byte> {
    front + [0, 0, 0, 0] + payload
  }

  /** The datagram of a header and a payload, whatever checksum the header carried. */
  function Datagram(front: seq<Byte>, payload: seq<Byte>): (d: seq<Byte>)
    ensures |d| == |front| + 4 + |payload|
  {
    front + Be32(Checksum(Covered(front, payload))) + payload
  }

  lemma CutInThree(d: seq<Byte>)
    requires |d| >= 48
    ensures d == d[..44] + d[44..48] + d[48..]
  {}

  method FinalizeCrc(table: array<bv32>, datagram: array<Byte>, size: nat)
    requires TableValid(table[..]) && size <= datagram.Length
    modifies datagram
    ensures size < 48 ==> datagram[..] == old(datagram[..])
    ensures size >= 48 ==> datagram[..size] == Datagram(old(datagram[..44]), old(datagram[48..size]))
                           && datagram[size..] == old(datagram[size..])
  {
    hide Divide, Be32, Xor;
    if size < 48 {
      return;
    }
    ghost var front, payload, rest := datagram[..44], datagram[48..size], datagram[size..];
    datagram[44], datagram[45], datagram[46], datagram[47] := 0, 0, 0, 0;
    CutInThree(datagram[..size]);
    assert datagram[..size] == Covered(front, payload) by {
      assert datagram[..size][..44] == front && datagram[..size][48..] == payload;
      assert datagram[..size][44..48] == [0, 0, 0, 0];
    }
    var crc := Update(table, 0xFFFFFFFF, datagram[..size]);
    Put32(datagram, 44, Xor(crc, 0xFFFFFFFF));
    assert datagram[..size] == datagram[..48] + payload;
  }

  /** Header, payload and checksum into the caller's buffer; the payload size field is taken as it stands. */
  method EncodeTo(table: array<bv32>, h: Header, payload: seq<Byte>, out: array<Byte>) returns (total: nat)
    requires TableValid(table[..]) && out.Length >= 48 + |payload|
    modifies out
    ensures total == 48 + |payload| && out[..total] == Datagram(Front(h), payload)
    ensures out[total..] == old(out[total..])
  {
    hide TableValid, Datagram, Front, Be32;
    EncodeHeaderTo(h, out);
    total := 48 + |payload|;
    ghost var tail := out[total..];
    for i := 0 to |payload|
      invariant out[..48] == Front(h) + Be32(0) && out[48..48 + i] == payload[..i] && out[total..] == tail
      invariant table[..] == old(table[..])
    {
      out[48 + i] := payload[i];
      assert out[48..48 + i + 1] == out[48..48 + i] + [payload[i]];
    }
    assert out[48..total] == payload;
    assert out[..44] == out[..48][..44];
    FinalizeCrc(table, out, total);
  }

  // ----- Decoding -----

  function Decode(d: seq<Byte>): (r: Decoded) {
    if |d| < 48 then Rejected
    else
      var h := Parse(d);
      var n := Size(h.payloadSize);
      if h.magic != MAGIC || h.version != VERSION || |d| < 48 + n then Rejected
      else if Checksum(Covered(d[..44], d[48..48 + n])) != h.checksum then Rejected
      else Packet(h, d[48..48 + n])
  }

  /** The decoder: the checksum runs over the front, four zero bytes and the payload, one after the other. */
  method DecodeFrom(table: array<bv32>, p: seq<Byte>) returns (r: Decoded)
    requires TableValid(table[..])
    ensures r == Decode(p)
  {
    hide Divide, Parse, Xor, TableValid, Size;
    if |p| < 48 {
      return Rejected;
    }
    var h := Parse(p);
    if h.magic != MAGIC || h.version != VERSION {
      return Rejected;
    }
    var n := Size(h.payloadSize);
    if |p| < 48 + n {
      return Rejected;
    }
    var crc := Update(table, 0xFFFFFFFF, p[..44]);
    crc := Update(table, crc, [0, 0, 0, 0]);
    crc := Update(table, crc, p[48..48 + n]);
    DivideConcat(0xFFFFFFFF, p[..44] + [0, 0, 0, 0], p[48..48 + n]);
    DivideConcat(0xFFFFFFFF, p[..44], [0, 0, 0, 0]);
    if Xor(crc, 0xFFFFFFFF) != h.checksum {
      return Rejected;
    }
    r := Packet(h, p[48..48 + n]);
  }

  /** The header a receiver sees: the sender's, with the checksum filled in. */
  function Stamped(h: Header, payload: seq<Byte>): Header {
    h.(checksum := Checksum(Covered(Front(h), payload)))
  }

  lemma ParseDatagram(h: Header, payload: seq<Byte>, junk: seq<Byte>)
    ensures Parse(Datagram(Front(h), payload) + junk) == Stamped(h, payload)
  {
    hide Front, Be32, Checksum, Covered, Parse, Size;
    var crc := Checksum(Covered(Front(h), payload));
    var d := Datagram(Front(h), payload) + junk;
    assert d[..44] == Front(h) && d[44..48] == Be32(crc);
    ParseFront(d, h, crc);
  }

  /**
   * An encoded datagram whose size field tells its payload's length decodes exactly if magic and version are right,
   * whatever bytes follow it, and then gives back payload and header.
   */
  lemma RoundTrip(h: Header, payload: seq<Byte>, junk: seq<Byte>)
    requires |payload| == Size(h.payloadSize)
    ensures Decode(Datagram(Front(h), payload) + junk)
         == if h.magic == MAGIC && h.version == VERSION then Packet(Stamped(h, payload), payload) else Rejected
  {
    hide Front, Be32, Checksum, Covered, Parse, Size;
    ParseDatagram(h, payload, junk);
    var d := Datagram(Front(h), payload) + junk;
    assert d[..44] == Front(h) && d[48..48 + |payload|] == payload;
  }

  /** A size field that claims more than the datagram holds is rejected. */
  lemma OverlongRejected(h: Header, payload: seq<Byte>)
    requires |payload| < Size(h.payloadSize)
    ensures Decode(Datagram(Front(h), payload)) == Rejected
  {
    hide Front, Be32, Checksum, Covered, Parse, Size;
    ParseDatagram(h, payload, []);
    assert Datagram(Front(h), payload) + [] == Datagram(Front(h), payload);
  }

  lemma Accepted(d: seq<Byte>)
    requires Decode(d).Packet?
    ensures var r := Decode(d);
      |d| >= 48 + Size(r.header.payloadSize) && r.header == Parse(d)
      && r.payload == d[48..48 + Size(r.header.payloadSize)]
      && r.header.checksum == Checksum(Covered(d[..44], r.payload))
  {
    hide Parse, Checksum, Covered, Size;
  }

  /** Whatever decodes is, up to trailing bytes, the encoding of what it decodes to. */
  lemma OnlyEncodingsDecode(d: seq<Byte>)
    requires Decode(d).Packet?
    ensures var r := Decode(d);
      |r.payload| == Size(r.header.payloadSize) && r.header == Stamped(r.header, r.payload)
      && Datagram(Front(r.header), r.payload) <= d
  {
    hide Front, Be32, Checksum, Covered, Parse, Decode, Size;
    Accepted(d);
    FrontParse(d);
    ThreeParts(d, Size(Parse(d).payloadSize));
  }

  lemma ThreeParts(d: seq<Byte>, n: nat)
    requires |d| >= 48 + n
    ensures d[..44] + d[44..48] + d[48..48 + n] <= d
  {
    assert d[..48 + n] == d[..44] + d[44..48] + d[48..48 + n];
  }

  /**
   * An alteration of an accepted datagram that is confined to 32 consecutive bits and leaves alone the size field
   * (which decides what is covered), the checksum itself and what follows the payload, is rejected.
   */
  lemma AlterationRejected(d: seq<Byte>, e: seq<Byte>, i: nat)
    requires Decode(d).Packet? && |e| == |d| && e != d && SameOutside(d, e, i)
    requires e[36..38] == d[36..38] && e[44..48] == d[44..48]
    requires var n := |Decode(d).payload|; e[48 + n..] == d[48 + n..]
    ensures Decode(e) == Rejected
  {
    hide Checksum, Get32, Get16, Join, Covered, SameOutside, Size;
    CoveredDiffers(d, e, |Decode(d).payload|, i);
  }

  lemma CoveredDiffers(d: seq<Byte>, e: seq<Byte>, n: nat, i: nat)
    requires |e| == |d| >= 48 + n && e != d && SameOutside(d, e, i)
    requires e[44..48] == d[44..48] && e[48 + n..] == d[48 + n..]
    ensures Checksum(Covered(d[..44], d[48..48 + n])) != Checksum(Covered(e[..44], e[48..48 + n]))
  {
    hide Checksum, Covered, ByteBits;
    CoveredBytes(d, n);
    CoveredBytes(e, n);
    var md, me := Covered(d[..44], d[48..48 + n]), Covered(e[..44], e[48..48 + n]);
    var j :| 0 <= j < |d| && d[j] != e[j];
    assert j < 48 + n by {
      assert forall k | 48 + n <= k < |d| :: d[k] == d[48 + n..][k - 48 - n] && e[k] == e[48 + n..][k - 48 - n];
    }
    assert !(44 <= j < 48) by {
      assert forall k | 44 <= k < 48 :: d[k] == d[44..48][k - 44] && e[k] == e[44..48][k - 44];
    }
    assert md[j] != me[j];
    forall k | 0 <= k < 8 * |md| && !(i <= k < i + 32)
      ensures BitAt(md, k) == BitAt(me, k)
    {
      assert BitAt(d, k) == BitAt(e, k);
    }
    BurstDetected(md, me, i);
  }

  lemma CoveredBytes(d: seq<Byte>, n: nat)
    requires |d| >= 48 + n
    ensures |Covered(d[..44], d[48..48 + n])| == 48 + n
    ensures forall j :: 0 <= j < 48 + n ==> Covered(d[..44], d[48..48 + n])[j] == if 44 <= j < 48 then 0 else d[j]
  {}
}
