/** Packets on the wire: header, payload in the clear or sealed, checksum. */
module SealedPacket {
  import opened Crc32
  import opened PacketCodec
  import Gcm
  import Aead

  const COMMAND: Byte := 10

  // ----- Fields -----

  predicate MarkedSealed(flags: bv16) {
    flags & 0x8000 != 0
  }

  function Mark(flags: bv16): bv16 {
    flags | 0x8000
  }

  function Unmark(flags: bv16): bv16 {
    flags & 0x7FFF
  }

  lemma MarkUnmark(flags: bv16)
    ensures MarkedSealed(Mark(flags)) && !MarkedSealed(Unmark(flags))
    ensures Unmark(Mark(flags)) == flags <==> !MarkedSealed(flags)
    ensures Unmark(flags) == flags <==> !MarkedSealed(flags)
  {}

  /** Conversion to a 16-bit size, truncating. */
  function Narrow(n: nat): bv16 {
    (n % 0x10000) as bv16
  }

  lemma NarrowSize(n: nat)
    requires n < 0x10000
    ensures Size(Narrow(n)) == n
  {}

  function Exact(n: nat): bv16
    requires n < 0x10000
  {
    n as bv16
  }

  lemma SizeExact(v: bv16)
    ensures Exact(Size(v)) == v
  {}

  lemma NarrowExact(n: nat)
    requires n < 0x10000
    ensures Narrow(n) == Exact(n)
  {
    assert n % 0x10000 == n;
  }

  lemma SizeNarrow(v: bv16)
    ensures Narrow(Size(v)) == v
  {
    hide Exact, Size, Narrow;
    SizeExact(v);
    NarrowExact(Size(v));
  }

  // ----- Nonces -----

  /** Commands are numbered by sequence, everything else by message and fragment. */
  function Nonce(h: Header): Aead.Nonce {
    if h.kind == COMMAND then Be32(h.clientId) + Be32(h.sequence) + [h.kind] + [0, 0, 0]
    else Be32(h.clientId) + Be32(h.messageId) + Be16(h.fragmentIndex) + [h.kind] + [0]
  }

  method BuildNonce(h: Header) returns (n: Aead.Nonce)
    ensures n == Nonce(h)
  {
    hide Be32, Be16;
    var b := new Byte[12](_ => 0);
    Put32(b, 0, h.clientId);
    assert b[..4] == Be32(h.clientId);
    if h.kind == COMMAND {
      Put32(b, 4, h.sequence);
      PutByte(b, 8, h.kind);
      assert b[..9] == Be32(h.clientId) + Be32(h.sequence) + [h.kind];
    } else {
      Put32(b, 4, h.messageId);
      Put16(b, 8, h.fragmentIndex);
      PutByte(b, 10, h.kind);
      assert b[..11] == Be32(h.clientId) + Be32(h.messageId) + Be16(h.fragmentIndex) + [h.kind];
    }
    n := b[..];
  }

  lemma Be32Injective(v: bv32, w: bv32)
    requires Be32(v) == Be32(w)
    ensures v == w
  {
    hide Be32, Get32;
    Word32(v);
    Word32(w);
  }

  lemma Be16Injective(v: bv16, w: bv16)
    requires Be16(v) == Be16(w)
    ensures v == w
  {
    hide Be16, Get16;
    Word16(v);
    Word16(w);
  }

  /** Sender, kind and number of a packet, as far as its nonce tells them. */
  predicate SameNumber(h: Header, g: Header) {
    if h.kind == COMMAND then h.sequence == g.sequence
    else h.messageId == g.messageId && h.fragmentIndex == g.fragmentIndex
  }

  /** The one way a command and another packet can meet. */
  predicate Crossed(h: Header, g: Header) {
    h.kind == COMMAND && g.kind == 0 && h.sequence == g.messageId && g.fragmentIndex == 0x0A00
  }

  /**
   * For packets of every kind, exactly when two share a nonce. Control packets carry their number in the sequence,
   * which only a command's nonce includes: resent in answer to reports, through sealing, all of a kind share one.
   */
  lemma NoncesCollide(h: Header, g: Header)
    ensures Nonce(h) == Nonce(g) <==>
            h.clientId == g.clientId
            && ((h.kind == g.kind && SameNumber(h, g)) || Crossed(h, g) || Crossed(g, h))
  {
    hide Be32, Be16;
    NonceParts(h);
    NonceParts(g);
    if Nonce(h) == Nonce(g) {
      Be32Injective(h.clientId, g.clientId);
      Be32Injective(if h.kind == COMMAND then h.sequence else h.messageId,
                    if g.kind == COMMAND then g.sequence else g.messageId);
      if h.kind != COMMAND || g.kind != COMMAND {
        Be16Injective(Middle(h), Middle(g));
      }
    } else if Crossed(h, g) || Crossed(g, h) {
      assert Nonce(h)[8..10] == Nonce(g)[8..10];
    }
  }

  /** Bytes 8 and 9 of the nonce. */
  function Middle(h: Header): bv16 {
    if h.kind == COMMAND then 0x0A00 else h.fragmentIndex
  }

  lemma NonceParts(h: Header)
    ensures Nonce(h) == Be32(h.clientId) + Be32(if h.kind == COMMAND then h.sequence else h.messageId)
                        + Be16(Middle(h)) + [if h.kind == COMMAND then 0 else h.kind] + [0]
    ensures Nonce(h)[..4] == Be32(h.clientId)
    ensures Nonce(h)[4..8] == Be32(if h.kind == COMMAND then h.sequence else h.messageId)
    ensures Nonce(h)[8..10] == Be16(Middle(h))
    ensures Nonce(h)[10] == if h.kind == COMMAND then 0 else h.kind
  {
    hide Be32, Be16;
    CommandMiddle();
    var number := if h.kind == COMMAND then h.sequence else h.messageId;
    if h.kind == COMMAND {
      CommandTail(Be32(h.clientId) + Be32(h.sequence));
    }
    Joined(Be32(h.clientId), Be32(number), Be16(Middle(h)), if h.kind == COMMAND then 0 else h.kind);
  }

  lemma Joined(a: seq<Byte>, b: seq<Byte>, c: seq<Byte>, x: Byte)
    requires |a| == |b| == 4 && |c| == 2
    ensures var n := a + b + c + [x] + [0];
            n[..4] == a && n[4..8] == b && n[8..10] == c && n[10] == x
  {}

  lemma CommandTail(front: seq<Byte>)
    ensures front + [COMMAND] + [0, 0, 0] == front + [COMMAND, 0] + [0] + [0]
  {}

  lemma CommandMiddle()
    ensures Be16(0x0A00) == [COMMAND, 0]
  {}

  // ----- Sealing -----

  /** The header as it goes out with a sealed payload of n bytes and its tag. */
  function Sealing(h: Header, n: nat): Header {
    h.(flags := Mark(h.flags), payloadSize := Narrow(n + 16))
  }

  function SealedPayload(e: Gcm.Cipher, w: Header, payload: seq<Byte>): seq<Byte> {
    var (ct, tag) := Aead.Seal(e, Nonce(w), Front(w), payload);
    ct + tag
  }

  /** In the clear the payload is padded with zeros to the announced size. */
  function Wire(e: Gcm.Cipher, sealed: bool, h: Header, payload: seq<Byte>): seq<Byte>
    requires !sealed ==> |payload| <= Size(h.payloadSize)
  {
    if sealed then
      var w := Sealing(h, |payload|);
      Datagram(Front(w), SealedPayload(e, w, payload))
    else
      Datagram(Front(h), payload + seq(Size(h.payloadSize) - |payload|, _ => 0))
  }

  /** The datagram, sized by the header's 16-bit field, has room for the payload, and for the tag when it is sealed. */
  predicate HasRoom(sealed: bool, h: Header, payload: seq<Byte>) {
    if sealed then |payload| + 16 <= Size(Narrow(|payload| + 16)) else |payload| <= Size(h.payloadSize)
  }

  lemma RoomExactly(sealed: bool, h: Header, payload: seq<Byte>)
    ensures sealed ==> (HasRoom(sealed, h, payload) <==> |payload| + 16 < 0x10000)
    ensures !sealed && h.payloadSize == Narrow(|payload|) ==> (HasRoom(sealed, h, payload) <==> |payload| < 0x10000)
  {
    hide Size, Narrow;
    NarrowRoom(|payload| + 16);
    NarrowRoom(|payload|);
  }

  lemma NarrowRoom(n: nat)
    ensures n <= Size(Narrow(n)) <==> n < 0x10000
  {
    hide Size, Narrow;
    if n < 0x10000 {
      NarrowSize(n);
    } else {
      SizeBound(Narrow(n));
    }
  }

  lemma SizeBound(v: bv16)
    ensures Size(v) < 0x10000
  {}

  /** Copies the payload into a zeroed datagram behind the header, unless that would write past its end. */
  method CopyPayload(datagram: array<Byte>, payload: seq<Byte>) returns (inside: bool)
    requires datagram.Length >= 48
    modifies datagram
    ensures inside <==> 48 + |payload| <= datagram.Length
    ensures inside ==> datagram[48..48 + |payload|] == payload
    ensures inside ==>
      forall j :: 0 <= j < datagram.Length && !(48 <= j < 48 + |payload|) ==> datagram[j] == old(datagram[j])
  {
    inside := true;
    for i := 0 to |payload|
      invariant 48 + i <= datagram.Length
      invariant datagram[48..48 + i] == payload[..i]
      invariant forall j :: 0 <= j < datagram.Length && !(48 <= j < 48 + i) ==> datagram[j] == old(datagram[j])
    {
      if 48 + i >= datagram.Length {
        return false;
      }
      datagram[48 + i] := payload[i];
      assert datagram[48..48 + i + 1] == datagram[48..48 + i] + [payload[i]];
    }
  }

  /** Encrypts straight into the datagram; the header in front of it is the associated data. */
  method SealPayload(e: Gcm.Cipher, w: Header, datagram: array<Byte>, payload: seq<Byte>)
    requires datagram.Length >= 48 + |payload| + 16 && datagram[..44] == Front(w)
    modifies datagram
    ensures datagram[48..48 + |payload| + 16] == SealedPayload(e, w, payload)
    ensures forall j :: 0 <= j < 48 ==> datagram[j] == old(datagram[j])
  {
    hide Front, Nonce, Aead.Seal;
    var nonce := BuildNonce(w);
    var end := 48 + |payload|;
    Aead.Encrypt(e, nonce, datagram[..44], payload, datagram, 48);
    assert datagram[48..end + 16] == datagram[48..end] + datagram[end..end + 16];
  }

  /** Builds the datagram; the source writes past its end exactly if it has no room. */
  method BuildWirePacket(table: array<bv32>, e: Gcm.Cipher, sealed: bool, h: Header, payload: seq<Byte>)
    returns (inside: bool, datagram: array<Byte>)
    requires TableValid(table[..])
    ensures fresh(datagram) && (inside <==> HasRoom(sealed, h, payload))
    ensures inside ==> datagram[..] == Wire(e, sealed, h, payload)
  {
    ghost var room := HasRoom(sealed, h, payload);
    hide Front, Be32, Mark, Narrow, Size, TableValid, Datagram, Nonce, Aead.Seal;
    var w := h;
    if sealed {
      w := w.(flags := Mark(w.flags));
      w := w.(payloadSize := Narrow(|payload| + 16));
    }
    var n := Size(w.payloadSize);
    datagram := new Byte[48 + n](_ => 0);
    assert datagram[48..] == seq(n, _ => 0);
    EncodeHeaderTo(w, datagram);
    assert datagram[..44] == datagram[..48][..44] == Front(w);
    if !sealed {
      Zeros(datagram[..], n);
      inside := CopyPayload(datagram, payload);
      if !inside {
        return;
      }
      assert datagram[48..48 + n] == payload + seq(n - |payload|, _ => 0);
    } else {
      inside := 48 + |payload| + 16 <= datagram.Length;
      if !inside {
        return;
      }
      NarrowRoom(|payload| + 16);
      NarrowSize(|payload| + 16);
      SealPayload(e, w, datagram, payload);
    }
    assert datagram[..44] == Front(w);
    FinalizeCrc(table, datagram, datagram.Length);
    assert datagram[..datagram.Length] == datagram[..];
  }

  lemma Zeros(d: seq<Byte>, n: nat)
    requires |d| == 48 + n && d[48..] == seq(n, _ => 0)
    ensures forall j :: 48 <= j < |d| ==> d[j] == 0
  {
    assert forall j :: 48 <= j < |d| ==> d[j] == d[48..][j - 48];
  }

  // ----- Opening -----

  /** Decrypting a received packet in place: header and payload as the sender had them, or rejection. */
  function Unsealed(ready: bool, e: Gcm.Cipher, h: Header, payload: seq<Byte>): Decoded {
    if !ready || |payload| < 16 then Rejected
    else
      var n := |payload| - 16;
      match Aead.Open(e, Nonce(h), Front(h), payload[..n], payload[n..])
      case None => Rejected
      case Some(plain) => Packet(h.(payloadSize := Narrow(n), flags := Unmark(h.flags)), plain)
  }

  method DecryptPayload(table: array<bv32>, ready: bool, e: Gcm.Cipher, h: Header, payload: seq<Byte>)
    returns (r: Decoded)
    requires TableValid(table[..])
    ensures r == Unsealed(ready, e, h, payload)
  {
    hide Front, Narrow, TableValid, Datagram, Nonce, Aead.Open, Unmark;
    if !ready || |payload| < 16 {
      return Rejected;
    }
    var n := |payload| - 16;
    var nonce := BuildNonce(h);
    var aad := new Byte[48](_ => 0);
    var _ := EncodeTo(table, h, [], aad);
    FirstBytes(aad[..], h);
    var plain := Aead.Decrypt(e, nonce, aad[..44], payload[..n], payload[n..]);
    match plain
    case None => r := Rejected;
    case Some(p) => r := Packet(h.(payloadSize := Narrow(n), flags := Unmark(h.flags)), p);
  }

  lemma FirstBytes(aad: seq<Byte>, h: Header)
    requires |aad| == 48 && aad[..48] == Datagram(Front(h), [])
    ensures aad[..44] == Front(h)
  {
    hide Front, Be32, Checksum;
    assert aad[..44] == aad[..48][..44];
  }

  /** What the receiver makes of a datagram. */
  function Receive(ready: bool, e: Gcm.Cipher, d: seq<Byte>): Decoded {
    match Decode(d)
    case Rejected => Rejected
    case Packet(h, payload) => if MarkedSealed(h.flags) then Unsealed(ready, e, h, payload) else Packet(h, payload)
  }

  /** The receiving path: decode, then decrypt what is marked as sealed. */
  method HandleDatagram(table: array<bv32>, ready: bool, e: Gcm.Cipher, d: seq<Byte>) returns (r: Decoded)
    requires TableValid(table[..])
    ensures r == Receive(ready, e, d)
  {
    hide Decode, TableValid, Unsealed, MarkedSealed;
    r := DecodeFrom(table, d);
    if r.Packet? && MarkedSealed(r.header.flags) {
      r := DecryptPayload(table, ready, e, r.header, r.payload);
    }
  }

  // ----- Sealing and opening -----

  lemma FrontIgnoresChecksum(h: Header, crc: bv32)
    ensures Front(h.(checksum := crc)) == Front(h) && Nonce(h.(checksum := crc)) == Nonce(h)
  {
    hide Be16, Be32;
  }

  /** The receiver's view of a sealed datagram. */
  lemma ReceiveSealed(e: Gcm.Cipher, ready: bool, h: Header, payload: seq<Byte>)
    requires h.magic == MAGIC && h.version == VERSION && |payload| + 16 < 0x10000
    ensures var d := Wire(e, true, h, payload); var w := Sealing(h, |payload|);
      Receive(ready, e, d)
      == if ready then
        Packet(Stamped(w, SealedPayload(e, w, payload)).(payloadSize := Narrow(|payload|), flags := Unmark(w.flags)),
          payload)
      else Rejected
  {
    hide Front, Nonce, Narrow, Datagram, Decode, Mark, Unmark, MarkedSealed, Aead.Open, Aead.Seal, Checksum;
    var w := Sealing(h, |payload|);
    var body := SealedPayload(e, w, payload);
    var stamped := Stamped(w, body);
    NarrowSize(|payload| + 16);
    RoundTrip(w, body, []);
    assert Datagram(Front(w), body) + [] == Datagram(Front(w), body);
    MarkUnmark(h.flags);
    FrontIgnoresChecksum(w, stamped.checksum);
    var ct, tag := body[..|payload|], body[|payload|..];
    assert Aead.Seal(e, Nonce(w), Front(w), payload) == (ct, tag);
    Aead.OpenIffSealed(e, Nonce(w), Front(w), ct, tag, payload);
  }

  predicate Recovered(r: Decoded, h: Header, payload: seq<Byte>) {
    r.Packet? && r.header.(checksum := h.checksum) == h && r.payload == payload
  }

  /**
   * Receiving undoes sending, in both modes: the receiver gets the payload and every header field but the checksum
   * exactly if the sender's flags left the bit free that marks a sealed payload.
   */
  lemma ReceiveUndoesSend(e: Gcm.Cipher, sealed: bool, ready: bool, h: Header, payload: seq<Byte>)
    requires h.magic == MAGIC && h.version == VERSION && |payload| == Size(h.payloadSize)
    requires sealed ==> ready && |payload| + 16 < 0x10000
    ensures Recovered(Receive(ready, e, Wire(e, sealed, h, payload)), h, payload) <==> !MarkedSealed(h.flags)
  {
    hide Front, Nonce, Narrow, Decode, Mark, Unmark, MarkedSealed, Aead.Open, Aead.Seal, Checksum, Size, Datagram;
    MarkUnmark(h.flags);
    if sealed {
      ReceiveSealed(e, ready, h, payload);
      hide Wire, Receive;
      SizeNarrow(h.payloadSize);
    } else {
      RoundTrip(h, payload, []);
      assert Datagram(Front(h), payload) + [] == Datagram(Front(h), payload);
      assert payload + seq(0, _ => 0) == payload;
      if MarkedSealed(h.flags) {
        UnsealedDiffers(ready, e, Stamped(h, payload), payload);
      }
    }
  }

  lemma UnsealedDiffers(ready: bool, e: Gcm.Cipher, h: Header, payload: seq<Byte>)
    requires MarkedSealed(h.flags)
    ensures var r := Unsealed(ready, e, h, payload); r.Packet? ==> r.header.flags != h.flags
  {
    hide Front, Nonce, Narrow, Mark, Unmark, MarkedSealed, Aead.Open;
    MarkUnmark(h.flags);
  }

  /** A receiver without the key drops every sealed packet. */
  lemma NoKeyNoPacket(e: Gcm.Cipher, h: Header, payload: seq<Byte>)
    requires h.magic == MAGIC && h.version == VERSION && |payload| + 16 < 0x10000
    ensures Receive(false, e, Wire(e, true, h, payload)) == Rejected
  {
    hide Receive, Wire;
    ReceiveSealed(e, false, h, payload);
  }
}
