/** Authenticated encryption in Galois/counter mode (NIST SP 800-38D, section 7) over an arbitrary block cipher. */
module Aead {
  import opened Collections
  import opened Options
  import opened Gcm
  import Codec = PacketCodec

  // ----- Counter mode -----

  /** Increments the last four bytes as a big-endian number, modulo 2^32. */
  function Inc32(b: Block): Block {
    b[..12] + PlusOne(b[12..])
  }

  function PlusOne(b: seq<Byte>): (r: seq<Byte>)
    requires |b| == 4
    ensures |r| == 4
  {
    Codec.Be32(Codec.Get32(b) + 1)
  }

  function Next(b: Byte): Byte {
    b + 1
  }

  function Carried(b: seq<Byte>): (r: seq<Byte>)
    requires |b| == 4
    ensures |r| == 4
  {
    if b[3] != 0xFF then [b[0], b[1], b[2], Next(b[3])]
    else if b[2] != 0xFF then [b[0], b[1], Next(b[2]), 0]
    else if b[1] != 0xFF then [b[0], Next(b[1]), 0, 0]
    else [Next(b[0]), 0, 0, 0]
  }

  lemma IncWord(b: seq<Byte>)
    requires |b| == 4
    ensures Codec.Get32(Carried(b)) == Codec.Get32(b) + 1
  {}

  lemma IncBytes(b: seq<Byte>)
    requires |b| == 4
    ensures PlusOne(b) == Carried(b)
  {
    hide Codec.Be32, Codec.Get32, Carried;
    IncWord(b);
    Codec.Bytes32(Carried(b));
  }

  /** The byte-wise increment with carry. */
  method Increment(ctr: array<Byte>)
    requires ctr.Length == 16
    modifies ctr
    ensures ctr[..] == Inc32(old(ctr[..]))
  {
    hide Next, Inc32;
    ghost var was: Block := ctr[..];
    var i := 15;
    while i >= 12
      invariant 11 <= i <= 15
      invariant forall j :: 0 <= j <= i ==> ctr[j] == was[j]
      invariant forall j :: i < j < 16 ==> was[j] == 0xFF && ctr[j] == 0
    {
      ctr[i] := Next(ctr[i]);
      Wraps(was[i]);
      if ctr[i] != 0 {
        break;
      }
      i := i - 1;
    }
    Incremented(was, ctr[..], i);
  }

  lemma Wraps(b: Byte)
    ensures Next(b) == 0 <==> b == 0xFF
  {}

  lemma Incremented(was: Block, now: Block, i: nat)
    requires 11 <= i <= 15
    requires forall j :: 0 <= j < i ==> now[j] == was[j]
    requires i == 11 ==> now[i] == was[i]
    requires i > 11 ==> now[i] == Next(was[i]) && was[i] != 0xFF
    requires forall j :: i < j < 16 ==> was[j] == 0xFF && now[j] == 0
    ensures now == Inc32(was)
  {
    hide Next, PlusOne;
    IncBytes(was[12..]);
    Wraps(was[12]);
    assert now[..12] == was[..12];
    assert now[12..] == PlusOne(was[12..]);
    assert now == now[..12] + now[12..];
  }

  /** Counter mode from the initial counter block: each block of data is masked with one encrypted counter. */
  function Gctr(e: Cipher, counter: Block, data: seq<Byte>): (r: seq<Byte>)
    ensures |r| == |data|
    decreases |data|
  {
    if |data| <= 16 then XorBytes(data, e(counter))
    else XorBytes(data[..16], e(counter)) + Gctr(e, Inc32(counter), data[16..])
  }

  lemma GctrStep(e: Cipher, c: Block, data: seq<Byte>, take: nat)
    requires data != [] && take == if |data| < 16 then |data| else 16
    ensures Gctr(e, c, data) == XorBytes(data[..take], e(c)) + Gctr(e, Inc32(c), data[take..])
  {
    hide Inc32;
    if |data| <= 16 {
      assert data[..take] == data && data[take..] == [];
    }
  }

  /** What is done in out, followed by the rest of the keystream's work, makes up the whole. */
  ghost predicate Progress(e: Cipher, c: Block, data: seq<Byte>, done: nat, out: seq<Byte>, off: nat, all: seq<Byte>) {
    done <= |data| && off + |data| <= |out| && out[off..off + done] + Gctr(e, c, data[done..]) == all
  }

  lemma ProgressStep(e: Cipher, c: Block, data: seq<Byte>, done: nat, take: nat, was: seq<Byte>, now: seq<Byte>,
                     off: nat, all: seq<Byte>)
    requires Progress(e, c, data, done, was, off, all) && |now| == |was| && done < |data|
    requires take == if |data| - done < 16 then |data| - done else 16
    requires now[off + done..off + done + take] == XorBytes(data[done..done + take], e(c))
    requires forall j :: off <= j < off + done ==> now[j] == was[j]
    ensures Progress(e, Inc32(c), data, done + take, now, off, all)
  {
    hide Inc32, XorBytes, Gctr;
    var sent, rest := was[off..off + done], data[done..];
    var next, later := XorBytes(data[done..done + take], e(c)), Gctr(e, Inc32(c), data[done + take..]);
    assert rest[..take] == data[done..done + take] && rest[take..] == data[done + take..];
    GctrStep(e, c, rest, take);
    assert now[off..off + done] == sent;
    assert now[off..off + (done + take)] == sent + next;
    assert sent + next + later == sent + (next + later);
  }

  lemma ProgressStart(e: Cipher, c: Block, data: seq<Byte>, out: seq<Byte>, off: nat)
    requires off + |data| <= |out|
    ensures Progress(e, c, data, 0, out, off, Gctr(e, c, data))
  {
    hide Gctr;
    assert data[0..] == data && out[off..off + 0] == [];
    assert [] + Gctr(e, c, data) == Gctr(e, c, data);
  }

  lemma ProgressEnd(e: Cipher, c: Block, data: seq<Byte>, out: seq<Byte>, off: nat, all: seq<Byte>)
    requires Progress(e, c, data, |data|, out, off, all)
    ensures out[off..off + |data|] == all
  {
    assert data[|data|..] == [] && |Gctr(e, c, [])| == 0;
  }

  /** Masks data into out at offset off, starting from the counter after j0. */
  method Crypt(e: Cipher, j0: Block, data: seq<Byte>, out: array<Byte>, off: nat)
    requires off + |data| <= out.Length
    modifies out
    ensures out[off..off + |data|] == Gctr(e, Inc32(j0), data)
    ensures forall j :: 0 <= j < out.Length && !(off <= j < off + |data|) ==> out[j] == old(out[j])
  {
    hide Inc32, XorBytes, Gctr, Progress;
    var ctr := new Byte[16](i requires 0 <= i < 16 => j0[i]);
    assert ctr[..] == j0;
    var done := 0;
    ghost var all := Gctr(e, Inc32(j0), data);
    ProgressStart(e, Inc32(j0), data, out[..], off);
    while done < |data|
      invariant done <= |data| && ctr.Length == 16
      invariant forall j :: 0 <= j < out.Length && !(off <= j < off + done) ==> out[j] == old(out[j])
      invariant Progress(e, Inc32(ctr[..]), data, done, out[..], off, all)
      decreases |data| - done
    {
      Increment(ctr);
      ghost var was := out[..];
      var ks := e(ctr[..]);
      var take := if |data| - done < 16 then |data| - done else 16;
      MaskInto(data[done..done + take], ks, out, off + done);
      ProgressStep(e, ctr[..], data, done, take, was, out[..], off, all);
      done := done + take;
    }
    ProgressEnd(e, Inc32(ctr[..]), data, out[..], off, all);
  }

  method MaskInto(data: seq<Byte>, ks: Block, out: array<Byte>, at: nat)
    requires |data| <= 16 && at + |data| <= out.Length
    modifies out
    ensures out[at..at + |data|] == XorBytes(data, ks)
    ensures forall j :: 0 <= j < out.Length && !(at <= j < at + |data|) ==> out[j] == old(out[j])
  {
    for i := 0 to |data|
      invariant forall j :: 0 <= j < i ==> out[at + j] == data[j] ^ ks[j]
      invariant forall j :: 0 <= j < out.Length && !(at <= j < at + i) ==> out[j] == old(out[j])
    {
      out[at + i] := data[i] ^ ks[i];
    }
  }

  lemma XorTwice(a: seq<Byte>, mask: seq<Byte>)
    requires |a| <= |mask|
    ensures XorBytes(XorBytes(a, mask), mask) == a
  {
    forall i | 0 <= i < |a|
      ensures XorBytes(XorBytes(a, mask), mask)[i] == a[i]
    {
      ByteTwice(a[i], mask[i]);
    }
  }

  lemma ByteTwice(a: Byte, m: Byte)
    ensures (a ^ m) ^ m == a
  {}

  /** Counter mode is its own inverse. */
  lemma {:induction false} GctrInverts(e: Cipher, c: Block, data: seq<Byte>)
    ensures Gctr(e, c, Gctr(e, c, data)) == data
    decreases |data|
  {
    hide XorBytes, Inc32;
    if |data| <= 16 {
      XorTwice(data, e(c));
    } else {
      XorTwice(data[..16], e(c));
      GctrInverts(e, Inc32(c), data[16..]);
      var masked := Gctr(e, c, data);
      assert masked[..16] == XorBytes(data[..16], e(c)) && masked[16..] == Gctr(e, Inc32(c), data[16..]);
    }
  }

  // ----- The counters never repeat -----

  function CounterAt(c: Block, n: nat): Block {
    if n == 0 then c else Inc32(CounterAt(c, n - 1))
  }

  function Num(b: Byte): (n: int)
    ensures 0 <= n < 0x100
  {
    b as int
  }

  lemma NextNum(b: Byte)
    ensures b == 0xFF ==> Num(b) == 0xFF && Num(Next(b)) == 0
    ensures b != 0xFF ==> Num(Next(b)) == Num(b) + 1
  {}

  function Big(t: seq<Byte>): (n: int)
    requires |t| == 4
    ensures 0 <= n < 0x1_0000_0000
  {
    0x1000000 * Num(t[0]) + 0x10000 * Num(t[1]) + 0x100 * Num(t[2]) + Num(t[3])
  }

  /** The last four bytes as a number. */
  function Tail(b: Block): (n: int)
    ensures 0 <= n < 0x1_0000_0000
  {
    Big(b[12..])
  }

  lemma TailStep(b: Block)
    ensures Tail(Inc32(b)) == (Tail(b) + 1) % 0x1_0000_0000
  {
    hide Next, Big, PlusOne, Carried;
    IncBytes(b[12..]);
    assert Inc32(b)[12..] == PlusOne(b[12..]);
    CarriedValue(b[12..]);
  }

  lemma CarriedValue(t: seq<Byte>)
    requires |t| == 4
    ensures Big(Carried(t)) == if Big(t) == 0xFFFFFFFF then 0 else Big(t) + 1
  {
    hide Next, Num;
    NextNum(t[0]);
    NextNum(t[1]);
    NextNum(t[2]);
    NextNum(t[3]);
    NumZero();
  }

  lemma NumZero()
    ensures Num(0) == 0
  {}

  lemma {:induction false} TailAt(c: Block, n: nat)
    ensures Tail(CounterAt(c, n)) == (Tail(c) + n) % 0x1_0000_0000
  {
    hide Inc32, Tail;
    if n > 0 {
      TailAt(c, n - 1);
      TailStep(CounterAt(c, n - 1));
      AddOne(Tail(c) + n - 1);
    }
  }

  lemma AddOne(a: int)
    ensures (a % 0x1_0000_0000 + 1) % 0x1_0000_0000 == (a + 1) % 0x1_0000_0000
  {}

  lemma {:induction false} CounterShift(c: Block, n: nat)
    ensures CounterAt(Inc32(c), n) == CounterAt(c, n + 1)
  {
    hide Inc32;
    if n > 0 {
      CounterShift(c, n - 1);
    }
  }

  lemma CounterSteps(c: Block)
    ensures CounterAt(c, 0) == c
  {}

  lemma XorByte(a: seq<Byte>, mask: seq<Byte>, i: nat)
    requires i < |a| <= |mask|
    ensures XorBytes(a, mask)[i] == a[i] ^ mask[i]
  {}

  /** Byte i of the ciphertext is masked by block i / 16 of the keystream. */
  lemma {:induction false} GctrByte(e: Cipher, c: Block, data: seq<Byte>, i: nat)
    requires i < |data|
    ensures Gctr(e, c, data)[i] == data[i] ^ e(CounterAt(c, i / 16))[i % 16]
    decreases i
  {
    hide Inc32, XorBytes, CounterAt;
    CounterSteps(c);
    if i < 16 {
      XorByte(if |data| <= 16 then data else data[..16], e(c), i);
    } else {
      GctrByte(e, Inc32(c), data[16..], i - 16);
      CounterShift(c, i / 16 - 1);
      assert Gctr(e, c, data)[i] == Gctr(e, Inc32(c), data[16..])[i - 16];
    }
  }

  /** Within 2^32 blocks no counter value repeats, so no keystream block is used twice and none masks the tag. */
  lemma CountersDistinct(c: Block, i: nat, j: nat)
    requires i < j < i + 0x1_0000_0000
    ensures CounterAt(c, i) != CounterAt(c, j)
  {
    hide Tail, CounterAt;
    TailAt(c, i);
    TailAt(c, j);
  }

  // ----- Tags -----

  /** The final block: both lengths in bits, big-endian. */
  function Lengths(aad: nat, ct: nat): Block {
    seq(16, i requires 0 <= i < 16 =>
      if i < 8 then BigEndianByte(BitCount(aad), i) else BigEndianByte(BitCount(ct), i - 8))
  }

  function Tag(e: Cipher, j0: Block, aad: seq<Byte>, ct: seq<Byte>): Block {
    var h := e(ZeroBlock());
    XorBytes(Ghash(Ghash(Ghash(ZeroBlock(), h, aad), h, ct), h, Lengths(|aad|, |ct|)), e(j0))
  }

  /**
   * The tag is the one of section 7.1: one GHASH over both padded strings and the lengths, masked by the
   * first counter.
   */
  lemma TagIsStandard(e: Cipher, j0: Block, aad: seq<Byte>, ct: seq<Byte>)
    ensures Tag(e, j0, aad, ct)
         == Gctr(e, j0, Ghash(ZeroBlock(), e(ZeroBlock()), Pad16(aad) + Pad16(ct) + Lengths(|aad|, |ct|)))
  {
    hide Ghash, XorBytes, Lengths, ZeroBlock, Pad16, Gctr;
    var z, h := ZeroBlock(), e(ZeroBlock());
    GhashSplit(z, h, Pad16(aad) + Pad16(ct), Lengths(|aad|, |ct|));
    GhashSplit(z, h, Pad16(aad), Pad16(ct));
    GhashPads(z, h, aad);
    GhashPads(Ghash(z, h, aad), h, ct);
    GctrBlock(e, j0, Ghash(z, h, Pad16(aad) + Pad16(ct) + Lengths(|aad|, |ct|)));
  }

  lemma GctrBlock(e: Cipher, c: Block, b: Block)
    ensures Gctr(e, c, b) == XorBytes(b, e(c))
  {
    hide XorBytes;
  }

  method ComputeTag(e: Cipher, j0: Block, aad: seq<Byte>, ct: seq<Byte>) returns (tag: Block)
    ensures tag == Tag(e, j0, aad, ct)
  {
    hide Ghash, XorBytes, BitCount, BigEndianByte, MulBlock, ZeroBlock;
    var h := e(ZeroBlock());
    var x := new Byte[16](i requires 0 <= i < 16 => ZeroBlock()[i]);
    assert x[..] == ZeroBlock();
    GhashUpdate(x, h, aad);
    GhashUpdate(x, h, ct);
    var lengths := new Byte[16](_ => 0);
    var aadBits, ctBits := BitCount(|aad|), BitCount(|ct|);
    ghost var absorbed := x[..];
    for i := 0 to 8
      invariant x[..] == absorbed
      invariant forall j :: 0 <= j < i ==>
                              lengths[j] == BigEndianByte(aadBits, j) && lengths[8 + j] == BigEndianByte(ctBits, j)
    {
      lengths[i] := BigEndianByte(aadBits, i);
      lengths[8 + i] := BigEndianByte(ctBits, i);
    }
    assert lengths[..] == Lengths(|aad|, |ct|);
    GhashUpdate(x, h, lengths[..]);
    XorInto(x, e(j0));
    tag := x[..];
  }

  // ----- Authenticated encryption -----

  type Nonce = n: seq<Byte> | |n| == 12 witness seq(12, _ => 0)

  /** A 96-bit nonce followed by the 32-bit number one. */
  function J0(nonce: Nonce): Block {
    nonce + [0, 0, 0, 1]
  }

  function Seal(e: Cipher, nonce: Nonce, aad: seq<Byte>, plain: seq<Byte>): (r: (seq<Byte>, Block))
    ensures |r.0| == |plain|
  {
    var ct := Gctr(e, Inc32(J0(nonce)), plain);
    (ct, Tag(e, J0(nonce), aad, ct))
  }

  function Open(e: Cipher, nonce: Nonce, aad: seq<Byte>, ct: seq<Byte>, tag: Block): Option<seq<Byte>> {
    if Tag(e, J0(nonce), aad, ct) == tag then Some(Gctr(e, Inc32(J0(nonce)), ct)) else None
  }

  /** Opening accepts exactly what sealing produces and gives back what was sealed. */
  lemma OpenIffSealed(e: Cipher, nonce: Nonce, aad: seq<Byte>, ct: seq<Byte>, tag: Block, plain: seq<Byte>)
    ensures Open(e, nonce, aad, ct, tag) == Some(plain) <==> Seal(e, nonce, aad, plain) == (ct, tag)
  {
    hide Gctr, Tag, Inc32;
    GctrInverts(e, Inc32(J0(nonce)), ct);
    GctrInverts(e, Inc32(J0(nonce)), plain);
  }

  /** Ciphertext and tag into out from offset off. */
  method Encrypt(e: Cipher, nonce: Nonce, aad: seq<Byte>, plain: seq<Byte>, out: array<Byte>, off: nat)
    requires off + |plain| + 16 <= out.Length
    modifies out
    ensures (out[off..off + |plain|], out[off + |plain|..off + |plain| + 16]) == Seal(e, nonce, aad, plain)
    ensures forall j :: 0 <= j < out.Length && !(off <= j < off + |plain| + 16) ==> out[j] == old(out[j])
  {
    hide Gctr, Tag, Inc32;
    var end := off + |plain|;
    Crypt(e, J0(nonce), plain, out, off);
    ghost var ct := out[off..end];
    var tag := ComputeTag(e, J0(nonce), aad, out[off..end]);
    for i := 0 to 16
      invariant forall j :: 0 <= j < out.Length && !(off <= j < end + i) ==> out[j] == old(out[j])
      invariant out[off..end] == ct && out[end..end + i] == tag[..i]
    {
      out[end + i] := tag[i];
      assert out[end..end + i + 1] == out[end..end + i] + [tag[i]];
    }
    assert tag[..16] == tag;
  }

  /** Checks the tag in constant time before decrypting. */
  method Decrypt(e: Cipher, nonce: Nonce, aad: seq<Byte>, ct: seq<Byte>, tag: Block) returns (r: Option<seq<Byte>>)
    ensures r == Open(e, nonce, aad, ct, tag)
  {
    hide Gctr, Tag, Inc32;
    var expected := ComputeTag(e, J0(nonce), aad, ct);
    var diff: Byte := 0;
    for i := 0 to 16
      invariant diff == 0 <==> expected[..i] == tag[..i]
    {
      OrXor(diff, expected[i], tag[i]);
      assert expected[..i + 1] == expected[..i] + [expected[i]] && tag[..i + 1] == tag[..i] + [tag[i]];
      diff := diff | (expected[i] ^ tag[i]);
    }
    assert expected[..16] == expected && tag[..16] == tag;
    if diff != 0 {
      return None;
    }
    var plain := new Byte[|ct|](_ => 0);
    Crypt(e, J0(nonce), ct, plain, 0);
    r := Some(plain[0..|ct|]);
  }

  lemma OrXor(d: Byte, a: Byte, b: Byte)
    ensures d | (a ^ b) == 0 <==> d == 0 && a == b
  {}
}
