/** GHASH of NIST SP 800-38D on byte blocks, against the field of bit strings. */
module Gcm {
  import F = GhashField

  type Byte = bv8

  type Block = b: seq<Byte> | |b| == 16 witness seq(16, _ => 0)

  /** The forward cipher under one key. */
  type Cipher = Block -> Block

  // ----- Blocks as bit strings -----

  /** Bit k of a byte, from the left. */
  predicate BitOf(b: Byte, k: nat)
    requires k < 8
  {
    (b >> (7 - k)) & 1 == 1
  }

  function BitsOf(b: Block): F.Bits {
    seq(128, i requires 0 <= i < 128 => BitOf(b[i / 8], i % 8))
  }

  function Weight(b: bool, w: Byte): Byte {
    if b then w else 0
  }

  function ByteOf(v: seq<bool>): Byte
    requires |v| == 8
  {
    Weight(v[0], 0x80) | Weight(v[1], 0x40) | Weight(v[2], 0x20) | Weight(v[3], 0x10)
    | Weight(v[4], 0x08) | Weight(v[5], 0x04) | Weight(v[6], 0x02) | Weight(v[7], 0x01)
  }

  function BlockOf(v: F.Bits): Block {
    seq(16, j requires 0 <= j < 16 => ByteOf(v[8 * j..8 * j + 8]))
  }

  lemma ByteOfBits(b: Byte, v: seq<bool>)
    requires |v| == 8 && forall k :: 0 <= k < 8 ==> v[k] == BitOf(b, k)
    ensures ByteOf(v) == b
  {
    Eight(b);
  }

  lemma Eight(b: Byte)
    ensures Weight(BitOf(b, 0), 0x80) | Weight(BitOf(b, 1), 0x40) | Weight(BitOf(b, 2), 0x20)
            | Weight(BitOf(b, 3), 0x10) | Weight(BitOf(b, 4), 0x08) | Weight(BitOf(b, 5), 0x04)
            | Weight(BitOf(b, 6), 0x02) | Weight(BitOf(b, 7), 0x01) == b
  {}

  lemma BitsOfByte(b: Block, j: nat)
    requires j < 16
    ensures forall k | 0 <= k < 8 :: BitsOf(b)[8 * j..8 * j + 8][k] == BitOf(b[j], k)
  {
    hide BitOf;
    forall k | 0 <= k < 8
      ensures BitsOf(b)[8 * j..8 * j + 8][k] == BitOf(b[j], k)
    {
      assert (8 * j + k) / 8 == j && (8 * j + k) % 8 == k;
      assert BitsOf(b)[8 * j + k] == BitOf(b[j], k);
    }
  }

  lemma BlockOfBits(b: Block)
    ensures BlockOf(BitsOf(b)) == b
  {
    hide BitOf, ByteOf;
    forall j | 0 <= j < 16
      ensures BlockOf(BitsOf(b))[j] == b[j]
    {
      BitsOfByte(b, j);
      ByteOfBits(b[j], BitsOf(b)[8 * j..8 * j + 8]);
    }
  }

  lemma LowXor(a: Byte, b: Byte)
    ensures ((a ^ b) & 1 == 1) == ((a & 1 == 1) != (b & 1 == 1))
  {}

  lemma BitOfXor(a: Byte, b: Byte, k: nat)
    requires k < 8
    ensures BitOf(a ^ b, k) == (BitOf(a, k) != BitOf(b, k))
  {
    if k == 0 {
      assert (a ^ b) >> 7 == (a >> 7) ^ (b >> 7);
      LowXor(a >> 7, b >> 7);
    } else if k == 1 {
      assert (a ^ b) >> 6 == (a >> 6) ^ (b >> 6);
      LowXor(a >> 6, b >> 6);
    } else if k == 2 {
      assert (a ^ b) >> 5 == (a >> 5) ^ (b >> 5);
      LowXor(a >> 5, b >> 5);
    } else if k == 3 {
      assert (a ^ b) >> 4 == (a >> 4) ^ (b >> 4);
      LowXor(a >> 4, b >> 4);
    } else if k == 4 {
      assert (a ^ b) >> 3 == (a >> 3) ^ (b >> 3);
      LowXor(a >> 3, b >> 3);
    } else if k == 5 {
      assert (a ^ b) >> 2 == (a >> 2) ^ (b >> 2);
      LowXor(a >> 2, b >> 2);
    } else if k == 6 {
      assert (a ^ b) >> 1 == (a >> 1) ^ (b >> 1);
      LowXor(a >> 1, b >> 1);
    } else {
      assert (a ^ b) >> 0 == (a >> 0) ^ (b >> 0);
      LowXor(a >> 0, b >> 0);
    }
  }

  lemma BitOfShift(a: Byte, before: Byte, k: nat)
    requires k < 8
    ensures BitOf((a >> 1) | (before << 7), k) == if k == 0 then BitOf(before, 7) else BitOf(a, k - 1)
    ensures BitOf(a >> 1, k) == (k > 0 && BitOf(a, k - 1))
  {
    if k == 0 {
    } else if k == 1 {
    } else if k == 2 {
    } else if k == 3 {
    } else if k == 4 {
    } else if k == 5 {
    } else if k == 6 {
    }
  }

  lemma BitOfReduction(k: nat)
    requires k < 8
    ensures BitOf(0xE1, k) == F.Reduction(k) && !BitOf(0, k)
  {
    if k == 0 {
    } else if k == 1 {
    } else if k == 2 {
    } else if k == 3 {
    } else if k == 4 {
    } else if k == 5 {
    } else if k == 6 {
    }
  }

  /** The leading bytes of a mask added to data. */
  function XorBytes(a: seq<Byte>, mask: seq<Byte>): (r: seq<Byte>)
    requires |a| <= |mask|
    ensures |r| == |a|
  {
    seq(|a|, i requires 0 <= i < |a| => a[i] ^ mask[i])
  }

  lemma BitsXor(a: Block, b: Block)
    ensures BitsOf(XorBytes(a, b)) == F.Xor(BitsOf(a), BitsOf(b))
  {
    hide BitOf;
    forall i | 0 <= i < 128
      ensures BitsOf(XorBytes(a, b))[i] == F.Xor(BitsOf(a), BitsOf(b))[i]
    {
      BitOfXor(a[i / 8], b[i / 8], i % 8);
    }
  }

  /** A byte shifted right, with the last bit of the byte before it. */
  function Carry(b: Byte, before: Byte): Byte {
    (b >> 1) | (before << 7)
  }

  /** The first byte: shifted, and reduced if a bit was shifted out at the end. */
  function Lead(b: Byte, lsb: bool): Byte {
    (b >> 1) ^ (if lsb then 0xE1 else 0)
  }

  predicate Odd(b: Byte) {
    b & 1 == 1
  }

  /** The byte-wise shift with reduction is multiplication by x. */
  lemma BitsTimesX(a: Block, b: Block)
    requires forall j :: 0 < j < 16 ==> b[j] == Carry(a[j], a[j - 1])
    requires b[0] == Lead(a[0], Odd(a[15]))
    ensures BitsOf(b) == F.TimesX(BitsOf(a))
  {
    hide Carry, Lead, Odd;
    forall i | 0 <= i < 128
      ensures BitsOf(b)[i] == F.TimesX(BitsOf(a))[i]
    {
      TimesXBit(a, b, i);
    }
  }

  lemma TimesXBit(a: Block, b: Block, i: nat)
    requires i < 128
    requires i >= 8 ==> b[i / 8] == Carry(a[i / 8], a[i / 8 - 1])
    requires b[0] == Lead(a[0], Odd(a[15]))
    ensures BitsOf(b)[i] == F.TimesX(BitsOf(a))[i]
  {
    hide BitOf, F.Reduction;
    LastBit(a[15]);
    if i >= 8 {
      ShiftedBit(a[i / 8], a[i / 8 - 1], b[i / 8], i);
      assert i % 8 == 0 ==> (i - 1) / 8 == i / 8 - 1 && (i - 1) % 8 == 7;
      assert i % 8 > 0 ==> (i - 1) / 8 == i / 8 && (i - 1) % 8 == i % 8 - 1;
      HighBit(i);
    } else {
      FirstByte(a[0], b[0], a[15], i);
    }
  }

  lemma HighBit(i: int)
    requires i >= 8
    ensures !F.Reduction(i)
  {}

  lemma ShiftedBit(a: Byte, before: Byte, b: Byte, i: int)
    requires i >= 8 && b == (a >> 1) | (before << 7)
    ensures BitOf(b, i % 8) == if i % 8 == 0 then BitOf(before, 7) else BitOf(a, i % 8 - 1)
  {
    hide BitOf;
    BitOfShift(a, before, i % 8);
  }

  lemma FirstByte(a: Byte, b: Byte, last: Byte, k: nat)
    requires k < 8 && b == (a >> 1) ^ (if last & 1 == 1 then 0xE1 else 0)
    ensures BitOf(b, k) == ((k > 0 && BitOf(a, k - 1)) != ((last & 1 == 1) && F.Reduction(k)))
  {
    hide BitOf, F.Reduction;
    BitOfShift(a, 0, k);
    BitOfReduction(k);
    if last & 1 == 1 {
      BitOfXor(a >> 1, 0xE1, k);
    } else {
      BitOfXor(a >> 1, 0, k);
    }
  }

  lemma LastBit(b: Byte)
    ensures BitOf(b, 7) == (b & 1 == 1)
  {}

  // ----- GHASH -----

  function MulBlock(x: Block, y: Block): Block {
    BlockOf(F.Mul(BitsOf(x), BitsOf(y)))
  }

  function ZeroBlock(): Block {
    seq(16, _ => 0)
  }

  /** Zero padding of up to sixteen bytes to a block. */
  function Padded(data: seq<Byte>): Block
    requires |data| <= 16
  {
    data + seq(16 - |data|, _ => 0)
  }

  /** Absorbing data block by block, the last one zero-padded. */
  function Ghash(x: Block, h: Block, data: seq<Byte>): Block
    decreases |data|
  {
    if data == [] then x
    else
      var take := if |data| < 16 then |data| else 16;
      Ghash(MulBlock(XorBytes(x, Padded(data[..take])), h), h, data[take..])
  }

  lemma BitsOfZero()
    ensures BitsOf(ZeroBlock()) == F.Zero()
  {
    forall i | 0 <= i < 128
      ensures BitsOf(ZeroBlock())[i] == F.Zero()[i]
    {
      BitOfReduction(i % 8);
    }
  }

  /** z ^= v */
  method XorInto(z: array<Byte>, v: seq<Byte>)
    requires z.Length == |v| == 16
    modifies z
    ensures z[..] == XorBytes(old(z[..]), v)
  {
    for j := 0 to 16
      invariant forall i :: 0 <= i < j ==> z[i] == old(z[i]) ^ v[i]
      invariant forall i :: j <= i < 16 ==> z[i] == old(z[i])
    {
      z[j] := z[j] ^ v[j];
    }
  }

  /** v is multiplied by x, bytes from last to first. */
  method ShiftRight(v: array<Byte>)
    requires v.Length == 16
    modifies v
    ensures BitsOf(v[..]) == F.TimesX(old(BitsOf(v[..])))
  {
    hide Carry, Lead, Odd, BitsOf, F.TimesX;
    ghost var was: Block := v[..];
    var lsb := Odd(v[15]);
    for j := 15 downto 0
      invariant forall i :: 0 <= i <= j ==> v[i] == was[i]
      invariant forall i :: j < i < 16 ==> v[i] == Carry(was[i], was[i - 1])
    {
      v[j + 1] := Carry(v[j + 1], v[j]);
    }
    v[0] := Lead(v[0], lsb);
    BitsTimesX(was, v[..]);
  }

  lemma BitAt(b: Block, i: nat)
    requires i < 128
    ensures BitsOf(b)[i] == BitOf(b[i / 8], i % 8)
  {}

  lemma ZeroBytes(z: seq<Byte>)
    requires |z| == 16 && forall i :: 0 <= i < 16 ==> z[i] == 0
    ensures z == ZeroBlock()
  {}

  /** The byte-wise field multiplication. */
  method GhashMul(x: array<Byte>, y: Block)
    requires x.Length == 16
    modifies x
    ensures x[..] == MulBlock(old(x[..]), y)
  {
    hide BitsOf, BitOf, XorBytes, F.Partial, F.Power, F.TimesX, F.Xor, F.Zero, BlockOf, ZeroBlock;
    ghost var a: Block := x[..];
    F.PartialStep(BitsOf(a), BitsOf(y), 0);
    var z, v := new Byte[16](_ => 0), new Byte[16](i requires 0 <= i < 16 => y[i]);
    BitsOfZero();
    assert z[..] == ZeroBlock() && v[..] == y by { ZeroBytes(z[..]); }
    for i := 0 to 128
      invariant x[..] == a
      invariant BitsOf(z[..]) == F.Partial(BitsOf(a), BitsOf(y), i)
      invariant BitsOf(v[..]) == F.Power(BitsOf(y), i)
    {
      F.PartialStep(BitsOf(a), BitsOf(y), i);
      BitAt(x[..], i);
      if BitOf(x[i / 8], i % 8) {
        BitsXor(z[..], v[..]);
        XorInto(z, v[..]);
      }
      ShiftRight(v);
    }
    ghost var product: Block := z[..];
    BlockOfBits(product);
    for i := 0 to 16
      invariant z[..] == product && x[..i] == product[..i]
    {
      x[i] := z[i];
    }
    assert x[..] == product;
  }

  method GhashUpdate(x: array<Byte>, h: Block, data: seq<Byte>)
    requires x.Length == 16
    modifies x
    ensures x[..] == Ghash(old(x[..]), h, data)
  {
    hide MulBlock, XorBytes;
    var rest := data;
    while rest != []
      invariant Ghash(x[..], h, rest) == Ghash(old(x[..]), h, data)
      decreases |rest|
    {
      var take := if |rest| < 16 then |rest| else 16;
      XorInto(x, Padded(rest[..take]));
      GhashMul(x, h);
      rest := rest[take..];
    }
  }

  // ----- Padding -----

  function Pad16(data: seq<Byte>): (r: seq<Byte>)
    ensures |r| % 16 == 0 && data <= r
  {
    data + seq((16 - |data| % 16) % 16, _ => 0)
  }

  lemma {:induction false} GhashSplit(x: Block, h: Block, a: seq<Byte>, b: seq<Byte>)
    requires |a| % 16 == 0
    ensures Ghash(x, h, a + b) == Ghash(Ghash(x, h, a), h, b)
    decreases |a|
  {
    hide MulBlock, XorBytes;
    if a == [] {
      assert a + b == b;
    } else {
      assert (a + b)[..16] == a[..16] && (a + b)[16..] == a[16..] + b;
      GhashSplit(MulBlock(XorBytes(x, Padded(a[..16])), h), h, a[16..], b);
    }
  }

  lemma {:induction false} GhashPads(x: Block, h: Block, data: seq<Byte>)
    ensures Ghash(x, h, data) == Ghash(x, h, Pad16(data))
    decreases |data|
  {
    hide MulBlock, XorBytes;
    if data == [] {
      assert Pad16(data) == [];
    } else if |data| < 16 {
      ShortPad(data);
      GhashShort(x, h, data);
      GhashShort(x, h, Padded(data));
    } else {
      LongPad(data);
      GhashPads(MulBlock(XorBytes(x, Padded(data[..16])), h), h, data[16..]);
    }
  }

  lemma ShortPad(data: seq<Byte>)
    requires 0 < |data| < 16
    ensures Pad16(data) == Padded(data) == Padded(Padded(data))
  {}

  lemma LongPad(data: seq<Byte>)
    requires |data| >= 16
    ensures Pad16(data)[..16] == data[..16] && Pad16(data)[16..] == Pad16(data[16..])
  {
    var zeros: seq<Byte> := seq((16 - |data| % 16) % 16, _ => 0);
    SixteenLess(|data|);
    SuffixOfSum(data, zeros);
  }

  lemma SixteenLess(n: nat)
    requires n >= 16
    ensures (n - 16) % 16 == n % 16
  {}

  lemma SuffixOfSum(a: seq<Byte>, b: seq<Byte>)
    requires |a| >= 16
    ensures (a + b)[..16] == a[..16] && (a + b)[16..] == a[16..] + b
  {}

  lemma GhashShort(x: Block, h: Block, data: seq<Byte>)
    requires 0 < |data| <= 16
    ensures Ghash(x, h, data) == MulBlock(XorBytes(x, Padded(data)), h)
  {
    hide MulBlock, XorBytes;
    assert data[..|data|] == data && data[|data|..] == [];
  }
}
