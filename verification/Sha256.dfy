/** SHA-256 (FIPS 180-4): the compression function and the streaming context. */
module Sha256 {
  import opened Collections

  type Byte = bv8

  function Constants(): (k: seq<bv32>)
    ensures |k| == 64
  {
    [0x428a2f98, 0x71374491, 0xb5c0fbcf, 0xe9b5dba5, 0x3956c25b, 0x59f111f1, 0x923f82a4, 0xab1c5ed5,
     0xd807aa98, 0x12835b01, 0x243185be, 0x550c7dc3, 0x72be5d74, 0x80deb1fe, 0x9bdc06a7, 0xc19bf174,
     0xe49b69c1, 0xefbe4786, 0x0fc19dc6, 0x240ca1cc, 0x2de92c6f, 0x4a7484aa, 0x5cb0a9dc, 0x76f988da,
     0x983e5152, 0xa831c66d, 0xb00327c8, 0xbf597fc7, 0xc6e00bf3, 0xd5a79147, 0x06ca6351, 0x14292967,
     0x27b70a85, 0x2e1b2138, 0x4d2c6dfc, 0x53380d13, 0x650a7354, 0x766a0abb, 0x81c2c92e, 0x92722c85,
     0xa2bfe8a1, 0xa81a664b, 0xc24b8b70, 0xc76c51a3, 0xd192e819, 0xd6990624, 0xf40e3585, 0x106aa070,
     0x19a4c116, 0x1e376c08, 0x2748774c, 0x34b0bcb5, 0x391c0cb3, 0x4ed8aa4a, 0x5b9cca4f, 0x682e6ff3,
     0x748f82ee, 0x78a5636f, 0x84c87814, 0x8cc70208, 0x90befffa, 0xa4506ceb, 0xbef9a3f7, 0xc67178f2]
  }

  function InitialHash(): (h: seq<bv32>)
    ensures |h| == 8
  {
    [0x6a09e667, 0xbb67ae85, 0x3c6ef372, 0xa54ff53a, 0x510e527f, 0x9b05688c, 0x1f83d9ab, 0x5be0cd19]
  }

  // ----- The compression function -----

  function Rotr(x: bv32, n: nat): bv32
    requires n <= 32
  {
    (x >> n) | (x << (32 - n))
  }

  function Small0(x: bv32): bv32 {
    Rotr(x, 7) ^ Rotr(x, 18) ^ (x >> 3)
  }

  function Small1(x: bv32): bv32 {
    Rotr(x, 17) ^ Rotr(x, 19) ^ (x >> 10)
  }

  function Big0(x: bv32): bv32 {
    Rotr(x, 2) ^ Rotr(x, 13) ^ Rotr(x, 22)
  }

  function Big1(x: bv32): bv32 {
    Rotr(x, 6) ^ Rotr(x, 11) ^ Rotr(x, 25)
  }

  function Ch(x: bv32, y: bv32, z: bv32): bv32 {
    (x & y) ^ (!x & z)
  }

  function Maj(x: bv32, y: bv32, z: bv32): bv32 {
    (x & y) ^ (x & z) ^ (y & z)
  }

  function Load(block: seq<Byte>, t: nat): bv32
    requires 4 * t + 4 <= |block|
  {
    (block[4 * t] as bv32 << 24) | (block[4 * t + 1] as bv32 << 16) | (block[4 * t + 2] as bv32 << 8)
      | block[4 * t + 3] as bv32
  }

  function Extend(w16: bv32, w15: bv32, w7: bv32, w2: bv32): bv32 {
    w16 + Small0(w15) + w7 + Small1(w2)
  }

  /** Word t of the message schedule. */
  function Schedule(block: seq<Byte>, t: nat): bv32
    requires |block| == 64
  {
    if t < 16 then Load(block, t)
    else Extend(Schedule(block, t - 16), Schedule(block, t - 15), Schedule(block, t - 7), Schedule(block, t - 2))
  }

  datatype Work = Work(a: bv32, b: bv32, c: bv32, d: bv32, e: bv32, f: bv32, g: bv32, h: bv32)

  function Round(s: Work, k: bv32, w: bv32): Work {
    var t1 := s.h + Big1(s.e) + Ch(s.e, s.f, s.g) + k + w;
    var t2 := Big0(s.a) + Maj(s.a, s.b, s.c);
    Work(t1 + t2, s.a, s.b, s.c, s.d + t1, s.e, s.f, s.g)
  }

  function Start(h: seq<bv32>): Work
    requires |h| == 8
  {
    Work(h[0], h[1], h[2], h[3], h[4], h[5], h[6], h[7])
  }

  /** The working variables after n rounds. */
  function Rounds(h: seq<bv32>, block: seq<Byte>, n: nat): Work
    requires |h| == 8 && |block| == 64 && n <= 64
  {
    if n == 0 then Start(h) else Round(Rounds(h, block, n - 1), Constants()[n - 1], Schedule(block, n - 1))
  }

  function AddTo(h: seq<bv32>, s: Work): (r: seq<bv32>)
    requires |h| == 8
    ensures |r| == 8
  {
    [h[0] + s.a, h[1] + s.b, h[2] + s.c, h[3] + s.d, h[4] + s.e, h[5] + s.f, h[6] + s.g, h[7] + s.h]
  }

  function Compress(h: seq<bv32>, block: seq<Byte>): (r: seq<bv32>)
    requires |h| == 8 && |block| == 64
    ensures |r| == 8
  {
    AddTo(h, Rounds(h, block, 64))
  }

  /** Folding the compression function over all whole blocks of a message. */
  function Fold(h: seq<bv32>, message: seq<Byte>): (r: seq<bv32>)
    requires |h| == 8
    ensures |r| == 8
    decreases |message|
  {
    if |message| < 64 then h else Fold(Compress(h, message[..64]), message[64..])
  }

  lemma {:induction false} FoldSplit(h: seq<bv32>, a: seq<Byte>, b: seq<Byte>)
    requires |h| == 8 && |a| % 64 == 0
    ensures Fold(h, a + b) == Fold(Fold(h, a), b)
    decreases |a|
  {
    hide Compress;
    if a == [] {
      assert a + b == b;
    } else {
      assert (a + b)[..64] == a[..64] && (a + b)[64..] == a[64..] + b;
      FoldSplit(Compress(h, a[..64]), a[64..], b);
    }
  }

  lemma FoldEmpty(h: seq<bv32>)
    requires |h| == 8
    ensures Fold(h, []) == h
  {}

  lemma FoldOne(h: seq<bv32>, block: seq<Byte>)
    requires |h| == 8 && |block| == 64
    ensures Fold(h, block) == Compress(h, block)
  {
    hide Compress;
    assert block[..64] == block && block[64..] == [];
  }

  // ----- Padding and digest -----

  function LengthField(n: nat): (b: seq<Byte>)
    ensures |b| == 8
  {
    seq(8, i requires 0 <= i < 8 => BigEndianByte(BitCount(n), i))
  }

  /** The least number of zero bytes that leaves eight bytes in the last block. */
  function Zeros(n: nat): (k: nat)
    ensures k < 64 && (n + 1 + k) % 64 == 56
  {
    (119 - n % 64) % 64
  }

  /** Section 5.1.1: a one bit, zeros, and the length in bits as a 64-bit number. */
  function Pad(message: seq<Byte>): (p: seq<Byte>)
    ensures |p| % 64 == 0
  {
    message + [0x80] + seq(Zeros(|message|), _ => 0) + LengthField(|message|)
  }

  function WordByte(v: bv32, i: nat): Byte
    requires i < 4
  {
    ((v >> (24 - 8 * i)) & 0xFF) as Byte
  }

  function Bytes(h: seq<bv32>): (b: seq<Byte>)
    requires |h| == 8
    ensures |b| == 32
  {
    seq(32, i requires 0 <= i < 32 => WordByte(h[i / 4], i % 4))
  }

  function Digest(message: seq<Byte>): (b: seq<Byte>)
    ensures |b| == 32
  {
    Bytes(Fold(InitialHash(), Pad(message)))
  }

  // ----- The streaming context -----

  method ExpandBlock(block: seq<Byte>) returns (w: array<bv32>)
    requires |block| == 64
    ensures fresh(w) && w.Length == 64 && forall j :: 0 <= j < 64 ==> w[j] == Schedule(block, j)
  {
    hide Extend, Load;
    w := new bv32[64];
    for i := 0 to 16
      invariant forall j :: 0 <= j < i ==> w[j] == Schedule(block, j)
    {
      w[i] := Load(block, i);
    }
    for i := 16 to 64
      invariant forall j :: 0 <= j < i ==> w[j] == Schedule(block, j)
    {
      w[i] := Extend(w[i - 16], w[i - 15], w[i - 7], w[i - 2]);
    }
  }

  method RunRounds(h: seq<bv32>, block: seq<Byte>, w: array<bv32>) returns (s: Work)
    requires |h| == 8 && |block| == 64 && w.Length == 64 && forall j :: 0 <= j < 64 ==> w[j] == Schedule(block, j)
    ensures s == Rounds(h, block, 64)
  {
    hide Round, Constants, Schedule;
    s := Start(h);
    for i := 0 to 64
      invariant s == Rounds(h, block, i)
    {
      s := Round(s, Constants()[i], w[i]);
    }
  }

  method InitialState() returns (h: array<bv32>)
    ensures fresh(h) && h.Length == 8 && h[..] == InitialHash()
  {
    hide InitialHash;
    var start := InitialHash();
    h := new bv32[8](i requires 0 <= i < 8 => start[i]);
    assert forall i :: 0 <= i < 8 ==> h[..][i] == start[i];
  }

  class Context {
    var h: array<bv32>
    var buf: array<Byte>
    var bufLen: nat
    var totalLen: nat
    ghost var message: seq<Byte>

    /** The hash covers all whole blocks of m and the buffer holds the rest. */
    ghost predicate Absorbed(m: seq<Byte>)
      reads `h, `buf, `bufLen, h, buf
    {
      h.Length == 8 && buf.Length == 64 && bufLen == |m| % 64
      && buf[..bufLen] == m[|m| - bufLen..] && h[..] == Fold(InitialHash(), m[..|m| - bufLen])
    }

    ghost predicate Valid()
      reads this, h, buf
    {
      totalLen == |message| && Absorbed(message)
    }

    constructor ()
      ensures Valid() && message == [] && fresh(h) && fresh(buf)
    {
      hide Absorbed, InitialHash, Fold;
      var start := InitialState();
      h := start;
      buf := new Byte[64];
      bufLen, totalLen, message := 0, 0, [];
      new;
      NothingAbsorbed();
    }

    lemma NothingAbsorbed()
      requires h.Length == 8 && buf.Length == 64 && bufLen == 0 && h[..] == InitialHash()
      ensures Absorbed([])
    {
      hide InitialHash, Fold;
      FoldEmpty(InitialHash());
      var m: seq<Byte> := [];
      assert buf[..0] == m[0..] && m[..0] == m;
    }

    method CompressBuffer()
      requires h.Length == 8 && buf.Length == 64
      modifies h
      ensures h[..] == Compress(old(h[..]), buf[..])
    {
      hide AddTo, Rounds;
      ghost var start, block := h[..], buf[..];
      var w := ExpandBlock(buf[..]);
      var s := RunRounds(h[..], buf[..], w);
      var sum := AddTo(h[..], s);
      for i := 0 to 8
        invariant h[..i] == sum[..i] && buf[..] == block
      {
        h[i] := sum[i];
      }
      assert h[..] == sum;
    }

    /** Copies a piece that fits into the buffer and compresses the buffer once it is full. */
    method Absorb(piece: seq<Byte>, ghost seen: seq<Byte>)
      requires Absorbed(seen) && 0 < |piece| <= 64 - bufLen
      modifies `bufLen, h, buf
      ensures Absorbed(seen + piece)
    {
      hide Compress, InitialHash, Fold;
      ghost var held, whole := buf[..bufLen], seen[..|seen| - bufLen];
      CopyIn(piece);
      AddMod(|seen|, |piece|);
      Regrouped(seen, held, whole, piece);
      bufLen := bufLen + |piece|;
      if bufLen == 64 {
        assert buf[..] == buf[..64] == held + piece;
        FoldNext(whole, buf[..]);
        CompressBuffer();
        bufLen := 0;
        AbsorbedWhole(seen + piece);
      } else {
        AbsorbedPart(seen + piece, whole);
      }
    }

    lemma AbsorbedWhole(m: seq<Byte>)
      requires h.Length == 8 && buf.Length == 64 && bufLen == 0 && |m| % 64 == 0 && h[..] == Fold(InitialHash(), m)
      ensures Absorbed(m)
    {
      hide InitialHash, Fold;
      assert m[..|m|] == m && buf[..0] == m[|m|..];
    }

    lemma AbsorbedPart(m: seq<Byte>, whole: seq<Byte>)
      requires h.Length == 8 && buf.Length == 64 && bufLen < 64 && bufLen == |m| % 64
      requires m == whole + buf[..bufLen] && h[..] == Fold(InitialHash(), whole)
      ensures Absorbed(m)
    {
      hide InitialHash, Fold;
      assert m[..|m| - bufLen] == whole && m[|m| - bufLen..] == buf[..bufLen];
    }

    method CopyIn(piece: seq<Byte>)
      requires bufLen + |piece| <= buf.Length
      modifies buf
      ensures buf[..bufLen + |piece|] == old(buf[..bufLen]) + piece
    {
      for i := 0 to |piece|
        invariant buf[..bufLen + i] == old(buf[..bufLen]) + piece[..i]
      {
        buf[bufLen + i] := piece[i];
        assert buf[..bufLen + i + 1] == buf[..bufLen + i] + [piece[i]];
      }
      assert piece[..|piece|] == piece;
    }

    lemma Bounds(m: seq<Byte>)
      requires Absorbed(m)
      ensures bufLen < 64 && h.Length == 8 && buf.Length == 64
    {}

    method Update(data: seq<Byte>)
      requires Valid()
      modifies this, h, buf
      ensures Valid() && h == old(h) && buf == old(buf) && message == old(message) + data
    {
      hide Absorbed;
      ghost var before := message;
      totalLen := totalLen + |data|;
      var at := 0;
      assert before + data[..0] == before;
      while at < |data|
        invariant at <= |data| && h == old(h) && buf == old(buf) && totalLen == |before| + |data|
        invariant Absorbed(before + data[..at])
        decreases |data| - at
      {
        Bounds(before + data[..at]);
        var take := 64 - bufLen;
        if take > |data| - at {
          take := |data| - at;
        }
        Absorb(data[at..at + take], before + data[..at]);
        assert before + data[..at + take] == before + data[..at] + data[at..at + take];
        at := at + take;
      }
      assert data[..at] == data;
      message := before + data;
    }

    /** Pads and returns the digest of everything absorbed; the padding loop stops at the next multiple of 64 less 8. */
    method Finish() returns (out: seq<Byte>)
      requires Valid()
      modifies this, h, buf
      ensures out == Digest(old(message))
    {
      hide Absorbed, LengthField, Zeros;
      ghost var m, k := message, 0;
      var length := LengthField(totalLen);
      Update([0x80]);
      assert message == m + [0x80] + seq(0, _ => 0);
      while bufLen != 56
        invariant Valid() && h == old(h) && buf == old(buf)
        invariant k <= Zeros(|m|) && message == m + [0x80] + seq(k, _ => 0)
        decreases Zeros(|m|) - k
      {
        Filled(message);
        NotYet(|m|, k);
        Update([0]);
        assert message == m + [0x80] + seq(k + 1, _ => 0);
        k := k + 1;
      }
      Filled(message);
      Reached(|m|, k);
      Update(length);
      Complete(message);
      out := Serialize(h[..]);
    }

    lemma Filled(m: seq<Byte>)
      requires Absorbed(m)
      ensures bufLen == |m| % 64
    {}

    lemma Complete(m: seq<Byte>)
      requires Absorbed(m) && |m| % 64 == 0
      ensures h.Length == 8 && h[..] == Fold(InitialHash(), m)
    {
      assert m[..|m|] == m;
    }
  }

  method Serialize(h: seq<bv32>) returns (out: seq<Byte>)
    requires |h| == 8
    ensures out == Bytes(h)
  {
    hide WordByte, Bytes;
    var b := new Byte[32](_ => 0);
    for i := 0 to 8
      invariant b[..4 * i] == Bytes(h)[..4 * i]
    {
      BytesAt(h, i);
      b[4 * i] := WordByte(h[i], 0);
      b[4 * i + 1] := WordByte(h[i], 1);
      b[4 * i + 2] := WordByte(h[i], 2);
      b[4 * i + 3] := WordByte(h[i], 3);
      assert b[..4 * i + 4] == b[..4 * i] + [b[4 * i], b[4 * i + 1], b[4 * i + 2], b[4 * i + 3]];
    }
    out := b[..];
  }

  lemma BytesAt(h: seq<bv32>, i: nat)
    requires |h| == 8 && i < 8
    ensures Bytes(h)[..4 * i + 4]
         == Bytes(h)[..4 * i] + [WordByte(h[i], 0), WordByte(h[i], 1), WordByte(h[i], 2), WordByte(h[i], 3)]
  {
    hide WordByte;
  }

  lemma FoldNext(whole: seq<Byte>, block: seq<Byte>)
    requires |whole| % 64 == 0 && |block| == 64
    ensures Fold(InitialHash(), whole + block) == Compress(Fold(InitialHash(), whole), block)
  {
    hide Compress, InitialHash, Fold;
    FoldSplit(InitialHash(), whole, block);
    FoldOne(Fold(InitialHash(), whole), block);
  }

  lemma Regrouped(seen: seq<Byte>, held: seq<Byte>, whole: seq<Byte>, piece: seq<Byte>)
    requires seen == whole + held
    ensures seen + piece == whole + (held + piece)
  {}

  lemma AddMod(n: nat, k: nat)
    requires n % 64 + k <= 64
    ensures (n + k) % 64 == if n % 64 + k == 64 then 0 else n % 64 + k
  {}

  lemma NotYet(n: nat, k: nat)
    requires k <= Zeros(n) && (n + 1 + k) % 64 != 56
    ensures k < Zeros(n)
  {}

  lemma Reached(n: nat, k: nat)
    requires k <= Zeros(n) && (n + 1 + k) % 64 == 56
    ensures k == Zeros(n)
  {}

  // ----- One message, however it is cut -----

  function Joined(chunks: seq<seq<Byte>>): seq<Byte> {
    if chunks == [] then [] else Joined(chunks[..|chunks| - 1]) + chunks[|chunks| - 1]
  }

  /** Feeding a message in any pieces gives the digest of the whole. */
  method HashChunks(chunks: seq<seq<Byte>>) returns (out: seq<Byte>)
    ensures out == Digest(Joined(chunks))
  {
    hide Digest;
    var context := new Context();
    for i := 0 to |chunks|
      invariant context.Valid() && fresh(context) && fresh(context.h) && fresh(context.buf)
      invariant context.message == Joined(chunks[..i])
    {
      context.Update(chunks[i]);
      assert chunks[..i + 1][..i] == chunks[..i];
    }
    assert chunks[..|chunks|] == chunks;
    out := context.Finish();
  }

  // ----- Keyed hashing -----

  function XorAll(key: seq<Byte>, m: Byte): (r: seq<Byte>)
    ensures |r| == |key|
  {
    seq(|key|, i requires 0 <= i < |key| => key[i] ^ m)
  }

  /** A key brought to the block size: hashed if longer, zero-padded. */
  function BlockKey(key: seq<Byte>): (k: seq<Byte>)
    ensures |k| == 64
  {
    var short := if |key| > 64 then Digest(key) else key;
    short + seq(64 - |short|, _ => 0)
  }

  /** RFC 2104. */
  function Hmac(key: seq<Byte>, message: seq<Byte>): (r: seq<Byte>)
    ensures |r| == 32
  {
    Digest(XorAll(BlockKey(key), 0x5C) + Digest(XorAll(BlockKey(key), 0x36) + message))
  }

  method ComputeHmac(key: seq<Byte>, message: seq<Byte>) returns (out: seq<Byte>)
    ensures out == Hmac(key, message)
  {
    hide Digest;
    var k0 := new Byte[64](_ => 0);
    var short := key;
    if |key| > 64 {
      short := HashChunks([key]);
      assert Joined([key]) == key;
    }
    for i := 0 to |short|
      invariant k0[..i] == short[..i] && forall j :: i <= j < 64 ==> k0[j] == 0
    {
      k0[i] := short[i];
    }
    assert k0[..] == BlockKey(key);
    var inner := HashChunks([XorAll(k0[..], 0x36), message]);
    JoinTwo(XorAll(k0[..], 0x36), message);
    out := HashChunks([XorAll(k0[..], 0x5C), inner]);
    JoinTwo(XorAll(k0[..], 0x5C), inner);
  }

  lemma JoinTwo(a: seq<Byte>, b: seq<Byte>)
    ensures Joined([a, b]) == a + b
  {
    assert [a, b][..1] == [a] && [a][..0] == [];
    assert Joined([a]) == Joined([]) + a;
  }

  /** RFC 5869 with one block of output; an absent salt is 32 zero bytes. */
  method Hkdf(ikm: seq<Byte>, salt: seq<Byte>, info: seq<Byte>) returns (out: seq<Byte>)
    ensures out == Hmac(Hmac(if salt == [] then seq(32, _ => 0) else salt, ikm), info + [1])
  {
    hide Hmac;
    var prk := ComputeHmac(if salt == [] then seq(32, _ => 0) else salt, ikm);
    out := ComputeHmac(prk, info + [1]);
  }

  /** Every salt that is all zeros and no longer than a block gives the same keyed hash as the absent one. */
  lemma ZeroSalts(n: nat, message: seq<Byte>)
    requires n <= 64
    ensures Hmac(seq(n, _ => 0), message) == Hmac(seq(32, _ => 0), message)
  {
    hide Digest, XorAll;
    assert BlockKey(seq(n, _ => 0)) == seq(64, _ => 0) == BlockKey(seq(32, _ => 0));
  }
}
