/** The checksum of every datagram: a table-driven CRC-32, against bit-serial division by the reflected polynomial. */
module Crc32 {

  type Byte = bv8

  // ----- Bit-serial division -----

  /** One step of the division: shift a bit out, subtract the polynomial if it was set. */
  function Half(c: bv32): bv32 {
    Xor(Shr(c), Taken(c))
  }

  function Shr(c: bv32): bv32 {
    c >> 1
  }

  function Taken(c: bv32): bv32 {
    if c & 1 == 1 then 0xEDB88320 else 0
  }

  function Halves(c: bv32, n: nat): bv32
    decreases n
  {
    if n == 0 then c else Halves(Half(c), n - 1)
  }

  function Low(c: bv32): bv32 {
    c & 0xFF
  }

  function Wide(b: Byte): bv32 {
    b as bv32
  }

  function Xor(a: bv32, b: bv32): bv32 {
    a ^ b
  }

  /** Dividing a message, byte by byte, least significant bit first. */
  function Divide(c: bv32, data: seq<Byte>): bv32
    decreases data
  {
    if data == [] then c else Divide(Halves(Xor(c, Wide(data[0])), 8), data[1..])
  }

  /** The CRC of a message: all-ones start, complemented result. */
  function Checksum(data: seq<Byte>): bv32 {
    Xor(Divide(0xFFFFFFFF, data), 0xFFFFFFFF)
  }

  // ----- The division is linear and loses nothing -----

  lemma ShrXor(a: bv32, b: bv32)
    ensures Shr(Xor(a, b)) == Xor(Shr(a), Shr(b))
  {}

  lemma TakenXor(a: bv32, b: bv32)
    ensures Taken(Xor(a, b)) == Xor(Taken(a), Taken(b))
  {}

  lemma XorAssociates(a: bv32, b: bv32, c: bv32)
    ensures Xor(Xor(a, b), c) == Xor(a, Xor(b, c))
  {}

  lemma XorCommutes(a: bv32, b: bv32)
    ensures Xor(a, b) == Xor(b, a)
  {}

  lemma Interchange(a: bv32, b: bv32, c: bv32, d: bv32)
    ensures Xor(Xor(a, b), Xor(c, d)) == Xor(Xor(a, c), Xor(b, d))
  {
    hide Xor;
    XorAssociates(a, b, Xor(c, d));
    XorAssociates(b, c, d);
    XorCommutes(b, c);
    XorAssociates(c, b, d);
    XorAssociates(a, c, Xor(b, d));
  }

  lemma HalfXor(a: bv32, b: bv32)
    ensures Half(Xor(a, b)) == Xor(Half(a), Half(b))
  {
    hide Xor, Shr, Taken;
    ShrXor(a, b);
    TakenXor(a, b);
    Interchange(Shr(a), Taken(a), Shr(b), Taken(b));
  }

  lemma HalfInjective(a: bv32, b: bv32)
    requires Half(a) == Half(b)
    ensures a == b
  {
    assert Half(a) & 0x80000000 != 0 <==> a & 1 == 1;
    assert Half(b) & 0x80000000 != 0 <==> b & 1 == 1;
  }

  lemma {:induction false} HalvesXor(a: bv32, b: bv32, n: nat)
    ensures Halves(Xor(a, b), n) == Xor(Halves(a, n), Halves(b, n))
    decreases n
  {
    hide Half, Xor;
    if n > 0 {
      HalfXor(a, b);
      HalvesXor(Half(a), Half(b), n - 1);
    }
  }

  lemma {:induction false} HalvesInjective(a: bv32, b: bv32, n: nat)
    requires Halves(a, n) == Halves(b, n)
    ensures a == b
    decreases n
  {
    hide Half;
    if n > 0 {
      HalvesInjective(Half(a), Half(b), n - 1);
      HalfInjective(a, b);
    }
  }

  lemma {:induction false} HalvesSum(c: bv32, m: nat, n: nat)
    ensures Halves(Halves(c, m), n) == Halves(c, m + n)
    decreases m
  {
    hide Half;
    if m > 0 {
      HalvesSum(Half(c), m - 1, n);
    }
  }

  // ----- The table -----

  function HighBytes(c: bv32): bv32 {
    c >> 8
  }

  /** Eight steps on a word whose low byte is zero only shift it. */
  lemma ShiftOnly(y: bv32)
    requires Low(y) == 0
    ensures Halves(y, 8) == HighBytes(y)
  {
    hide Half;
    ShiftFour(y);
    ShiftFour(y >> 4);
    HalvesSum(y, 4, 4);
  }

  lemma ShiftFour(y: bv32)
    requires y & 0xF == 0
    ensures Halves(y, 4) == y >> 4
  {
    Unroll4(y);
    LowBits(y);
    hide Half, Shr, Even;
    EvenHalf(y);
    EvenHalf(Shr(y));
    EvenHalf(Shr(Shr(y)));
    EvenHalf(Shr(Shr(Shr(y))));
  }

  predicate Even(y: bv32) {
    y & 1 == 0
  }

  lemma LowBits(y: bv32)
    requires y & 0xF == 0
    ensures Even(y) && Even(Shr(y)) && Even(Shr(Shr(y))) && Even(Shr(Shr(Shr(y))))
    ensures Shr(Shr(Shr(Shr(y)))) == y >> 4
  {}

  lemma EvenHalf(y: bv32)
    requires Even(y)
    ensures Half(y) == Shr(y)
  {}

  lemma Unroll4(c: bv32)
    ensures Halves(c, 4) == Half(Half(Half(Half(c))))
  {
    hide Half;
    assert Halves(Half(Half(Half(c))), 1) == Half(Half(Half(Half(c))));
    assert Halves(Half(Half(c)), 2) == Halves(Half(Half(Half(c))), 1);
    assert Halves(Half(c), 3) == Halves(Half(Half(c)), 2);
  }

  lemma SplitLow(c: bv32)
    ensures Xor(Low(c), c & 0xFFFFFF00) == c && Low(c & 0xFFFFFF00) == 0 && HighBytes(c & 0xFFFFFF00) == HighBytes(c)
  {}

  /** Eight steps depend on the low byte through one table entry. */
  lemma ByteStep(c: bv32)
    ensures Halves(c, 8) == Xor(Halves(Low(c), 8), HighBytes(c))
  {
    hide Half, Xor, Low, HighBytes;
    SplitLow(c);
    HalvesXor(Low(c), c & 0xFFFFFF00, 8);
    ShiftOnly(c & 0xFFFFFF00);
  }

  function Row(i: nat): bv32
    requires i < 256
  {
    i as bv32
  }

  predicate TableValid(table: seq<bv32>) {
    |table| == 256 && forall i :: 0 <= i < 256 ==> table[i] == Halves(Row(i), 8)
  }

  method InitTable() returns (table: array<bv32>)
    ensures fresh(table) && TableValid(table[..])
  {
    hide Row;
    table := new bv32[256];
    for i := 0 to 256
      invariant forall j :: 0 <= j < i ==> table[j] == Halves(Row(j), 8)
    {
      table[i] := Entry(Row(i));
    }
  }

  method Entry(i: bv32) returns (c: bv32)
    ensures c == Halves(i, 8)
  {
    hide Half;
    c := i;
    for k := 0 to 8
      invariant Halves(c, 8 - k) == Halves(i, 8)
    {
      c := Half(c);
    }
  }

  lemma Index(c: bv32)
    ensures (Low(c) as int) < 256 && Row(Low(c) as int) == Low(c)
  {}

  /** The table-driven update is the bit-serial division. */
  method Update(table: array<bv32>, crc: bv32, data: seq<Byte>) returns (r: bv32)
    requires TableValid(table[..])
    ensures r == Divide(crc, data)
  {
    hide Half, Xor, Low, HighBytes, Wide, Row;
    r := crc;
    for i := 0 to |data|
      invariant Divide(r, data[i..]) == Divide(crc, data)
    {
      var x := Xor(r, Wide(data[i]));
      Index(x);
      ByteStep(x);
      assert table[..][Low(x) as int] == Halves(Low(x), 8);
      HighXor(r, data[i]);
      r := Xor(table[Low(x) as int], HighBytes(r));
      assert data[i..][1..] == data[i + 1..];
    }
  }

  lemma HighXor(c: bv32, b: Byte)
    ensures HighBytes(Xor(c, Wide(b))) == HighBytes(c)
  {}

  method Compute(table: array<bv32>, data: seq<Byte>) returns (r: bv32)
    requires TableValid(table[..])
    ensures r == Checksum(data)
  {
    r := Update(table, 0xFFFFFFFF, data);
    r := Xor(r, 0xFFFFFFFF);
  }

  // ----- Composition -----

  lemma {:induction false} DivideConcat(c: bv32, a: seq<Byte>, b: seq<Byte>)
    ensures Divide(c, a + b) == Divide(Divide(c, a), b)
    decreases a
  {
    hide Halves, Xor, Wide;
    if a == [] {
      assert a + b == b;
    } else {
      assert (a + b)[1..] == a[1..] + b;
      DivideConcat(Halves(Xor(c, Wide(a[0])), 8), a[1..], b);
    }
  }

  // ----- The same division bit by bit -----

  /** Bits in the order they are divided, least significant first. */
  function ByteBits(b: Byte): (r: seq<bool>)
    ensures |r| == 8
  {
    [b & 1 != 0, b & 2 != 0, b & 4 != 0, b & 8 != 0, b & 16 != 0, b & 32 != 0, b & 64 != 0, b & 128 != 0]
  }

  function AllBits(data: seq<Byte>): (r: seq<bool>)
    ensures |r| == 8 * |data|
  {
    if data == [] then [] else ByteBits(data[0]) + AllBits(data[1..])
  }

  function Bit(b: bool): bv32 {
    if b then 1 else 0
  }

  function DivideBits(c: bv32, bits: seq<bool>): bv32
    decreases bits
  {
    if bits == [] then c else DivideBits(Half(Xor(c, Bit(bits[0]))), bits[1..])
  }

  function Double(x: bv32): bv32 {
    x << 1
  }

  /** Up to 32 bits as a word. */
  function Word(w: seq<bool>): bv32
    requires |w| <= 32
  {
    if w == [] then 0 else Xor(Bit(w[0]), Double(Word(w[1..])))
  }

  /** The lowest n bits set. */
  function Mask(n: nat): bv32
    requires n <= 32
  {
    if n == 0 then 0 else Xor(1, Double(Mask(n - 1)))
  }

  predicate Within(x: bv32, m: bv32) {
    x & m == x
  }

  lemma WithinStep(b: bool, x: bv32, m: bv32)
    requires Within(x, m)
    ensures Within(Xor(Bit(b), Double(x)), Xor(1, Double(m)))
  {
    hide Within, Xor, Double;
    if b {
      WithinOdd(x, m);
    } else {
      WithinEven(x, m);
    }
  }

  lemma WithinOdd(x: bv32, m: bv32)
    requires Within(x, m)
    ensures Within(Xor(1, Double(x)), Xor(1, Double(m)))
  {}

  lemma WithinEven(x: bv32, m: bv32)
    requires Within(x, m)
    ensures Within(Xor(0, Double(x)), Xor(1, Double(m)))
  {}

  lemma {:induction false} MaskTop(n: nat)
    requires n <= 31
    ensures Within(Mask(n), 0x7FFFFFFF)
  {
    hide Within, Xor, Double;
    MaskGrows(n, 31);
    Mask31();
  }

  lemma {:induction false} MaskGrows(n: nat, k: nat)
    requires n <= k <= 32
    ensures Within(Mask(n), Mask(k))
  {
    if n > 0 {
      MaskGrows(n - 1, k - 1);
      hide Within, Xor, Double, Bit;
      WithinStep(true, Mask(n - 1), Mask(k - 1));
      One();
    }
  }

  lemma One()
    ensures Bit(true) == 1
  {}

  lemma Mask31()
    ensures Mask(31) == 0x7FFFFFFF
  {
    assert Mask(8) == 0xFF;
    assert Mask(16) == 0xFFFF;
    assert Mask(24) == 0xFFFFFF;
  }

  lemma WithinTrans(x: bv32, m: bv32, k: bv32)
    requires Within(x, m) && Within(m, k)
    ensures Within(x, k)
  {
    assert x & k == (x & m) & k == x & (m & k);
  }

  lemma {:induction false} WordFits(w: seq<bool>)
    requires |w| <= 32
    ensures Within(Word(w), Mask(|w|))
  {
    hide Within, Xor, Double, Bit;
    if w == [] {
      assert Within(0, 0) by { NoneWithin(); }
    } else {
      WordFits(w[1..]);
      WithinStep(w[0], Word(w[1..]), Mask(|w| - 1));
    }
  }

  lemma NoneWithin()
    ensures Within(0, 0)
  {}

  /** The word of at most 31 bits has its top bit clear, so that doubling it loses nothing. */
  lemma Undoubled(w: seq<bool>)
    requires |w| <= 31
    ensures Half(Double(Word(w))) == Word(w)
    ensures Within(Word(w), 0x7FFFFFFF)
  {
    hide Half, Double, Within, Xor, Bit, Word, Mask;
    WordFits(w);
    MaskTop(|w|);
    WithinTrans(Word(w), Mask(|w|), 0x7FFFFFFF);
    HalfDouble(Word(w));
  }

  lemma HalfDouble(x: bv32)
    requires Within(x, 0x7FFFFFFF)
    ensures Half(Double(x)) == x
  {}

  /** Dividing up to 32 bits is that many steps on the state with the bits mixed in as one word. */
  lemma {:induction false} BitsAsWord(c: bv32, w: seq<bool>)
    requires |w| <= 32
    ensures DivideBits(c, w) == Halves(Xor(c, Word(w)), |w|)
    decreases w
  {
    hide Half, Xor, Double, Bit;
    if w == [] {
      XorZero(c);
    } else {
      var rest := Word(w[1..]);
      BitsAsWord(Half(Xor(c, Bit(w[0]))), w[1..]);
      XorAssociates(c, Bit(w[0]), Double(rest));
      HalfXor(Xor(c, Bit(w[0])), Double(rest));
      Undoubled(w[1..]);
    }
  }

  lemma {:induction false} WordInjective(w: seq<bool>, v: seq<bool>)
    requires |w| == |v| <= 32 && Word(w) == Word(v)
    ensures w == v
  {
    hide Xor, Double, Bit, Within;
    if w != [] {
      Undoubled(w[1..]);
      Undoubled(v[1..]);
      MixInjective(w[0], Word(w[1..]), v[0], Word(v[1..]));
      WordInjective(w[1..], v[1..]);
      assert w == [w[0]] + w[1..] && v == [v[0]] + v[1..];
    }
  }

  lemma MixInjective(b: bool, x: bv32, d: bool, y: bv32)
    requires Within(x, 0x7FFFFFFF) && Within(y, 0x7FFFFFFF)
    requires Xor(Bit(b), Double(x)) == Xor(Bit(d), Double(y))
    ensures b == d && x == y
  {
    hide Within;
    MixParts(b, x);
    MixParts(d, y);
  }

  lemma MixParts(b: bool, x: bv32)
    requires Within(x, 0x7FFFFFFF)
    ensures Xor(Bit(b), Double(x)) & 1 != 0 <==> b
    ensures Shr(Xor(Bit(b), Double(x))) == x
  {}

  lemma {:induction false} DivideBitsConcat(c: bv32, a: seq<bool>, b: seq<bool>)
    ensures DivideBits(c, a + b) == DivideBits(DivideBits(c, a), b)
    decreases a
  {
    hide Half, Xor, Bit;
    if a == [] {
      assert a + b == b;
    } else {
      assert (a + b)[1..] == a[1..] + b;
      DivideBitsConcat(Half(Xor(c, Bit(a[0]))), a[1..], b);
    }
  }

  lemma {:induction false} DivideBitsInjective(c: bv32, d: bv32, bits: seq<bool>)
    requires DivideBits(c, bits) == DivideBits(d, bits)
    ensures c == d
    decreases bits
  {
    hide Half, Xor, Bit;
    if bits != [] {
      var x, y := Xor(c, Bit(bits[0])), Xor(d, Bit(bits[0]));
      DivideBitsInjective(Half(x), Half(y), bits[1..]);
      HalfInjective(x, y);
      XorCancels(c, d, Bit(bits[0]));
    }
  }

  lemma WordStep(w: seq<bool>)
    requires 0 < |w| <= 32
    ensures Word(w) == Xor(Bit(w[0]), Double(Word(w[1..])))
  {}

  function Chain(b0: bool, b1: bool, b2: bool, b3: bool, rest: bv32): bv32 {
    Xor(Bit(b0), Double(Xor(Bit(b1), Double(Xor(Bit(b2), Double(Xor(Bit(b3), Double(rest))))))))
  }

  lemma ChainWide(b: Byte)
    ensures Chain(b & 1 != 0, b & 2 != 0, b & 4 != 0, b & 8 != 0,
                  Chain(b & 16 != 0, b & 32 != 0, b & 64 != 0, b & 128 != 0, 0)) == Wide(b)
  {}

  lemma WordOfFour(w: seq<bool>)
    requires 4 <= |w| <= 32
    ensures Word(w) == Chain(w[0], w[1], w[2], w[3], Word(w[4..]))
  {
    hide Xor, Bit, Double, Word;
    assert w[1..][1..] == w[2..] && w[2..][1..] == w[3..] && w[3..][1..] == w[4..];
    WordStep(w);
    WordStep(w[1..]);
    WordStep(w[2..]);
    WordStep(w[3..]);
  }

  /** The bits of a byte make up the byte. */
  lemma ByteWord(b: Byte)
    ensures Word(ByteBits(b)) == Wide(b)
  {
    ChainWide(b);
    EmptyWord();
    hide Word, Chain, Wide;
    var w := ByteBits(b);
    assert w[4..][4..] == [];
    WordOfFour(w);
    WordOfFour(w[4..]);
  }

  lemma EmptyWord()
    ensures Word([]) == 0
  {}

  /** Dividing byte by byte is dividing bit by bit. */
  lemma {:induction false} DivideIsBits(c: bv32, data: seq<Byte>)
    ensures Divide(c, data) == DivideBits(c, AllBits(data))
    decreases data
  {
    hide Halves, Half, Xor, Wide, Word, DivideBits, ByteBits;
    if data == [] {
      NoBits(c);
    } else {
      var first := ByteBits(data[0]);
      ByteWord(data[0]);
      BitsAsWord(c, first);
      DivideIsBits(Halves(Xor(c, Wide(data[0])), 8), data[1..]);
      DivideBitsConcat(c, first, AllBits(data[1..]));
    }
  }

  lemma NoBits(c: bv32)
    ensures DivideBits(c, []) == c
  {}

  // ----- Bursts of up to 32 bits -----

  lemma XorCancels(a: bv32, b: bv32, k: bv32)
    requires Xor(a, k) == Xor(b, k)
    ensures a == b
  {
    assert Xor(Xor(a, k), k) == a && Xor(Xor(b, k), k) == b;
  }

  lemma XorZero(c: bv32)
    ensures Xor(c, 0) == c
  {}

  /** Any change confined to 32 consecutive bits changes the remainder, however long the message is. */
  lemma BitBurst(c: bv32, a: seq<bool>, w: seq<bool>, v: seq<bool>, z: seq<bool>)
    requires |w| == |v| <= 32 && w != v
    ensures DivideBits(c, a + w + z) != DivideBits(c, a + v + z)
  {
    hide Halves, Xor, Word, DivideBits;
    if DivideBits(c, a + w + z) == DivideBits(c, a + v + z) {
      var d := DivideBits(c, a);
      DivideBitsConcat(c, a + w, z);
      DivideBitsConcat(c, a, w);
      DivideBitsConcat(c, a + v, z);
      DivideBitsConcat(c, a, v);
      DivideBitsInjective(DivideBits(d, w), DivideBits(d, v), z);
      BitsAsWord(d, w);
      BitsAsWord(d, v);
      HalvesInjective(Xor(d, Word(w)), Xor(d, Word(v)), |w|);
      XorCommutes(d, Word(w));
      XorCommutes(d, Word(v));
      XorCancels(Word(w), Word(v), d);
      WordInjective(w, v);
    }
  }

  /** Bit i of a message. */
  function BitAt(data: seq<Byte>, i: nat): bool
    requires i < 8 * |data|
  {
    ByteBits(data[i / 8])[i % 8]
  }

  lemma {:induction false} BitsAt(data: seq<Byte>, i: nat)
    requires i < 8 * |data|
    ensures AllBits(data)[i] == BitAt(data, i)
  {
    hide ByteBits;
    if i >= 8 {
      BitsAt(data[1..], i - 8);
      assert data[1..][(i - 8) / 8] == data[i / 8];
    }
  }

  lemma BytesFromBits(a: Byte, b: Byte)
    requires ByteBits(a) == ByteBits(b)
    ensures a == b
  {
    hide ByteBits, Word, Wide;
    ByteWord(a);
    ByteWord(b);
    WideInjective(a, b);
  }

  lemma WideInjective(a: Byte, b: Byte)
    requires Wide(a) == Wide(b)
    ensures a == b
  {}

  ghost predicate SameOutside(a: seq<Byte>, b: seq<Byte>, i: nat)
    requires |a| == |b|
  {
    forall j | 0 <= j < 8 * |a| && !(i <= j < i + 32) :: BitAt(a, j) == BitAt(b, j)
  }

  /** Any change of a message of any length that is confined to 32 consecutive bits changes its checksum. */
  lemma BurstDetected(a: seq<Byte>, b: seq<Byte>, i: nat)
    requires |a| == |b| && a != b && SameOutside(a, b, i)
    ensures Checksum(a) != Checksum(b)
  {
    hide ByteBits, DivideBits, AllBits, Xor, BitAt, Divide;
    var x, y, n := AllBits(a), AllBits(b), 8 * |a|;
    forall j | 0 <= j < n ensures x[j] == BitAt(a, j) && y[j] == BitAt(b, j) {
      BitsAt(a, j);
      BitsAt(b, j);
    }
    BitsDiffer(a, b);
    var lo, hi := if i < n then i else n, if i + 32 < n then i + 32 else n;
    assert x[..lo] == y[..lo] && x[hi..] == y[hi..];
    assert x == x[..lo] + x[lo..hi] + x[hi..] && y == y[..lo] + y[lo..hi] + y[hi..];
    BitBurst(0xFFFFFFFF, x[..lo], x[lo..hi], y[lo..hi], x[hi..]);
    DivideIsBits(0xFFFFFFFF, a);
    DivideIsBits(0xFFFFFFFF, b);
    if Checksum(a) == Checksum(b) {
      XorCancels(Divide(0xFFFFFFFF, a), Divide(0xFFFFFFFF, b), 0xFFFFFFFF);
    }
  }

  lemma {:induction false} BitsDiffer(a: seq<Byte>, b: seq<Byte>)
    requires |a| == |b| && a != b
    ensures AllBits(a) != AllBits(b)
  {
    hide ByteBits;
    if AllBits(a) == AllBits(b) {
      var x, y := ByteBits(a[0]), ByteBits(b[0]);
      assert x == AllBits(a)[..8] && y == AllBits(b)[..8];
      assert AllBits(a[1..]) == AllBits(a)[8..] && AllBits(b[1..]) == AllBits(b)[8..];
      BytesFromBits(a[0], b[0]);
      assert a == [a[0]] + a[1..] && b == [b[0]] + b[1..];
      BitsDiffer(a[1..], b[1..]);
    }
  }

  lemma FirstByte()
    ensures Xor(0x0, Wide(0x41)) == 0x41 && Halves(0x41, 8) == 0x1DB7106
  {
    assert Half(0x41) == 0xEDB88300 && Half(0xEDB88300) == 0x76DC4180 && Half(0x76DC4180) == 0x3B6E20C0
        && Half(0x3B6E20C0) == 0x1DB71060;
    assert Half(0x1DB71060) == 0xEDB8830 && Half(0xEDB8830) == 0x76DC418 && Half(0x76DC418) == 0x3B6E20C
        && Half(0x3B6E20C) == 0x1DB7106;
    Unroll4(0x41);
    Unroll4(0x1DB71060);
    HalvesSum(0x41, 4, 4);
  }

  lemma SecondByte()
    ensures Xor(0x1DB7106, Wide(0x06)) == 0x1DB7100 && Halves(0x1DB7100, 8) == 0x1DB71
  {
    assert Half(0x1DB7100) == 0xEDB880 && Half(0xEDB880) == 0x76DC40 && Half(0x76DC40) == 0x3B6E20
        && Half(0x3B6E20) == 0x1DB710;
    assert Half(0x1DB710) == 0xEDB88 && Half(0xEDB88) == 0x76DC4 && Half(0x76DC4) == 0x3B6E2
        && Half(0x3B6E2) == 0x1DB71;
    Unroll4(0x1DB7100);
    Unroll4(0x1DB710);
    HalvesSum(0x1DB7100, 4, 4);
  }

  lemma ThirdByte()
    ensures Xor(0x1DB71, Wide(0x71)) == 0x1DB00 && Halves(0x1DB00, 8) == 0x1DB
  {
    assert Half(0x1DB00) == 0xED80 && Half(0xED80) == 0x76C0 && Half(0x76C0) == 0x3B60 && Half(0x3B60) == 0x1DB0;
    assert Half(0x1DB0) == 0xED8 && Half(0xED8) == 0x76C && Half(0x76C) == 0x3B6 && Half(0x3B6) == 0x1DB;
    Unroll4(0x1DB00);
    Unroll4(0x1DB0);
    HalvesSum(0x1DB00, 4, 4);
  }

  lemma FourthByte()
    ensures Xor(0x1DB, Wide(0xDB)) == 0x100 && Halves(0x100, 8) == 0x1
  {
    assert Half(0x100) == 0x80 && Half(0x80) == 0x40 && Half(0x40) == 0x20 && Half(0x20) == 0x10;
    assert Half(0x10) == 0x8 && Half(0x8) == 0x4 && Half(0x4) == 0x2 && Half(0x2) == 0x1;
    Unroll4(0x100);
    Unroll4(0x10);
    HalvesSum(0x100, 4, 4);
  }

  lemma FifthByte()
    ensures Xor(0x1, Wide(0x01)) == 0x0 && Halves(0x0, 8) == 0x0
  {
    assert Half(0x0) == 0x0 && Half(0x0) == 0x0 && Half(0x0) == 0x0 && Half(0x0) == 0x0;
    assert Half(0x0) == 0x0 && Half(0x0) == 0x0 && Half(0x0) == 0x0 && Half(0x0) == 0x0;
    Unroll4(0x0);
    Unroll4(0x0);
    HalvesSum(0x0, 4, 4);
  }

  function Flip(b: Byte, m: Byte): Byte {
    b ^ m
  }

  lemma WideFlip(b: Byte, m: Byte)
    ensures Wide(Flip(b, m)) == Xor(Wide(b), Wide(m))
  {}

  /** One byte with a difference d in the state and m in the data. */
  lemma StepWithDifference(c: bv32, d: bv32, b: Byte, m: Byte, next: bv32)
    requires Halves(Xor(d, Wide(m)), 8) == next
    ensures Halves(Xor(Xor(c, d), Wide(Flip(b, m))), 8) == Xor(Halves(Xor(c, Wide(b)), 8), next)
  {
    hide Halves, Xor, Wide, Flip;
    WideFlip(b, m);
    Interchange(c, d, Wide(b), Wide(m));
    HalvesXor(Xor(c, Wide(b)), Xor(d, Wide(m)), 8);
  }

  lemma TwoBytes(c: bv32, b: Byte, rest: seq<Byte>)
    ensures Divide(c, [b] + rest) == Divide(Halves(Xor(c, Wide(b)), 8), rest)
  {
    assert ([b] + rest)[1..] == rest;
  }

  function Word5(b0: Byte, b1: Byte, b2: Byte, b3: Byte, b4: Byte): seq<Byte> {
    [b0] + ([b1] + ([b2] + ([b3] + ([b4] + []))))
  }

  lemma DivideFive(c: bv32, b0: Byte, b1: Byte, b2: Byte, b3: Byte, b4: Byte)
    ensures Divide(c, Word5(Flip(b0, 0x41), Flip(b1, 0x06), Flip(b2, 0x71), Flip(b3, 0xDB), Flip(b4, 0x01)))
         == Divide(c, Word5(b0, b1, b2, b3, b4))
  {
    hide Halves, Xor, Wide, Flip, Half, Divide;
    FirstByte();
    SecondByte();
    ThirdByte();
    FourthByte();
    FifthByte();
    XorZero(c);
    var c1 := Halves(Xor(c, Wide(b0)), 8);
    StepWithDifference(c, 0x0, b0, 0x41, 0x1DB7106);
    var c2 := Halves(Xor(c1, Wide(b1)), 8);
    StepWithDifference(c1, 0x1DB7106, b1, 0x06, 0x1DB71);
    var c3 := Halves(Xor(c2, Wide(b2)), 8);
    StepWithDifference(c2, 0x1DB71, b2, 0x71, 0x1DB);
    var c4 := Halves(Xor(c3, Wide(b3)), 8);
    StepWithDifference(c3, 0x1DB, b3, 0xDB, 0x1);
    var c5 := Halves(Xor(c4, Wide(b4)), 8);
    StepWithDifference(c4, 0x1, b4, 0x01, 0x0);
    XorZero(c5);
    TwoBytes(c, b0, [b1] + ([b2] + ([b3] + ([b4] + []))));
    TwoBytes(Xor(c, 0x0), Flip(b0, 0x41),
             [Flip(b1, 0x06)] + ([Flip(b2, 0x71)] + ([Flip(b3, 0xDB)] + ([Flip(b4, 0x01)] + []))));
    TwoBytes(c1, b1, [b2] + ([b3] + ([b4] + [])));
    TwoBytes(Xor(c1, 0x1DB7106), Flip(b1, 0x06), [Flip(b2, 0x71)] + ([Flip(b3, 0xDB)] + ([Flip(b4, 0x01)] + [])));
    TwoBytes(c2, b2, [b3] + ([b4] + []));
    TwoBytes(Xor(c2, 0x1DB71), Flip(b2, 0x71), [Flip(b3, 0xDB)] + ([Flip(b4, 0x01)] + []));
    TwoBytes(c3, b3, [b4] + []);
    TwoBytes(Xor(c3, 0x1DB), Flip(b3, 0xDB), [Flip(b4, 0x01)] + []);
    TwoBytes(c4, b4, []);
    TwoBytes(Xor(c4, 0x1), Flip(b4, 0x01), []);
  }

  /** 33 bits are too many: flipping the polynomial's bit pattern in five consecutive bytes always goes unnoticed. */
  lemma FiveBytesUndetected(a: seq<Byte>, b0: Byte, b1: Byte, b2: Byte, b3: Byte, b4: Byte, z: seq<Byte>)
    ensures Checksum(a + Word5(Flip(b0, 0x41), Flip(b1, 0x06), Flip(b2, 0x71), Flip(b3, 0xDB), Flip(b4, 0x01)) + z)
         == Checksum(a + Word5(b0, b1, b2, b3, b4) + z)
  {
    hide Divide, Xor, Flip, Word5;
    var v := Word5(Flip(b0, 0x41), Flip(b1, 0x06), Flip(b2, 0x71), Flip(b3, 0xDB), Flip(b4, 0x01));
    var w := Word5(b0, b1, b2, b3, b4);
    DivideConcat(0xFFFFFFFF, a + v, z);
    DivideConcat(0xFFFFFFFF, a, v);
    DivideConcat(0xFFFFFFFF, a + w, z);
    DivideConcat(0xFFFFFFFF, a, w);
    DivideFive(Divide(0xFFFFFFFF, a), b0, b1, b2, b3, b4);
  }
}
