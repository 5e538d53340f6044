/** GF(2^8) as the erasure code uses it: polynomials over GF(2) modulo 0x11D, generator 2. */
module Gf256 {
  import opened Collections
  import opened Residues

  type Byte = bv8

  const PRIMITIVE: bv16 := 0x11D

  // ----- Elements as polynomials -----

  function Add(a: Byte, b: Byte): Byte {
    a ^ b
  }

  /** Multiplication by the generator: shift, then subtract the primitive polynomial on overflow. */
  function Xtime(a: Byte): Byte {
    (a << 1) ^ (if a & 0x80 != 0 then 0x1D else 0)
  }

  /** The coefficients of b, lowest degree first. */
  function Bits(b: Byte): seq<bool> {
    [b & 1 != 0, b & 2 != 0, b & 4 != 0, b & 8 != 0, b & 16 != 0, b & 32 != 0, b & 64 != 0, b & 128 != 0]
  }

  /** Horner's scheme, reduced at every step. */
  function MulBits(a: Byte, bits: seq<bool>): Byte {
    if bits == [] then 0 else Add(if bits[0] then a else 0, Xtime(MulBits(a, bits[1..])))
  }

  function Mul(a: Byte, b: Byte): Byte {
    MulBits(a, Bits(b))
  }

  function Sum(p: bv16, q: bv16): bv16 {
    p ^ q
  }

  function Shift(p: bv16): bv16 {
    p << 1
  }

  function Widen(a: Byte): bv16 {
    a as bv16
  }

  predicate Overflows(a: Byte) {
    a & 0x80 != 0
  }

  /** The carry-less (unreduced) product of two polynomials; it stays below degree 16 for |bits| <= 8. */
  function Clmul(a: bv16, bits: seq<bool>): bv16 {
    if bits == [] then 0 else Sum(if bits[0] then a else 0, Shift(Clmul(a, bits[1..])))
  }

  lemma AddZero(a: Byte)
    ensures Add(a, 0) == a == Add(0, a)
  {}

  lemma AddSelf(a: Byte, b: Byte)
    ensures Add(a, b) == 0 <==> a == b
  {}

  lemma AddCommutes(a: Byte, b: Byte)
    ensures Add(a, b) == Add(b, a)
  {}

  lemma AddAssociates(a: Byte, b: Byte, c: Byte)
    ensures Add(Add(a, b), c) == Add(a, Add(b, c))
  {
    assert (a ^ b) ^ c == a ^ (b ^ c);
  }

  lemma AddTwice(a: Byte, b: Byte)
    ensures Add(Add(a, b), b) == a
  {
    assert (a ^ b) ^ b == a;
  }

  lemma Interchange(a: Byte, b: Byte, c: Byte, d: Byte)
    ensures Add(Add(a, b), Add(c, d)) == Add(Add(a, c), Add(b, d))
  {
    assert (a ^ b) ^ (c ^ d) == (a ^ c) ^ (b ^ d);
  }

  lemma XtimeAdd(a: Byte, b: Byte)
    ensures Xtime(Add(a, b)) == Add(Xtime(a), Xtime(b))
  {
    if a & 0x80 != 0 {
      if b & 0x80 != 0 {} else {}
    } else {
      if b & 0x80 != 0 {} else {}
    }
  }

  lemma XtimeInjective(a: Byte, b: Byte)
    requires Xtime(a) == Xtime(b)
    ensures a == b
  {}

  lemma SumAssociates(p: bv16, q: bv16, r: bv16)
    ensures p ^ (q ^ r) == (p ^ q) ^ r
  {}

  lemma ReduceOnce(p: bv16, r: Byte)
    ensures (p ^ (r as bv16)) << 1 == ((p << 1) ^ (if r & 0x80 != 0 then PRIMITIVE else 0)) ^ (Xtime(r) as bv16)
  {
    assert (p ^ (r as bv16)) << 1 == (p << 1) ^ ((r as bv16) << 1);
    assert (r as bv16) << 1 == (if r & 0x80 != 0 then PRIMITIVE else 0) ^ (Xtime(r) as bv16) by {
      if r & 0x80 != 0 {} else {}
    }
    SumAssociates(p << 1, if r & 0x80 != 0 then PRIMITIVE else 0, Xtime(r) as bv16);
  }

  lemma RemainderStep(c: Byte, p: bv16, r: Byte)
    ensures Sum(Widen(c), Shift(Sum(p, Widen(r))))
         == Sum(Sum(if Overflows(r) then PRIMITIVE else 0, Shift(p)), Widen(Add(c, Xtime(r))))
  {
    ReduceOnce(p, r);
    var t, x: bv16 := if r & 0x80 != 0 then PRIMITIVE else 0, Xtime(r) as bv16;
    assert (c as bv16) ^ (((p << 1) ^ t) ^ x) == (t ^ (p << 1)) ^ ((c as bv16) ^ x);
  }

  lemma NoRemainder()
    ensures Sum(0, Widen(0)) == 0 && Widen(0) == 0
  {}

  /** Mul is the remainder of the carry-less product on division by 0x11D; q is the quotient. */
  lemma {:induction false} MulIsRemainder(a: Byte, bits: seq<bool>) returns (q: seq<bool>)
    ensures |q| == |bits|
    ensures Clmul(Widen(a), bits) == Sum(Clmul(PRIMITIVE, q), Widen(MulBits(a, bits)))
  {
    hide Xtime, Sum, Add, Shift, Overflows, Widen;
    NoRemainder();
    if bits == [] {
      q := [];
    } else {
      var q0 := MulIsRemainder(a, bits[1..]);
      var r := MulBits(a, bits[1..]);
      q := [Overflows(r)] + q0;
      assert q[1..] == q0;
      RemainderStep(if bits[0] then a else 0, Clmul(PRIMITIVE, q0), r);
    }
  }

  // ----- Linearity in the first factor -----

  lemma {:induction false} MulBitsAdd(a: Byte, c: Byte, bits: seq<bool>)
    ensures MulBits(Add(a, c), bits) == Add(MulBits(a, bits), MulBits(c, bits))
  {
    hide Xtime, Add;
    AddZero(0);
    if bits != [] {
      var u, v := MulBits(a, bits[1..]), MulBits(c, bits[1..]);
      MulBitsAdd(a, c, bits[1..]);
      XtimeAdd(u, v);
      Interchange(if bits[0] then a else 0, if bits[0] then c else 0, Xtime(u), Xtime(v));
    }
  }

  lemma {:induction false} MulBitsXtime(a: Byte, bits: seq<bool>)
    ensures MulBits(Xtime(a), bits) == Xtime(MulBits(a, bits))
  {
    if bits != [] {
      MulBitsXtime(a, bits[1..]);
      XtimeAdd(if bits[0] then a else 0, Xtime(MulBits(a, bits[1..])));
    }
  }

  lemma {:induction false} MulBitsZero(bits: seq<bool>)
    ensures MulBits(0, bits) == 0
  {
    if bits != [] {
      MulBitsZero(bits[1..]);
    }
  }

  // ----- Powers of the generator -----

  function Exp(i: nat): Byte {
    if i == 0 then 1 else Xtime(Exp(i - 1))
  }

  lemma OneTimesBit(b: Byte, t: bool, bits: seq<bool>)
    requires MulBits(1, bits) == b >> 1 && t == (b & 1 != 0)
    ensures MulBits(1, [t] + bits) == b
  {
    assert ([t] + bits)[1..] == bits;
  }

  lemma OneTimesHigh(b: Byte)
    ensures MulBits(1, Bits(b)[4..]) == b >> 4
  {
    var bits := Bits(b);
    assert MulBits(1, []) == 0;
    assert bits[7..] == [bits[7]] + [];
    OneTimesBit(b >> 7, bits[7], []);
    assert bits[6..] == [bits[6]] + bits[7..];
    OneTimesBit(b >> 6, bits[6], bits[7..]);
    assert bits[5..] == [bits[5]] + bits[6..];
    OneTimesBit(b >> 5, bits[5], bits[6..]);
    assert bits[4..] == [bits[4]] + bits[5..];
    OneTimesBit(b >> 4, bits[4], bits[5..]);
  }

  lemma OneTimesMiddle(b: Byte)
    ensures MulBits(1, Bits(b)[2..]) == b >> 2
  {
    hide MulBits, Xtime, Add;
    var bits := Bits(b);
    OneTimesHigh(b);
    assert bits[3..] == [bits[3]] + bits[4..];
    OneTimesBit(b >> 3, bits[3], bits[4..]);
    assert bits[2..] == [bits[2]] + bits[3..];
    OneTimesBit(b >> 2, bits[2], bits[3..]);
  }

  lemma OneTimes(b: Byte)
    ensures Mul(1, b) == b
  {
    hide MulBits, Xtime, Add;
    var bits := Bits(b);
    OneTimesMiddle(b);
    assert bits[1..] == [bits[1]] + bits[2..];
    OneTimesBit(b >> 1, bits[1], bits[2..]);
    assert bits == [bits[0]] + bits[1..];
    OneTimesBit(b, bits[0], bits[1..]);
  }

  lemma {:induction false} MulExp(i: nat, b: Byte)
    ensures Mul(Exp(i), b) == XtimeTimes(b, i)
  {
    if i == 0 {
      OneTimes(b);
    } else {
      MulExp(i - 1, b);
      MulBitsXtime(Exp(i - 1), Bits(b));
    }
  }

  function XtimeTimes(b: Byte, i: nat): Byte {
    if i == 0 then b else Xtime(XtimeTimes(b, i - 1))
  }

  lemma {:induction false} XtimeTimesExp(i: nat, j: nat)
    ensures XtimeTimes(Exp(j), i) == Exp(i + j)
  {
    if i > 0 {
      XtimeTimesExp(i - 1, j);
    }
  }

  /** Multiplication is addition of exponents. */
  lemma ExpSum(i: nat, j: nat)
    ensures Mul(Exp(i), Exp(j)) == Exp(i + j)
  {
    MulExp(i, Exp(j));
    XtimeTimesExp(i, j);
  }

  /** Four rounds of Horner's scheme. */
  function Horner(a: Byte, b0: bool, b1: bool, b2: bool, b3: bool, rest: Byte): Byte {
    Add(if b0 then a else 0, Xtime(Add(if b1 then a else 0, Xtime(Add(if b2 then a else 0,
    Xtime(Add(if b3 then a else 0, Xtime(rest))))))))
  }

  lemma MulBitsStep(a: Byte, bits: seq<bool>)
    requires bits != []
    ensures MulBits(a, bits) == Add(if bits[0] then a else 0, Xtime(MulBits(a, bits[1..])))
  {}

  lemma HornerFour(a: Byte, bits: seq<bool>)
    requires |bits| >= 4
    ensures MulBits(a, bits) == Horner(a, bits[0], bits[1], bits[2], bits[3], MulBits(a, bits[4..]))
  {
    hide Add, Xtime, MulBits;
    assert bits[1..][1..] == bits[2..] && bits[2..][1..] == bits[3..] && bits[3..][1..] == bits[4..];
    MulBitsStep(a, bits);
    MulBitsStep(a, bits[1..]);
    MulBitsStep(a, bits[2..]);
    MulBitsStep(a, bits[3..]);
  }

  /** A product written out. */
  function Product(a: Byte, b: Byte): Byte {
    Horner(a, b & 1 != 0, b & 2 != 0, b & 4 != 0, b & 8 != 0,
           Horner(a, b & 16 != 0, b & 32 != 0, b & 64 != 0, b & 128 != 0, 0))
  }

  lemma MulIsProduct(a: Byte, b: Byte)
    ensures Mul(a, b) == Product(a, b)
  {
    NoBits(a);
    hide Horner, MulBits;
    var bits := Bits(b);
    HornerFour(a, bits);
    HornerFour(a, bits[4..]);
    assert bits[4..][4..] == [];
  }

  lemma NoBits(a: Byte)
    ensures MulBits(a, []) == 0
  {}

  lemma SomeProducts()
    ensures Product(0x1D, 0x80) == 0x26 && Product(0x1D, 0x1D) == 0x4C && Product(0x98, 0x98) == 0x4E
    ensures Product(0x4E, 0x98) == 0x0A && Product(0x0A, 0x4E) == 0xD6
    ensures Product(0xD6, 0xD6) == 0xD7 && Product(0xD7, 0xD6) == 1
  {}

  lemma ExpProduct(i: nat, j: nat, a: Byte, b: Byte)
    requires Exp(i) == a && Exp(j) == b
    ensures Exp(i + j) == Product(a, b)
  {
    hide Exp, Mul, Product;
    ExpSum(i, j);
    MulIsProduct(a, b);
  }

  /** The power 255 is 1; those at its three largest divisors are not. */
  lemma FullTurn()
    ensures Exp(255) == 1 && Exp(85) != 1 && Exp(51) != 1 && Exp(15) != 1
  {
    hide Exp, Product;
    FirstPowers();
    SomeProducts();
    ExpProduct(8, 7, 0x1D, 0x80);
    ExpProduct(8, 8, 0x1D, 0x1D);
    NextPower(16, 0x4C);
    ExpProduct(17, 17, 0x98, 0x98);
    ExpProduct(34, 17, 0x4E, 0x98);
    ExpProduct(51, 34, 0x0A, 0x4E);
    ExpProduct(85, 85, 0xD6, 0xD6);
    ExpProduct(170, 85, 0xD7, 0xD6);
  }

  lemma NextPower(i: nat, a: Byte)
    requires Exp(i) == a
    ensures Exp(i + 1) == Xtime(a)
  {}

  lemma FirstPowers()
    ensures Exp(7) == 0x80 && Exp(8) == 0x1D
  {
    assert Exp(1) == 0x02;
    hide Exp;
    NextPower(1, 0x02);
    NextPower(2, 0x04);
    NextPower(3, 0x08);
    NextPower(4, 0x10);
    NextPower(5, 0x20);
    NextPower(6, 0x40);
    NextPower(7, 0x80);
  }

  lemma {:induction false} ExpNonzero(i: nat)
    ensures Exp(i) != 0
  {
    if i > 0 {
      ExpNonzero(i - 1);
      if Exp(i) == 0 {
        XtimeInjective(Exp(i - 1), 0);
      }
    }
  }

  lemma {:induction false} ExpPeriod(i: nat)
    ensures Exp(i + 255) == Exp(i)
  {
    if i == 0 {
      FullTurn();
    } else {
      ExpPeriod(i - 1);
    }
  }

  lemma {:induction false} ExpModulo(i: nat)
    ensures Exp(i) == Exp(i % 255)
  {
    if i >= 255 {
      ExpModulo(i - 255);
      ExpPeriod(i - 255);
    }
  }

  /** Multiples of an exponent of 1 are exponents of 1. */
  lemma {:induction false} ExpMultiple(i: nat, n: nat)
    requires Exp(i) == 1
    ensures Exp(i * n) == 1
  {
    hide Mul;
    if n > 0 {
      ExpMultiple(i, n - 1);
      assert i * n == i * (n - 1) + i;
      ExpSum(i * (n - 1), i);
      MulOneOne();
    }
  }

  lemma MulOneOne()
    ensures Mul(1, 1) == 1
  {}

  /**
   * The generator has order 255: its powers return to 1 for the first time at exponent 255. A smaller exponent misses
   * one of the prime factors 3, 5 and 17, and a multiple of it would be 85, 51 or 15 modulo 255.
   */
  lemma Order()
    ensures Exp(255) == 1
    ensures forall i | 0 < i < 255 :: Exp(i) != 1
  {
    hide Exp;
    FullTurn();
    forall i | 0 < i < 255 ensures Exp(i) != 1 {
      if i % 3 == 0 && i % 5 == 0 && i % 17 == 0 {
        AllThree(i);
      } else {
        var r := if i % 3 != 0 then 3 else if i % 5 != 0 then 5 else 17;
        if Exp(i) == 1 {
          Reaches(i, r);
        }
      }
    }
  }

  lemma Reaches(i: nat, r: nat)
    requires PrimeFactor(r) && i % r != 0 && Exp(i) == 1
    ensures Exp(255 / r) == 1
  {
    hide Exp;
    var e := Invertible(i, r);
    Cofactor(i * e, r);
    ExpMultiple(i, e);
    ExpMultiple(i * e, 255 / r);
    ExpModulo(i * e * (255 / r));
    assert i * e * (255 / r) == 255 / r * (i * e);
  }

  /** Two exponents give the same power exactly if they agree modulo 255. */
  lemma ExpEqual(i: nat, j: nat)
    ensures Exp(i) == Exp(j) <==> i % 255 == j % 255
  {
    hide Exp;
    ExpModulo(i);
    ExpModulo(j);
    if i % 255 < j % 255 {
      ExpInjective(i % 255, j % 255);
    } else if j % 255 < i % 255 {
      ExpInjective(j % 255, i % 255);
    }
  }

  lemma {:induction false} ExpInjective(i: nat, j: nat)
    requires i < j < 255
    ensures Exp(i) != Exp(j)
  {
    if i == 0 {
      Order();
    } else {
      ExpInjective(i - 1, j - 1);
      if Exp(i) == Exp(j) {
        XtimeInjective(Exp(i - 1), Exp(j - 1));
      }
    }
  }

  // ----- Every nonzero element is a power -----

  ghost predicate Distinct<T>(s: seq<T>) {
    forall i, j | 0 <= i < j < |s| :: s[i] != s[j]
  }

  function Below(n: nat): (s: set<nat>)
    ensures |s| == n
    ensures forall k: nat :: k in s <==> k < n
  {
    if n == 0 then {} else Below(n - 1) + {n - 1}
  }

  lemma {:induction false} DistinctSize<T>(s: seq<T>)
    requires Distinct(s)
    ensures |set x | x in s| == |s|
  {
    if s != [] {
      DistinctSize(s[1..]);
      assert (set x | x in s) == (set x | x in s[1..]) + {s[0]};
    }
  }

  /** n distinct numbers below n are all of them. */
  lemma Pigeonhole(s: seq<nat>, v: nat)
    requires Distinct(s)
    requires forall x | x in s :: x < |s|
    requires v < |s|
    ensures v in s
  {
    DistinctSize(s);
    if v !in s {
      var elements := set x | x in s;
      SubsetSize(elements, Below(|s|) - {v});
    }
  }

  /** Nonzero bytes, numbered from 0. */
  function PowerIndex(i: nat): (k: nat)
    ensures k < 255 && k + 1 == Exp(i) as nat
  {
    ExpNonzero(i);
    (Exp(i) as nat) - 1
  }

  lemma LogExists(a: Byte)
    requires a != 0
    ensures exists i: nat :: i < 255 && Exp(i) == a
  {
    hide Exp;
    var s := seq(255, i requires 0 <= i < 255 => PowerIndex(i));
    forall i, j | 0 <= i < j < 255 ensures s[i] != s[j] {
      ExpInjective(i, j);
      ByteValues(Exp(i), Exp(j));
    }
    Pigeonhole(s, (a as nat) - 1);
    var i :| 0 <= i < 255 && s[i] == (a as nat) - 1;
    ByteValues(Exp(i), a);
  }

  lemma ByteRoundTrip(n: nat)
    requires n < 256
    ensures (n as Byte) as nat == n
  {
    assert n % 256 == n;
  }

  lemma ByteValues(a: Byte, b: Byte)
    ensures a as nat == b as nat ==> a == b
  {}

  /** The discrete logarithm. */
  ghost function Log(a: Byte): (i: nat)
    requires a != 0
    ensures i < 255 && Exp(i) == a
  {
    LogExists(a);
    var i: nat :| i < 255 && Exp(i) == a;
    i
  }

  // ----- The field laws -----

  lemma MulZero(a: Byte)
    ensures Mul(0, a) == 0 == Mul(a, 0)
  {
    MulBitsZero(Bits(a));
    if a != 0 {
      MulExp(Log(a), 0);
      ZeroPowers(Log(a));
    }
  }

  lemma {:induction false} ZeroPowers(i: nat)
    ensures XtimeTimes(0, i) == 0
  {
    if i > 0 {
      ZeroPowers(i - 1);
    }
  }

  lemma MulLog(a: Byte, b: Byte)
    requires a != 0 && b != 0
    ensures Mul(a, b) == Exp(Log(a) + Log(b)) && Mul(a, b) != 0
  {
    ExpSum(Log(a), Log(b));
    ExpNonzero(Log(a) + Log(b));
  }

  lemma MulCommutes(a: Byte, b: Byte)
    ensures Mul(a, b) == Mul(b, a)
  {
    if a == 0 {
      MulZero(b);
    } else if b == 0 {
      MulZero(a);
    } else {
      MulLog(a, b);
      MulLog(b, a);
    }
  }

  lemma MulAssociates(a: Byte, b: Byte, c: Byte)
    ensures Mul(Mul(a, b), c) == Mul(a, Mul(b, c))
  {
    if a == 0 || b == 0 || c == 0 {
      MulZero(a);
      MulZero(b);
      MulZero(c);
      MulZero(Mul(a, b));
      MulZero(Mul(b, c));
    } else {
      var i, j, k := Log(a), Log(b), Log(c);
      ExpSum(i, j);
      ExpSum(i + j, k);
      ExpSum(j, k);
      ExpSum(i, j + k);
    }
  }

  lemma MulDistributes(a: Byte, b: Byte, c: Byte)
    ensures Mul(Add(a, b), c) == Add(Mul(a, c), Mul(b, c))
    ensures Mul(c, Add(a, b)) == Add(Mul(c, a), Mul(c, b))
  {
    MulBitsAdd(a, b, Bits(c));
    MulCommutes(c, Add(a, b));
    MulCommutes(c, a);
    MulCommutes(c, b);
  }

  lemma MulOne(a: Byte)
    ensures Mul(1, a) == a == Mul(a, 1)
  {
    OneTimes(a);
    MulCommutes(a, 1);
  }

  lemma NoZeroDivisors(a: Byte, b: Byte)
    requires Mul(a, b) == 0
    ensures a == 0 || b == 0
  {
    if a != 0 && b != 0 {
      MulLog(a, b);
    }
  }

  function Pow(a: Byte, e: nat): Byte {
    if e == 0 then 1 else Mul(Pow(a, e - 1), a)
  }

  lemma {:induction false} PowExp(i: nat, e: nat)
    ensures Pow(Exp(i), e) == Exp(i * e)
  {
    if e > 0 {
      PowExp(i, e - 1);
      ExpSum(i * (e - 1), i);
    }
  }

  lemma {:induction false} PowZero(e: nat)
    requires e > 0
    ensures Pow(0, e) == 0
  {
    MulZero(Pow(0, e - 1));
  }
}
