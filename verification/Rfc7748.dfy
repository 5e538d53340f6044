/** The function X25519 of section 5 of RFC 7748, over plain integers. */
module Rfc7748 {
  import opened Field25519

  type Octet = b: int | 0 <= b < 256

  function Exp2(n: nat): (r: int)
    ensures r > 0
  {
    if n == 0 then 1 else 2 * Exp2(n - 1)
  }

  /** Little-endian integer. */
  function FromLe(b: seq<Octet>): (r: int)
    ensures r >= 0
  {
    if b == [] then 0 else b[0] + 256 * FromLe(b[1..])
  }

  function ToLe(v: int, n: nat): (r: seq<Octet>)
    requires v >= 0
    ensures |r| == n
  {
    if n == 0 then [] else [v % 256] + ToLe(v / 256, n - 1)
  }

  function Power(z: int, e: nat): (r: int)
    ensures 0 <= r < P
  {
    if e == 0 then 1 else Times(Power(z, e - 1), z)
  }

  // ----- Decoding -----

  function Clamped(k: seq<Octet>): (r: seq<Octet>)
    requires |k| == 32
    ensures |r| == 32
  {
    k[0 := k[0] - k[0] % 8][31 := k[31] % 64 + 64]
  }

  function DecodeScalar(k: seq<Octet>): int
    requires |k| == 32
  {
    FromLe(Clamped(k))
  }

  /** The top bit of the coordinate is ignored; non-canonical values are reduced. */
  function DecodeU(u: seq<Octet>): int
    requires |u| == 32
  {
    (FromLe(u) % (P + 19)) % P
  }

  // ----- The Montgomery ladder -----

  datatype Ladder = Ladder(x2: int, z2: int, x3: int, z3: int)

  function Bit(k: int, t: nat): int
    requires k >= 0
  {
    (k / Exp2(t)) % 2
  }

  /** One ladder step on unswapped operands: doubling of (x2, z2), differential addition into (x3, z3). */
  function StepOf(l: Ladder, x1: int): Ladder {
    var a, b := Plus(l.x2, l.z2), Minus(l.x2, l.z2);
    var aa, bb := Times(a, a), Times(b, b);
    var e := Minus(aa, bb);
    var c, d := Plus(l.x3, l.z3), Minus(l.x3, l.z3);
    var da, cb := Times(d, a), Times(c, b);
    var s, m := Plus(da, cb), Minus(da, cb);
    Ladder(Times(aa, bb), Times(e, Plus(aa, Times(e, 121665))), Times(s, s), Times(x1, Times(m, m)))
  }

  function Swapped(l: Ladder, swap: bool): Ladder {
    if swap then Ladder(l.x3, l.z3, l.x2, l.z2) else l
  }

  function Start(x1: int): Ladder {
    Ladder(1, 0, x1, 1)
  }

  /** The loop with delayed conditional swaps: state and pending swap after the bits 254 down to n. */
  function Climb(k: int, x1: int, n: nat): (Ladder, bool)
    requires k >= 0 && n <= 255
    decreases 255 - n
  {
    if n == 255 then (Start(x1), false)
    else
      var (l, swap) := Climb(k, x1, n + 1);
      var bit := Bit(k, n) == 1;
      (StepOf(Swapped(l, swap != bit), x1), bit)
  }

  lemma ClimbStart(k: int, x1: int)
    requires k >= 0
    ensures Climb(k, x1, 255) == (Start(x1), false)
  {}

  lemma ClimbStep(k: int, x1: int, n: nat)
    requires k >= 0 && n < 255
    ensures var (l, swap) := Climb(k, x1, n + 1);
      Climb(k, x1, n) == (StepOf(Swapped(l, swap != (Bit(k, n) == 1)), x1), Bit(k, n) == 1)
  {}

  function X25519(k: seq<Octet>, u: seq<Octet>): int
    requires |k| == 32 && |u| == 32
  {
    var (l, swap) := Climb(DecodeScalar(k), DecodeU(u), 0);
    var last := Swapped(l, swap);
    Times(last.x2, Power(last.z2, P - 2))
  }

  /** The textbook ladder: the bit alone chooses which of the two points is doubled. */
  function Textbook(k: int, x1: int, n: nat): Ladder
    requires k >= 0 && n <= 255
    decreases 255 - n
  {
    if n == 255 then Start(x1)
    else
      var l := Textbook(k, x1, n + 1);
      if Bit(k, n) == 1 then Swapped(StepOf(Swapped(l, true), x1), true) else StepOf(l, x1)
  }

  /** Delaying and merging the swaps does not change what the ladder computes. */
  lemma {:induction false} SwapsCancel(k: int, x1: int, n: nat)
    requires k >= 0 && n <= 255
    ensures var (l, swap) := Climb(k, x1, n); Swapped(l, swap) == Textbook(k, x1, n)
    decreases 255 - n
  {
    hide StepOf;
    if n < 255 {
      SwapsCancel(k, x1, n + 1);
    }
  }

  // ----- Powers -----

  lemma {:induction false} PowerSum(z: int, a: nat, b: nat)
    ensures Times(Power(z, a), Power(z, b)) == Power(z, a + b)
  {
    hide Times;
    TimesOne(Power(z, a));
    if b > 0 {
      PowerSum(z, a, b - 1);
      TimesAssociates(Power(z, a), Power(z, b - 1), z);
    }
  }

  lemma TimesAssociates(x: int, y: int, z: int)
    ensures Times(x, Times(y, z)) == Times(Times(x, y), z)
  {
    ModProductRight(x, y * z);
    Regroup(x, y, z);
    ModProductLeft(x * y, z);
  }

  lemma TimesOne(x: int)
    requires 0 <= x < P
    ensures Times(x, 1) == x == Times(1, x)
  {}

  lemma Regroup(x: int, y: int, z: int)
    ensures x * (y * z) == (x * y) * z
  {}

  lemma {:induction false} Exp2Sum(a: nat, b: nat)
    ensures Exp2(a + b) == Exp2(a) * Exp2(b)
  {
    if a > 0 {
      Exp2Sum(a - 1, b);
    }
  }

  // ----- Bits and bytes -----

  lemma DivideTwice(a: int, b: int)
    requires a >= 0 && b > 0
    ensures a / (256 * b) == (a / 256) / b
  {
    var q := (a / 256) / b;
    var r := (a / 256) % b;
    assert a / 256 == q * b + r;
    assert a == 256 * (q * b + r) + a % 256;
    Quotient(a, 256 * b, q, 256 * r + a % 256);
  }

  lemma Quotient(a: int, m: int, q: int, r: int)
    requires m > 0 && a == m * q + r && 0 <= r < m
    ensures a / m == q
  {
    var d := a / m - q;
    assert m * d == r - a % m;
    assert -m < m * d < m;
    SmallMultiple(m, d);
  }

  lemma SmallMultiple(m: int, d: int)
    requires m > 0 && -m < m * d < m
    ensures d == 0
  {}

  lemma LowQuotient(b0: Octet, rest: int, e: int, f: int)
    requires rest >= 0 && e > 0 && e * f == 128
    ensures ((b0 + 256 * rest) / e) % 2 == (b0 / e) % 2
  {
    var c, k := b0 / e, f * rest;
    LowProduct(e, f, rest, c);
    Quotient(b0 + 256 * rest, e, c + 2 * k, b0 % e);
    SameParity(c, k);
  }

  lemma LowProduct(e: int, f: int, rest: int, c: int)
    requires e * f == 128
    ensures e * (c + 2 * (f * rest)) == e * c + 256 * rest
  {
    assert e * (f * rest) == (e * f) * rest;
  }

  lemma SameParity(c: int, k: int)
    ensures (c + 2 * k) % 2 == c % 2
  {}

  lemma LowBit(b0: Octet, rest: int, t: nat)
    requires t < 8 && rest >= 0
    ensures ((b0 + 256 * rest) / Exp2(t)) % 2 == (b0 / Exp2(t)) % 2
  {
    Exp2Sum(t, 7 - t);
    SmallPowersOfTwo();
    LowQuotient(b0, rest, Exp2(t), Exp2(7 - t));
  }

  lemma HighBit(b0: Octet, rest: int, t: nat)
    requires t >= 8 && rest >= 0
    ensures (b0 + 256 * rest) / Exp2(t) == rest / Exp2(t - 8)
  {
    Exp2Sum(8, t - 8);
    SmallPowersOfTwo();
    hide Exp2;
    DivideTwice(b0 + 256 * rest, Exp2(t - 8));
    assert (b0 + 256 * rest) / 256 == rest;
  }

  lemma SmallPowersOfTwo()
    ensures Exp2(0) == 1 && Exp2(1) == 2 && Exp2(2) == 4 && Exp2(3) == 8 && Exp2(4) == 16
    ensures Exp2(5) == 32 && Exp2(6) == 64 && Exp2(7) == 128 && Exp2(8) == 256
  {}

  /** Bit t of an integer is bit t % 8 of its byte t / 8. */
  lemma {:induction false} BitOfByte(b: seq<Octet>, t: nat)
    requires t / 8 < |b|
    ensures Bit(FromLe(b), t) == (b[t / 8] / Exp2(t % 8)) % 2
  {
    hide Exp2, FromLe;
    FromLeStep(b);
    ByteIndex(t);
    if t < 8 {
      LowBit(b[0], FromLe(b[1..]), t);
    } else {
      BitOfByte(b[1..], t - 8);
      HighBit(b[0], FromLe(b[1..]), t);
    }
  }

  lemma FromLeStep(b: seq<Octet>)
    requires b != []
    ensures FromLe(b) == b[0] + 256 * FromLe(b[1..])
  {}

  lemma ByteIndex(t: nat)
    ensures if t < 8 then t / 8 == 0 && t % 8 == t else (t - 8) / 8 == t / 8 - 1 && (t - 8) % 8 == t % 8
  {}
}
