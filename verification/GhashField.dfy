/**
 * The field of 128-bit blocks as section 6.3 of NIST SP 800-38D defines it on bit strings: bit i stands for x^i and
 * products are reduced by x^128 + x^7 + x^2 + x + 1.
 */
module GhashField {

  type Bits = v: seq<bool> | |v| == 128 witness seq(128, _ => false)

  function Zero(): Bits {
    seq(128, _ => false)
  }

  function Xor(a: Bits, b: Bits): (r: Bits) {
    seq(128, i requires 0 <= i < 128 => a[i] != b[i])
  }

  /** The bits of x^7 + x^2 + x + 1. */
  predicate Reduction(i: int) {
    i == 0 || i == 1 || i == 2 || i == 7
  }

  /** One step to the right; a bit that falls out comes back as the reduction. */
  function TimesX(v: Bits): Bits {
    seq(128, i requires 0 <= i < 128 => (i > 0 && v[i - 1]) != (v[127] && Reduction(i)))
  }

  function Power(v: Bits, n: nat): Bits {
    if n == 0 then v else TimesX(Power(v, n - 1))
  }

  function Pick(b: bool, v: Bits): Bits {
    if b then v else Zero()
  }

  /** The sum of y times x^i over the first n bits i set in x. */
  function Partial(x: Bits, y: Bits, n: nat): Bits
    requires n <= 128
  {
    if n == 0 then Zero() else Xor(Partial(x, y, n - 1), Pick(x[n - 1], Power(y, n - 1)))
  }

  function Mul(x: Bits, y: Bits): Bits {
    Partial(x, y, 128)
  }

  lemma PartialStep(x: Bits, y: Bits, n: nat)
    requires n < 128
    ensures Partial(x, y, 0) == Zero() && Power(y, 0) == y && Power(y, n + 1) == TimesX(Power(y, n))
    ensures Partial(x, y, n + 1) == if x[n] then Xor(Partial(x, y, n), Power(y, n)) else Partial(x, y, n)
  {
    hide Power, Zero;
    XorZero(Partial(x, y, n));
    assert Power(y, 0) == y && Power(y, n + 1) == TimesX(Power(y, n)) by { PowerStep(y, n); }
  }

  lemma PowerStep(y: Bits, n: nat)
    ensures Power(y, 0) == y && Power(y, n + 1) == TimesX(Power(y, n))
  {}

  /** The block standing for x^i. */
  function Unit(i: nat): Bits
    requires i < 128
  {
    seq(128, j => j == i)
  }

  // ----- Sums -----

  lemma XorZero(a: Bits)
    ensures Xor(a, Zero()) == a == Xor(Zero(), a)
  {}

  lemma XorSelf(a: Bits)
    ensures Xor(a, a) == Zero()
  {}

  lemma Interchange(a: Bits, b: Bits, c: Bits, d: Bits)
    ensures Xor(Xor(a, b), Xor(c, d)) == Xor(Xor(a, c), Xor(b, d))
  {}

  // ----- Linearity -----

  lemma TimesXLinear(a: Bits, b: Bits)
    ensures TimesX(Xor(a, b)) == Xor(TimesX(a), TimesX(b))
  {}

  lemma TimesXZero()
    ensures TimesX(Zero()) == Zero()
  {}

  lemma {:induction false} PowerLinear(a: Bits, b: Bits, n: nat)
    ensures Power(Xor(a, b), n) == Xor(Power(a, n), Power(b, n))
  {
    hide Xor, TimesX;
    if n > 0 {
      PowerLinear(a, b, n - 1);
      TimesXLinear(Power(a, n - 1), Power(b, n - 1));
    }
  }

  lemma {:induction false} PowerSum(v: Bits, m: nat, n: nat)
    ensures Power(Power(v, m), n) == Power(v, m + n)
  {
    hide TimesX;
    if n > 0 {
      PowerSum(v, m, n - 1);
    }
  }

  lemma PickXor(b: bool, v: Bits, w: Bits)
    ensures Pick(b, Xor(v, w)) == Xor(Pick(b, v), Pick(b, w))
  {
    XorZero(Zero());
  }

  lemma PickBits(a: bool, b: bool, v: Bits)
    ensures Pick(a != b, v) == Xor(Pick(a, v), Pick(b, v))
  {
    XorZero(v);
    XorSelf(v);
    XorSelf(Zero());
  }

  lemma {:induction false} PartialRight(x: Bits, y: Bits, z: Bits, n: nat)
    requires n <= 128
    ensures Partial(x, Xor(y, z), n) == Xor(Partial(x, y, n), Partial(x, z, n))
  {
    hide Xor, Power, Pick, Zero;
    XorZero(Zero());
    if n > 0 {
      PartialRight(x, y, z, n - 1);
      PowerLinear(y, z, n - 1);
      var p, q := Power(y, n - 1), Power(z, n - 1);
      PickXor(x[n - 1], p, q);
      Interchange(Partial(x, y, n - 1), Partial(x, z, n - 1), Pick(x[n - 1], p), Pick(x[n - 1], q));
    }
  }

  lemma XorAt(x: Bits, y: Bits, i: nat)
    requires i < 128
    ensures Xor(x, y)[i] == (x[i] != y[i])
  {}

  lemma {:induction false} PartialLeft(x: Bits, y: Bits, z: Bits, n: nat)
    requires n <= 128
    ensures Partial(Xor(x, y), z, n) == Xor(Partial(x, z, n), Partial(y, z, n))
  {
    hide Xor, Power, Pick, Zero;
    XorZero(Zero());
    if n > 0 {
      PartialLeft(x, y, z, n - 1);
      var p := Power(z, n - 1);
      XorAt(x, y, n - 1);
      PickBits(x[n - 1], y[n - 1], p);
      Interchange(Partial(x, z, n - 1), Partial(y, z, n - 1), Pick(x[n - 1], p), Pick(y[n - 1], p));
    }
  }

  /** Multiplication distributes over addition on both sides. */
  lemma MulDistributes(x: Bits, y: Bits, z: Bits)
    ensures Mul(x, Xor(y, z)) == Xor(Mul(x, y), Mul(x, z))
    ensures Mul(Xor(x, y), z) == Xor(Mul(x, z), Mul(y, z))
  {
    hide Xor, Partial;
    PartialRight(x, y, z, 128);
    PartialLeft(x, y, z, 128);
  }

  lemma MulZero(x: Bits)
    ensures Mul(Zero(), x) == Zero() == Mul(x, Zero())
  {
    hide Xor, Mul, Zero;
    XorSelf(Zero());
    MulDistributes(Zero(), Zero(), x);
    MulDistributes(x, Zero(), Zero());
    XorSelf(Mul(Zero(), x));
    XorSelf(Mul(x, Zero()));
  }

  lemma MulPick(b: bool, x: Bits, y: Bits)
    ensures Mul(Pick(b, x), y) == Pick(b, Mul(x, y)) && Mul(y, Pick(b, x)) == Pick(b, Mul(y, x))
  {
    hide Mul, Zero;
    MulZero(y);
  }

  lemma {:induction false} PartialTimesX(x: Bits, y: Bits, n: nat)
    requires n <= 128
    ensures Partial(x, TimesX(y), n) == TimesX(Partial(x, y, n))
  {
    hide Xor, TimesX, Zero;
    TimesXZero();
    if n > 0 {
      PartialTimesX(x, y, n - 1);
      PowerSum(y, 1, n - 1);
      assert Power(y, 1) == TimesX(Power(y, 0));
      TimesXLinear(Partial(x, y, n - 1), Pick(x[n - 1], Power(y, n - 1)));
    }
  }

  lemma {:induction false} MulPower(x: Bits, y: Bits, n: nat)
    ensures Mul(x, Power(y, n)) == Power(Mul(x, y), n)
  {
    hide TimesX, Partial;
    if n > 0 {
      MulPower(x, y, n - 1);
      PartialTimesX(x, Power(y, n - 1), 128);
    }
  }

  // ----- Powers of x -----

  lemma {:induction false} UnitPower(i: nat)
    requires i < 128
    ensures Power(Unit(0), i) == Unit(i)
  {
    if i > 0 {
      UnitPower(i - 1);
      UnitStep(i - 1);
    }
  }

  lemma UnitStep(i: nat)
    requires i < 127
    ensures TimesX(Unit(i)) == Unit(i + 1)
  {}

  /** x^128 reduces to x^7 + x^2 + x + 1. */
  lemma TopReduces()
    ensures Power(Unit(0), 128) == seq(128, i => Reduction(i))
  {
    UnitPower(127);
    assert Power(Unit(0), 128) == TimesX(Power(Unit(0), 127));
  }

  lemma {:induction false} UnitPartial(i: nat, y: Bits, n: nat)
    requires i < 128 && n <= 128
    ensures Partial(Unit(i), y, n) == if i < n then Power(y, i) else Zero()
  {
    hide Xor, Power, Zero;
    XorZero(Zero());
    if n > 0 {
      UnitPartial(i, y, n - 1);
      XorZero(Power(y, n - 1));
      XorZero(Power(y, i));
    }
  }

  /** The unit of the field, and multiplication by a power of x. */
  lemma MulUnit(i: nat, y: Bits)
    requires i < 128
    ensures Mul(Unit(i), y) == Power(y, i)
  {
    hide Partial, Power, Unit;
    UnitPartial(i, y, 128);
  }

  lemma UnitsCommute(i: nat, j: nat)
    requires i < 128 && j < 128
    ensures Mul(Unit(i), Unit(j)) == Mul(Unit(j), Unit(i))
  {
    hide Mul, Power, Unit;
    MulUnit(i, Unit(j));
    MulUnit(j, Unit(i));
    UnitPower(i);
    UnitPower(j);
    PowerSum(Unit(0), i, j);
    PowerSum(Unit(0), j, i);
  }

  /** The first n bits of x. */
  function Prefix(x: Bits, n: nat): Bits {
    seq(128, i requires 0 <= i < 128 => i < n && x[i])
  }

  lemma PrefixStep(x: Bits, n: nat)
    requires n < 128
    ensures Prefix(x, n + 1) == Xor(Prefix(x, n), Pick(x[n], Unit(n)))
  {}

  lemma PrefixEnds(x: Bits)
    ensures Prefix(x, 0) == Zero() && Prefix(x, 128) == x
  {}

  lemma {:induction false} UnitCommutes(i: nat, y: Bits, n: nat)
    requires i < 128 && n <= 128
    ensures Mul(Unit(i), Prefix(y, n)) == Mul(Prefix(y, n), Unit(i))
  {
    hide Mul, Prefix, Unit, Xor, Zero, Pick;
    PrefixEnds(y);
    MulZero(Unit(i));
    if n > 0 {
      UnitCommutes(i, y, n - 1);
      PrefixStep(y, n - 1);
      var p, q := Prefix(y, n - 1), Pick(y[n - 1], Unit(n - 1));
      MulDistributes(Unit(i), p, q);
      MulDistributes(p, q, Unit(i));
      MulPick(y[n - 1], Unit(n - 1), Unit(i));
      UnitsCommute(i, n - 1);
    }
  }

  lemma {:induction false} PrefixCommutes(x: Bits, y: Bits, n: nat)
    requires n <= 128
    ensures Mul(Prefix(x, n), y) == Mul(y, Prefix(x, n))
  {
    hide Mul, Prefix, Unit, Xor, Zero, Pick;
    PrefixEnds(x);
    PrefixEnds(y);
    MulZero(y);
    if n > 0 {
      PrefixCommutes(x, y, n - 1);
      PrefixStep(x, n - 1);
      var p, q := Prefix(x, n - 1), Pick(x[n - 1], Unit(n - 1));
      MulDistributes(y, p, q);
      MulDistributes(p, q, y);
      MulPick(x[n - 1], Unit(n - 1), y);
      UnitCommutes(n - 1, y, 128);
    }
  }

  lemma MulCommutes(x: Bits, y: Bits)
    ensures Mul(x, y) == Mul(y, x)
  {
    hide Mul, Prefix;
    PrefixEnds(x);
    PrefixCommutes(x, y, 128);
  }

  lemma {:induction false} PrefixAssociates(x: Bits, y: Bits, z: Bits, n: nat)
    requires n <= 128
    ensures Mul(Mul(Prefix(x, n), y), z) == Mul(Prefix(x, n), Mul(y, z))
  {
    hide Mul, Prefix, Unit, Xor, Zero, Pick;
    PrefixEnds(x);
    MulZero(y);
    MulZero(z);
    MulZero(Mul(y, z));
    if n > 0 {
      PrefixAssociates(x, y, z, n - 1);
      PrefixStep(x, n - 1);
      var p, q := Prefix(x, n - 1), Pick(x[n - 1], Unit(n - 1));
      MulDistributes(p, q, y);
      MulDistributes(Mul(p, y), Mul(q, y), z);
      MulDistributes(p, q, Mul(y, z));
      MulPick(x[n - 1], Unit(n - 1), y);
      MulPick(x[n - 1], Mul(Unit(n - 1), y), z);
      MulPick(x[n - 1], Unit(n - 1), Mul(y, z));
      UnitAssociates(n - 1, y, z);
    }
  }

  lemma UnitAssociates(i: nat, y: Bits, z: Bits)
    requires i < 128
    ensures Mul(Mul(Unit(i), y), z) == Mul(Unit(i), Mul(y, z))
  {
    hide Mul, Unit, Power;
    MulUnit(i, y);
    MulCommutes(Power(y, i), z);
    MulPower(z, y, i);
    MulCommutes(z, y);
    MulUnit(i, Mul(y, z));
  }

  lemma MulAssociates(x: Bits, y: Bits, z: Bits)
    ensures Mul(Mul(x, y), z) == Mul(x, Mul(y, z))
  {
    hide Mul, Prefix;
    PrefixEnds(x);
    PrefixAssociates(x, y, z, 128);
  }
}
