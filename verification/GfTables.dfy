/** The exponent and logarithm tables, and the table-driven field operations. */
module GfTables {
  import opened Gf256

  /** Doubles x through the field, recording each power and its logarithm. */
  method FillPowers(exp: array<Byte>, log: array<nat>)
    requires exp.Length == 512 && log.Length == 256
    modifies exp, log
    ensures forall k | 0 <= k < 255 :: exp[k] == Exp(k)
    ensures forall k | 0 <= k < 255 :: log[Exp(k) as int] == k
  {
    hide Exp, Xtime, Widen;
    ExpStart();
    var x: bv16 := 1;
    for i := 0 to 255
      invariant x == Widen(Exp(i))
      invariant forall k | 0 <= k < i :: exp[k] == Exp(k)
      invariant forall k | 0 <= k < i :: log[Exp(k) as int] == k
    {
      forall k | 0 <= k < i ensures Exp(k) as int != Exp(i) as int {
        ExpInjective(k, i);
        ByteValues(Exp(k), Exp(i));
      }
      Narrow(Exp(i));
      exp[i] := x as Byte;
      log[x as int] := i;
      WideDouble(i);
      x := x << 1;
      if x & 0x100 != 0 {
        x := x ^ 0x11D;
      }
    }
  }

  /** The second copy of the powers, so that a product of two logarithms needs no modulo. */
  method RepeatPowers(exp: array<Byte>)
    requires exp.Length == 512
    requires forall k | 0 <= k < 255 :: exp[k] == Exp(k)
    modifies exp
    ensures forall k | 0 <= k < 512 :: exp[k] == Exp(k)
  {
    hide Exp, Xtime;
    for i := 255 to 512
      invariant forall k | 0 <= k < i :: exp[k] == Exp(k)
    {
      ExpPeriod(i - 255);
      exp[i] := exp[i - 255];
    }
  }

  class Tables {
    const exp: array<Byte>
    const log: array<nat>

    ghost predicate Valid()
      reads exp, log
    {
      && exp.Length == 512 && log.Length == 256
      && (forall i | 0 <= i < 512 :: exp[i] == Exp(i))
      && (forall i | 0 <= i < 255 :: log[Exp(i) as int] == i)
    }

    constructor ()
      ensures Valid() && fresh(exp) && fresh(log)
    {
      exp := new Byte[512];
      log := new nat[256];
      new;
      FillPowers(exp, log);
      RepeatPowers(exp);
    }

    lemma Logarithm(a: Byte)
      requires Valid() && a != 0
      ensures log[a as int] == Log(a)
    {
    }

    function GfMul(a: Byte, b: Byte): (r: Byte)
      requires Valid()
      reads exp, log
      ensures r == Mul(a, b)
    {
      if a == 0 || b == 0 then
        MulZero(a);
        MulZero(b);
        0
      else
        Logarithm(a);
        Logarithm(b);
        MulLog(a, b);
        exp[log[a as int] + log[b as int]]
    }

    function GfPow(a: Byte, e: nat): (r: Byte)
      requires Valid()
      reads exp, log
      ensures r == Pow(a, e)
    {
      if e == 0 then 1
      else if a == 0 then
        PowZero(e);
        0
      else
        Logarithm(a);
        PowExp(Log(a), e);
        ExpModulo(Log(a) * e);
        exp[(log[a as int] * e) % 255]
    }

    /** The multiplicative inverse; the source calls it on nonzero pivots only. */
    function GfInv(a: Byte): (r: Byte)
      requires Valid() && a != 0
      reads exp, log
      ensures Mul(a, r) == 1 == Mul(r, a)
    {
      Logarithm(a);
      ExpSum(Log(a), 255 - Log(a));
      Order();
      MulCommutes(a, Exp(255 - Log(a)));
      exp[255 - log[a as int]]
    }
  }

  lemma ExpStart()
    ensures Widen(Exp(0)) == 1
  {}

  lemma Narrow(a: Byte)
    ensures Widen(a) < 256 && Widen(a) as Byte == a && Widen(a) as int == a as int < 256
  {}

  lemma WideDouble(i: nat)
    ensures var x := Widen(Exp(i)) << 1;
            (if x & 0x100 != 0 then x ^ 0x11D else x) == Widen(Exp(i + 1))
  {
    var a := Exp(i);
    assert Exp(i + 1) == Xtime(a);
    hide Exp;
    if a & 0x80 != 0 {} else {}
  }
}
