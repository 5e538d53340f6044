/** The limb implementation of X25519: decoding, the ladder, inversion and encoding. */
module X25519 {
  import opened Field25519
  import Bytes = FieldBytes
  import Rfc = Rfc7748

  type Octet = Rfc.Octet

  /** A field element expressed as a power of z. */
  ghost predicate IsPower(f: Fe, z: int, e: nat) {
    Tight(f) && Field(f) == Rfc.Power(z, e)
  }

  method MulPower(f: Fe, g: Fe, ghost z: int, ghost a: nat, ghost b: nat) returns (h: Fe)
    requires IsPower(f, z, a) && IsPower(g, z, b)
    ensures IsPower(h, z, a + b)
  {
    hide Field, Times, Rfc.Power;
    Rfc.PowerSum(z, a, b);
    h := FeMul(f, g);
  }

  /** The exponent e after n squarings. */
  ghost function Doubled(e: nat, n: nat): nat {
    if n == 0 then e else 2 * Doubled(e, n - 1)
  }

  /** n squarings. */
  method FeSqN(f: Fe, n: nat, ghost z: int, ghost e: nat) returns (h: Fe)
    requires IsPower(f, z, e)
    ensures IsPower(h, z, Doubled(e, n))
  {
    hide IsPower;
    h := f;
    for i := 0 to n
      invariant IsPower(h, z, Doubled(e, i))
    {
      h := MulPower(h, h, z, Doubled(e, i), Doubled(e, i));
    }
  }

  /** All-ones exponents: 2^a - 1 doubled b times and topped up is 2^(a + b) - 1. */
  lemma {:induction false} OnesExtend(a: nat, b: nat)
    ensures Doubled(Rfc.Exp2(a) - 1, b) + (Rfc.Exp2(b) - 1) == Rfc.Exp2(a + b) - 1
  {
    if b > 0 {
      OnesExtend(a, b - 1);
    }
  }

  method Extend(f: Fe, a: nat, g: Fe, b: nat, ghost z: int) returns (h: Fe)
    requires IsPower(f, z, Rfc.Exp2(a) - 1) && IsPower(g, z, Rfc.Exp2(b) - 1)
    ensures IsPower(h, z, Rfc.Exp2(a + b) - 1)
  {
    hide IsPower;
    OnesExtend(a, b);
    var s := FeSqN(f, b, z, Rfc.Exp2(a) - 1);
    h := MulPower(s, g, z, Doubled(Rfc.Exp2(a) - 1, b), Rfc.Exp2(b) - 1);
  }

  lemma FirstPower(f: Fe)
    requires Tight(f)
    ensures IsPower(f, Field(f), 1)
  {
    hide Field, Times;
    Rfc.TimesOne(Field(f));
    assert Rfc.Power(Field(f), 1) == Times(Rfc.Power(Field(f), 0), Field(f));
  }

  /** Inversion is exponentiation by p - 2, along the addition chain through 2^250 - 1. */
  method FeInv(z: Fe) returns (h: Fe)
    requires Tight(z)
    ensures Tight(h) && Field(h) == Rfc.Power(Field(z), P - 2)
  {
    ghost var x := Field(z);
    SmallExponents();
    FirstPower(z);
    var z250, z11 := PowerChain(z, x);
    var s := FeSqN(z250, 5, x, Rfc.Exp2(250) - 1);
    h := MulPower(s, z11, x, Doubled(Rfc.Exp2(250) - 1, 5), 11);
  }

  method PowerChain(z: Fe, ghost x: int) returns (z250: Fe, z11: Fe)
    requires IsPower(z, x, 1)
    ensures IsPower(z250, x, Rfc.Exp2(250) - 1) && IsPower(z11, x, 11)
  {
    hide IsPower, Doubled, Rfc.Exp2;
    SmallExponents();
    var z2 := MulPower(z, z, x, 1, 1);
    var z8 := FeSqN(z2, 2, x, 2);
    var z9 := MulPower(z, z8, x, 1, 8);
    z11 := MulPower(z2, z9, x, 2, 9);
    var z22 := MulPower(z11, z11, x, 11, 11);
    var z5 := MulPower(z9, z22, x, 9, 22);
    var z10 := Extend(z5, 5, z5, 5, x);
    var z20 := Extend(z10, 10, z10, 10, x);
    var z40 := Extend(z20, 20, z20, 20, x);
    var z50 := Extend(z40, 40, z10, 10, x);
    var z100 := Extend(z50, 50, z50, 50, x);
    var z200 := Extend(z100, 100, z100, 100, x);
    z250 := Extend(z200, 200, z50, 50, x);
  }

  lemma SmallExponents()
    ensures Rfc.Exp2(5) == 32 && Doubled(2, 2) == 8
    ensures Rfc.Exp2(250) > 0 && Doubled(Rfc.Exp2(250) - 1, 5) + 11 == P - 2
  {
    Rfc.SmallPowersOfTwo();
    assert Doubled(2, 1) == 4;
    var e := Rfc.Exp2(250) - 1;
    assert Doubled(e, 2) == 4 * e;
    assert Doubled(e, 4) == 16 * e;
    TopPower();
  }

  lemma TopPower()
    ensures 32 * Rfc.Exp2(250) - 21 == P - 2
  {
    Rfc.SmallPowersOfTwo();
    Rfc.Exp2Sum(8, 8);
    Rfc.Exp2Sum(16, 16);
    Rfc.Exp2Sum(32, 32);
    Rfc.Exp2Sum(64, 64);
    Rfc.Exp2Sum(128, 64);
    Rfc.Exp2Sum(192, 32);
    Rfc.Exp2Sum(224, 16);
    Rfc.Exp2Sum(240, 8);
    Rfc.Exp2Sum(248, 2);
  }

  // ----- The ladder -----

  /** XOR with the difference masked by 0 - 1 or 0 - 0 is the conditional swap, bit pattern by bit pattern. */
  lemma MaskedSwap(f: bv64, g: bv64)
    ensures f ^ ((0 - 1) & (f ^ g)) == g && g ^ ((0 - 1) & (f ^ g)) == f
    ensures f ^ ((0 - 0) & (f ^ g)) == f && g ^ ((0 - 0) & (f ^ g)) == g
  {}

  function FeCswap(f: Fe, g: Fe, swap: bool): (Fe, Fe) {
    if swap then (g, f) else (f, g)
  }

  ghost function State(x2: Fe, z2: Fe, x3: Fe, z3: Fe): Rfc.Ladder {
    Rfc.Ladder(Field(x2), Field(z2), Field(x3), Field(z3))
  }

  /** One ladder step on swapped operands. */
  method Step(x1: Fe, x2: Fe, z2: Fe, x3: Fe, z3: Fe) returns (y2: Fe, w2: Fe, y3: Fe, w3: Fe)
    requires Tight(x1) && Tight(x2) && Tight(z2) && Tight(x3) && Tight(z3)
    ensures Tight(y2) && Tight(w2) && Tight(y3) && Tight(w3)
    ensures State(y2, w2, y3, w3) == Rfc.StepOf(State(x2, z2, x3, z3), Field(x1))
  {
    hide Tight, Field, Loose, FeAdd, FeSub, Plus, Minus, Times, Value;
    AddField(x2, z2);
    var a := FeAdd(x2, z2);
    var aa := FeSq(a);
    SubField(x2, z2);
    var b := FeSub(x2, z2);
    var bb := FeSq(b);
    SubField(aa, bb);
    var e2 := FeSub(aa, bb);
    AddField(x3, z3);
    var c := FeAdd(x3, z3);
    SubField(x3, z3);
    var d := FeSub(x3, z3);
    var da := FeMul(d, a);
    var cb := FeMul(c, b);
    AddField(da, cb);
    var sum := FeAdd(da, cb);
    SubField(da, cb);
    var diff := FeSub(da, cb);
    y3 := FeSq(sum);
    var square := FeSq(diff);
    TightIsLoose(x1);
    TightIsLoose(square);
    w3 := FeMul(x1, square);
    TightIsLoose(aa);
    TightIsLoose(bb);
    y2 := FeMul(aa, bb);
    var scaled := FeMulScalar(e2, 121665);
    AddField(aa, scaled);
    w2 := FeMul(e2, FeAdd(aa, scaled));
  }

  lemma TightIsLoose(f: Fe)
    requires Tight(f)
    ensures Loose(f)
  {}

  // ----- The whole function -----

  /** The masks of the scalar clamp, as arithmetic. */
  lemma ClampBits(b: bv8)
    ensures b & 248 == b - b % 8 && (b & 127) | 64 == b % 64 + 64
  {}

  /** The difference of two bits decides whether the ladder's operands are swapped before a step. */
  method SwapAndStep(x1: Fe, x2: Fe, z2: Fe, x3: Fe, z3: Fe, swap: bool) returns (y2: Fe, w2: Fe, y3: Fe, w3: Fe)
    requires Tight(x1) && Tight(x2) && Tight(z2) && Tight(x3) && Tight(z3)
    ensures Tight(y2) && Tight(w2) && Tight(y3) && Tight(w3)
    ensures State(y2, w2, y3, w3) == Rfc.StepOf(Rfc.Swapped(State(x2, z2, x3, z3), swap), Field(x1))
  {
    hide Tight, Field, Rfc.StepOf;
    var (a2, a3) := FeCswap(x2, x3, swap);
    var (c2, c3) := FeCswap(z2, z3, swap);
    y2, w2, y3, w3 := Step(x1, a2, c2, a3, c3);
  }

  /** (e[t / 8] >> (t % 8)) & 1. */
  method ScalarBit(e: seq<Octet>, t: nat) returns (bit: bool)
    requires t / 8 < |e|
    ensures bit == (Rfc.Bit(Rfc.FromLe(e), t) == 1)
  {
    hide Rfc.Bit, Rfc.FromLe, Rfc.Exp2;
    Rfc.BitOfByte(e, t);
    bit := (e[t / 8] / Rfc.Exp2(t % 8)) % 2 == 1;
  }

  /** The ladder over the bits 254 down to 0 of the clamped scalar e. */
  method Ladder(e: seq<Octet>, x1: Fe) returns (x2: Fe, z2: Fe)
    requires |e| == 32 && Tight(x1)
    ensures Tight(x2) && Tight(z2)
    ensures var (l, swap) := Rfc.Climb(Rfc.FromLe(e), Field(x1), 0);
      Field(x2) == Rfc.Swapped(l, swap).x2 && Field(z2) == Rfc.Swapped(l, swap).z2
  {
    hide Rfc.StepOf, Rfc.FromLe, Rfc.Bit, Rfc.Climb, Rfc.Swapped, Rfc.Start, State, Tight, Field, FeCswap;
    ghost var k := Rfc.FromLe(e);
    x2, z2 := Fe(1, 0, 0, 0, 0), Fe(0, 0, 0, 0, 0);
    var x3, z3 := x1, Fe(1, 0, 0, 0, 0);
    var swap := false;
    StartState(x1);
    Rfc.ClimbStart(k, Field(x1));
    for t := 255 downto 0
      invariant Tight(x2) && Tight(z2) && Tight(x3) && Tight(z3)
      invariant (State(x2, z2, x3, z3), swap) == Rfc.Climb(k, Field(x1), t)
    {
      Rfc.ClimbStep(k, Field(x1), t);
      var kt := ScalarBit(e, t);
      swap := swap != kt;
      x2, z2, x3, z3 := SwapAndStep(x1, x2, z2, x3, z3, swap);
      swap := kt;
    }
    Unswapped(x2, z2, x3, z3, swap);
    x2, z2 := FeCswap(x2, x3, swap).0, FeCswap(z2, z3, swap).0;
  }

  lemma Unswapped(x2: Fe, z2: Fe, x3: Fe, z3: Fe, swap: bool)
    requires Tight(x2) && Tight(z2) && Tight(x3) && Tight(z3)
    ensures var a, c := FeCswap(x2, x3, swap).0, FeCswap(z2, z3, swap).0;
      Tight(a) && Tight(c) && Field(a) == Rfc.Swapped(State(x2, z2, x3, z3), swap).x2
      && Field(c) == Rfc.Swapped(State(x2, z2, x3, z3), swap).z2
  {}

  lemma StartState(x1: Fe)
    requires Tight(x1)
    ensures Tight(Fe(1, 0, 0, 0, 0)) && Tight(Fe(0, 0, 0, 0, 0))
    ensures State(Fe(1, 0, 0, 0, 0), Fe(0, 0, 0, 0, 0), x1, Fe(1, 0, 0, 0, 0)) == Rfc.Start(Field(x1))
  {
    assert Value(Fe(1, 0, 0, 0, 0)) == 1 && Value(Fe(0, 0, 0, 0, 0)) == 0;
  }

  /** The implementation computes the function of RFC 7748 and reports whether the shared secret is nonzero. */
  method Run(privateKey: seq<Octet>, peer: seq<Octet>) returns (out: seq<Octet>, ok: bool)
    requires |privateKey| == 32 && |peer| == 32
    ensures out == Rfc.ToLe(Rfc.X25519(privateKey, peer), 32)
    ensures ok <==> Rfc.X25519(privateKey, peer) != 0
  {
    hide Tight, Field, Rfc.Climb, Rfc.StepOf, Rfc.FromLe, Rfc.ToLe, Bytes.FeFromBytes, Times, Rfc.Power, Rfc.Exp2;
    var e := Rfc.Clamped(privateKey);
    var x1 := Bytes.FeFromBytes(peer);
    DecodedPeer(peer);
    var x2, z2 := Ladder(e, x1);
    var inverse := FeInv(z2);
    TightIsLoose(x2);
    TightIsLoose(inverse);
    var result := FeMul(x2, inverse);
    TightIsLoose(result);
    out := Bytes.FeToBytes(result);
    ok := AnySet(out);
    ResultBelow(privateKey, peer);
    ZeroBytes(Rfc.X25519(privateKey, peer), 32);
  }

  lemma ResultBelow(k: seq<Octet>, u: seq<Octet>)
    requires |k| == 32 && |u| == 32
    ensures 0 <= Rfc.X25519(k, u) < P < Rfc.Exp2(8 * 32)
  {
    hide Rfc.Climb, Rfc.Power, Rfc.Exp2, Rfc.DecodeScalar, Rfc.DecodeU;
    Bytes.LimbPowers();
    Rfc.SmallPowersOfTwo();
    Rfc.Exp2Sum(255, 1);
  }

  lemma DecodedPeer(peer: seq<Octet>)
    requires |peer| == 32
    ensures Tight(Bytes.FeFromBytes(peer)) && Field(Bytes.FeFromBytes(peer)) == Rfc.DecodeU(peer)
  {
    Bytes.DecodedValue(peer);
  }

  /** The low-order check: ORs all bytes together. */
  method AnySet(s: seq<Octet>) returns (found: bool)
    ensures found <==> !AllZero(s)
  {
    found := false;
    for i := 0 to |s|
      invariant found <==> !AllZero(s[..i])
    {
      assert s[..i + 1] == s[..i] + [s[i]];
      found := found || s[i] != 0;
    }
    assert s[..|s|] == s;
  }

  /** An encoded integer is zero exactly if all its bytes are. */
  lemma {:induction false} ZeroBytes(v: int, n: nat)
    requires 0 <= v < Rfc.Exp2(8 * n)
    ensures v == 0 <==> AllZero(Rfc.ToLe(v, n))
  {
    if n > 0 {
      Bytes.Exp2Step(n);
      ZeroBytes(v / 256, n - 1);
      var s, rest := Rfc.ToLe(v, n), Rfc.ToLe(v / 256, n - 1);
      assert s == [v % 256] + rest;
      assert AllZero(s) <==> s[0] == 0 && AllZero(rest) by { assert rest == s[1..]; }
    }
  }

  predicate AllZero(s: seq<Octet>) {
    forall i :: 0 <= i < |s| ==> s[i] == 0
  }
}
