/**
 * The field of integers modulo 2^255 - 19 in five 51-bit limbs, as section 5 of RFC 7748 needs it. Machine words are
 * bounded types, so every operation below is also shown to stay within 64 or 128 bits and never to underflow.
 */
module Field25519 {

  newtype u64 = x: int | 0 <= x < 0x1_0000_0000_0000_0000
  newtype u128 = x: int | 0 <= x < 0x1_0000_0000_0000_0000_0000_0000_0000_0000

  const P: int := 0x7fffffffffffffffffffffffffffffffffffffffffffffffffffffffffffffed

  const LIMB: int := 0x8000000000000

  datatype Fe = Fe(l0: u64, l1: u64, l2: u64, l3: u64, l4: u64)

  function Weigh(a0: int, a1: int, a2: int, a3: int, a4: int): int {
    a0 + 0x8000000000000 * a1 + 0x40000000000000000000000000 * a2 + 0x200000000000000000000000000000000000000 * a3
      + 0x1000000000000000000000000000000000000000000000000000 * a4
  }

  /** The number the limbs stand for, not reduced. */
  function Value(f: Fe): (r: int)
    ensures r >= 0
  {
    Weigh(f.l0 as int, f.l1 as int, f.l2 as int, f.l3 as int, f.l4 as int)
  }

  /** The field element the limbs stand for. */
  function Field(f: Fe): (r: int)
    ensures 0 <= r < P
  {
    Value(f) % P
  }

  function Plus(a: int, b: int): int {
    (a + b) % P
  }

  function Minus(a: int, b: int): int {
    (a - b) % P
  }

  function Times(a: int, b: int): int {
    (a * b) % P
  }

  predicate Below(f: Fe, bound: int) {
    f.l0 as int < bound && f.l1 as int < bound && f.l2 as int < bound && f.l3 as int < bound && f.l4 as int < bound
  }

  /** What multiplication yields: limbs just above 51 bits. */
  predicate Tight(f: Fe) {
    Below(f, LIMB + 0x4000)
  }

  /** What multiplication accepts. */
  predicate Loose(f: Fe) {
    Below(f, 0x40000000000000)
  }

  // ----- Arithmetic modulo P -----

  lemma ModShift(a: int, k: int)
    ensures (a + P * k) % P == a % P
  {}

  lemma ModProduct(a: int, b: int)
    ensures (a * b) % P == ((a % P) * (b % P)) % P
  {
    var i, j := a / P, b / P;
    var u, v := a % P, b % P;
    assert a == u + P * i && b == v + P * j;
    assert a * b == u * v + P * (u * j + i * v + P * i * j) by {
      Expand(u, i, v, j);
    }
    ModShift(u * v, u * j + i * v + P * i * j);
  }

  lemma Expand(u: int, i: int, v: int, j: int)
    ensures (u + P * i) * (v + P * j) == u * v + P * (u * j + i * v + P * i * j)
  {}

  lemma ModProductRight(x: int, y: int)
    ensures (x * (y % P)) % P == (x * y) % P
  {
    ModProduct(x, y);
    ModProduct(x, y % P);
    assert (y % P) % P == y % P;
  }

  lemma ModProductLeft(x: int, y: int)
    ensures ((x % P) * y) % P == (x * y) % P
  {
    ModProduct(x, y);
    ModProduct(x % P, y);
    assert (x % P) % P == x % P;
  }

  lemma ModSum(a: int, b: int)
    ensures (a + b) % P == ((a % P) + (b % P)) % P
    ensures (a - b) % P == ((a % P) - (b % P)) % P
  {
    ModShift((a % P) + (b % P), a / P + b / P);
    ModShift((a % P) - (b % P), a / P - b / P);
  }

  // ----- Addition and subtraction -----

  function FeAdd(f: Fe, g: Fe): (h: Fe)
    requires Tight(f) && Tight(g)
    ensures Loose(h) && Value(h) == Value(f) + Value(g)
  {
    Fe(f.l0 + g.l0, f.l1 + g.l1, f.l2 + g.l2, f.l3 + g.l3, f.l4 + g.l4)
  }

  /** Adds 2p before subtracting, so that no limb underflows. */
  function FeSub(f: Fe, g: Fe): (h: Fe)
    requires Tight(f) && Tight(g)
    ensures Loose(h) && Value(h) == Value(f) - Value(g) + 2 * P
  {
    Fe(f.l0 + 0xFFFFFFFFFFFDA - g.l0, f.l1 + 0xFFFFFFFFFFFFE - g.l1, f.l2 + 0xFFFFFFFFFFFFE - g.l2,
       f.l3 + 0xFFFFFFFFFFFFE - g.l3, f.l4 + 0xFFFFFFFFFFFFE - g.l4)
  }

  lemma AddField(f: Fe, g: Fe)
    requires Tight(f) && Tight(g)
    ensures Field(FeAdd(f, g)) == Plus(Field(f), Field(g))
  {
    hide Value, FeAdd, Tight;
    ModSum(Value(f), Value(g));
  }

  lemma SubField(f: Fe, g: Fe)
    requires Tight(f) && Tight(g)
    ensures Field(FeSub(f, g)) == Minus(Field(f), Field(g))
  {
    hide Value, FeSub, Tight;
    ModSum(Value(f), Value(g));
    ModShift(Value(f) - Value(g), 2);
  }

  // ----- Multiplication -----

  lemma ProductAtMost(x: int, y: int, a: int, b: int)
    requires 0 <= x <= a && 0 <= y <= b
    ensures 0 <= x * y <= a * b
  {
    assert (a - x) * y >= 0 && a * (b - y) >= 0;
  }

  /** The schoolbook product with the upper half folded back by 2^255 = 19 (mod P). */
  lemma FoldedProduct(f0: int, f1: int, f2: int, f3: int, f4: int, g0: int, g1: int, g2: int, g3: int, g4: int)
    ensures (Weigh(f0, f1, f2, f3, f4) * Weigh(g0, g1, g2, g3, g4)) % P
         == Weigh((f0 * g0 + 19 * (f1 * g4 + f2 * g3 + f3 * g2 + f4 * g1)),
                  (f0 * g1 + f1 * g0 + 19 * (f2 * g4 + f3 * g3 + f4 * g2)),
                  (f0 * g2 + f1 * g1 + f2 * g0 + 19 * (f3 * g4 + f4 * g3)),
                  (f0 * g3 + f1 * g2 + f2 * g1 + f3 * g0 + 19 * (f4 * g4)),
                  (f0 * g4 + f1 * g3 + f2 * g2 + f3 * g1 + f4 * g0)) % P
  {
    var r0 := f0 * g0 + 19 * (f1 * g4 + f2 * g3 + f3 * g2 + f4 * g1);
    var r1 := f0 * g1 + f1 * g0 + 19 * (f2 * g4 + f3 * g3 + f4 * g2);
    var r2 := f0 * g2 + f1 * g1 + f2 * g0 + 19 * (f3 * g4 + f4 * g3);
    var r3 := f0 * g3 + f1 * g2 + f2 * g1 + f3 * g0 + 19 * (f4 * g4);
    var r4 := f0 * g4 + f1 * g3 + f2 * g2 + f3 * g1 + f4 * g0;
    var q := Weigh(f1 * g4 + f2 * g3 + f3 * g2 + f4 * g1, f2 * g4 + f3 * g3 + f4 * g2, f3 * g4 + f4 * g3, f4 * g4, 0);
    var g := Weigh(g0, g1, g2, g3, g4);
    Distribute(f0, f1, f2, f3, f4, g);
    DistributeOver(f0, g0, g1, g2, g3, g4);
    DistributeOver(f1, g0, g1, g2, g3, g4);
    DistributeOver(f2, g0, g1, g2, g3, g4);
    DistributeOver(f3, g0, g1, g2, g3, g4);
    DistributeOver(f4, g0, g1, g2, g3, g4);
    ModShift(Weigh(r0, r1, r2, r3, r4), q);
  }

  lemma Distribute(x0: int, x1: int, x2: int, x3: int, x4: int, y: int)
    ensures Weigh(x0, x1, x2, x3, x4) * y == Weigh(x0 * y, x1 * y, x2 * y, x3 * y, x4 * y)
  {}

  lemma DistributeOver(x: int, y0: int, y1: int, y2: int, y3: int, y4: int)
    ensures x * Weigh(y0, y1, y2, y3, y4) == Weigh(x * y0, x * y1, x * y2, x * y3, x * y4)
  {}

  /** The carry out of a limb: what lies above its low 51 bits. */
  function High(r: u128): (c: u64)
    requires r < 0x80000000000000000000000000000
    ensures r as int == LIMB * c as int + (r % 0x8000000000000) as int
  {
    (r / 0x8000000000000) as u64
  }

  /** One pass of carries from each limb into the next; c is what leaves the last. */
  method CarryChain(r0: u128, r1: u128, r2: u128, r3: u128, r4: u128)
    returns (s0: u128, s1: u128, s2: u128, s3: u128, s4: u128, c: u64)
    requires r0 < 0x4e000000000000000000000000000 && r1 < 0x4e000000000000000000000000000
    requires r2 < 0x4e000000000000000000000000000
    requires r3 < 0x4e000000000000000000000000000 && r4 < 0x5000000000000000000000000000
    ensures s0 < 0x8000000000000 && s1 < 0x8000000000000 && s2 < 0x8000000000000
    ensures s3 < 0x8000000000000 && s4 < 0x8000000000000 && c < 0xa00000000004000
    ensures Weigh(r0 as int, r1 as int, r2 as int, r3 as int, r4 as int)
         == Weigh(s0 as int, s1 as int, s2 as int, s3 as int, s4 as int) + (P + 19) * c as int
  {
    s0, s1, s2, s3, s4 := r0, r1, r2, r3, r4;
    c := High(s0);
    s0 := s0 % 0x8000000000000;
    s1 := s1 + c as u128;
    c := High(s1);
    s1 := s1 % 0x8000000000000;
    s2 := s2 + c as u128;
    c := High(s2);
    s2 := s2 % 0x8000000000000;
    s3 := s3 + c as u128;
    c := High(s3);
    s3 := s3 % 0x8000000000000;
    s4 := s4 + c as u128;
    c := High(s4);
    s4 := s4 % 0x8000000000000;
  }

  /** Carries every limb into the next, the last one folded back to the first times 19, then the first once more. */
  method Carry(r0: u128, r1: u128, r2: u128, r3: u128, r4: u128) returns (h: Fe)
    requires r0 < 0x4e000000000000000000000000000 && r1 < 0x4e000000000000000000000000000
    requires r2 < 0x4e000000000000000000000000000
    requires r3 < 0x4e000000000000000000000000000 && r4 < 0x5000000000000000000000000000
    ensures Tight(h)
    ensures Field(h) == Weigh(r0 as int, r1 as int, r2 as int, r3 as int, r4 as int) % P
  {
    var s0, s1, s2, s3, s4, c := CarryChain(r0, r1, r2, r3, r4);
    ghost var top := c as int;
    s0 := s0 + (19 * c) as u128;
    c := High(s0);
    s0 := s0 % 0x8000000000000;
    s1 := s1 + c as u128;
    h := Fe(s0 as u64, s1 as u64, s2 as u64, s3 as u64, s4 as u64);
    assert Weigh(r0 as int, r1 as int, r2 as int, r3 as int, r4 as int) == Value(h) + P * top;
    ModShift(Value(h), top);
  }

  /** The 128-bit product of two limbs. */
  function Wide(x: u64, y: u64): (r: u128)
    requires x < 0x40000000000000 && y < 0x40000000000000
    ensures r as int == x as int * y as int && r < 0x1000000000000000000000000000
  {
    ProductAtMost(x as int, y as int, 0x3fffffffffffff, 0x3fffffffffffff);
    x as u128 * y as u128
  }

  /** The folded limbs stand for the product of the two elements. */
  lemma ProductField(f: Fe, g: Fe, r0: int, r1: int, r2: int, r3: int, r4: int)
    requires r0 == f.l0 as int * g.l0 as int + 19 * (f.l1 as int * g.l4 as int + f.l2 as int * g.l3 as int
                   + f.l3 as int * g.l2 as int + f.l4 as int * g.l1 as int)
    requires r1 == f.l0 as int * g.l1 as int + f.l1 as int * g.l0 as int + 19 * (f.l2 as int * g.l4 as int
                   + f.l3 as int * g.l3 as int + f.l4 as int * g.l2 as int)
    requires r2 == f.l0 as int * g.l2 as int + f.l1 as int * g.l1 as int + f.l2 as int * g.l0 as int
                   + 19 * (f.l3 as int * g.l4 as int + f.l4 as int * g.l3 as int)
    requires r3 == f.l0 as int * g.l3 as int + f.l1 as int * g.l2 as int + f.l2 as int * g.l1 as int
                   + f.l3 as int * g.l0 as int + 19 * (f.l4 as int * g.l4 as int)
    requires r4 == f.l0 as int * g.l4 as int + f.l1 as int * g.l3 as int + f.l2 as int * g.l2 as int
                   + f.l3 as int * g.l1 as int + f.l4 as int * g.l0 as int
    ensures Weigh(r0, r1, r2, r3, r4) % P == Times(Field(f), Field(g))
  {
    hide Weigh;
    FoldedProduct(f.l0 as int, f.l1 as int, f.l2 as int, f.l3 as int, f.l4 as int,
                  g.l0 as int, g.l1 as int, g.l2 as int, g.l3 as int, g.l4 as int);
    ModProduct(Value(f), Value(g));
  }

  method FeMul(f: Fe, g: Fe) returns (h: Fe)
    requires Loose(f) && Loose(g)
    ensures Tight(h) && Field(h) == Times(Field(f), Field(g))
  {
    hide Weigh, Value, Field, Tight;
    var r0 := Wide(f.l0, g.l0) + 19 * (Wide(f.l1, g.l4) + Wide(f.l2, g.l3) + Wide(f.l3, g.l2) + Wide(f.l4, g.l1));
    var r1 := Wide(f.l0, g.l1) + Wide(f.l1, g.l0) + 19 * (Wide(f.l2, g.l4) + Wide(f.l3, g.l3) + Wide(f.l4, g.l2));
    var r2 := Wide(f.l0, g.l2) + Wide(f.l1, g.l1) + Wide(f.l2, g.l0) + 19 * (Wide(f.l3, g.l4) + Wide(f.l4, g.l3));
    var r3 := Wide(f.l0, g.l3) + Wide(f.l1, g.l2) + Wide(f.l2, g.l1) + Wide(f.l3, g.l0) + 19 * (Wide(f.l4, g.l4));
    var r4 := Wide(f.l0, g.l4) + Wide(f.l1, g.l3) + Wide(f.l2, g.l2) + Wide(f.l3, g.l1) + Wide(f.l4, g.l0);
    ProductField(f, g, r0 as int, r1 as int, r2 as int, r3 as int, r4 as int);
    h := Carry(r0, r1, r2, r3, r4);
  }

  method FeSq(f: Fe) returns (h: Fe)
    requires Loose(f)
    ensures Tight(h) && Field(h) == Times(Field(f), Field(f))
  {
    h := FeMul(f, f);
  }

  // ----- Multiplication by a scalar -----

  /** A 64-bit product. */
  function Product(x: u64, s: u64): (r: u128)
    ensures r as int == x as int * s as int && r <= 0xFFFFFFFFFFFFFFFE0000000000000001
  {
    ProductAtMost(x as int, s as int, 0xFFFFFFFFFFFFFFFF, 0xFFFFFFFFFFFFFFFF);
    x as u128 * s as u128
  }

  /** The carry out of a limb, cut to 64 bits. */
  function CutCarry(r: u128): (c: u64)
    ensures r < 0x80000000000000000000000000000 ==> c as int == r as int / LIMB
  {
    ((r / 0x8000000000000) % 0x1_0000_0000_0000_0000) as u64
  }

  /** 19 times a carry, cut to 64 bits. */
  function Fold19(c: u64): (r: u64)
    ensures c < 0xA00_0000_0000_0000 ==> r as int == 19 * c as int
  {
    ((19 * c as u128) % 0x1_0000_0000_0000_0000) as u64
  }

  function LimbAt(f: Fe, i: nat): int {
    if i == 0 then f.l0 as int else if i == 1 then f.l1 as int else if i == 2 then f.l2 as int
    else if i == 3 then f.l3 as int else if i == 4 then f.l4 as int else 0
  }

  /** Limb i of the product by s, with the carry that comes in from below. */
  function Scaled(f: Fe, s: int, i: nat): int {
    LimbAt(f, i) * s + if i == 0 then 0 else Scaled(f, s, i - 1) / LIMB
  }

  /** Limb 1 was left full by its own carry, and the top limb's carry, folded back, pushes limb 0 over. */
  predicate Overfull(f: Fe, s: int) {
    Scaled(f, s, 1) % LIMB == LIMB - 1 && Scaled(f, s, 0) % LIMB + 19 * (Scaled(f, s, 4) / LIMB) >= LIMB
  }

  lemma ScaledField(f: Fe, s: int)
    requires 0 <= s < P
    ensures Weigh(f.l0 as int * s, f.l1 as int * s, f.l2 as int * s, f.l3 as int * s, f.l4 as int * s) % P
         == Times(Field(f), s)
  {
    Distribute(f.l0 as int, f.l1 as int, f.l2 as int, f.l3 as int, f.l4 as int, s);
    hide Weigh;
    ModProduct(Value(f), s);
    assert s % P == s;
  }

  /** One limb of the carry chain: nothing is cut off as long as scalar and limbs are small. */
  lemma {:induction false} ChainLimb(f: Fe, s: u64, i: nat)
    requires Loose(f) && s < 0x100_0000_0000_0000
    ensures 0 <= Scaled(f, s as int, i) < 0x5000_0000_0000_0000_0000_0000_0000
    ensures s < 0x20000 ==> Scaled(f, s as int, i) < 0x100_0000_0000_0000_0000
  {
    LimbLoose(f, i);
    ProductAtMost(LimbAt(f, i), s as int, 0x3fffffffffffff, if s < 0x20000 then 0x1FFFF else 0xFF_FFFF_FFFF_FFFF);
    if i > 0 {
      ChainLimb(f, s, i - 1);
    }
  }

  lemma LimbLoose(f: Fe, i: nat)
    requires Loose(f)
    ensures 0 <= LimbAt(f, i) <= 0x3fffffffffffff
  {}

  /** The limbs are those of the carry chain without any cut. */
  predicate Chained(f: Fe, s: int, h: Fe) {
    var folded := Scaled(f, s, 0) % LIMB + 19 * (Scaled(f, s, 4) / LIMB);
    && h.l0 as int == folded % LIMB && h.l1 as int == Scaled(f, s, 1) % LIMB + folded / LIMB
    && h.l2 as int == Scaled(f, s, 2) % LIMB && h.l3 as int == Scaled(f, s, 3) % LIMB
    && h.l4 as int == Scaled(f, s, 4) % LIMB
  }

  lemma NextLimb(f: Fe, s: u64, i: nat, r: u128, c: u64)
    requires Loose(f) && s < 0x100_0000_0000_0000
    requires r as int == LimbAt(f, i) * s as int && c as int == if i == 0 then 0 else Scaled(f, s as int, i - 1) / LIMB
    ensures r as int + c as int == Scaled(f, s as int, i) < 0x5000_0000_0000_0000_0000_0000_0000
  {
    ChainLimb(f, s, i);
  }

  method ScalarChain(f: Fe, s: u64) returns (h: Fe)
    ensures Loose(f) && s < 0x100_0000_0000_0000 ==> Chained(f, s as int, h)
  {
    hide Scaled, Loose, Product, Fold19, CutCarry;
    ghost var small := Loose(f) && s < 0x100_0000_0000_0000;
    var r0, r1, r2, r3, r4 := Product(f.l0, s), Product(f.l1, s), Product(f.l2, s), Product(f.l3, s), Product(f.l4, s);
    if small { NextLimb(f, s, 0, r0, 0); }
    var c := CutCarry(r0);
    if small { NextLimb(f, s, 1, r1, c); }
    r0, r1 := r0 % 0x8000000000000, r1 + c as u128;
    c := CutCarry(r1);
    if small { NextLimb(f, s, 2, r2, c); }
    r1, r2 := r1 % 0x8000000000000, r2 + c as u128;
    c := CutCarry(r2);
    if small { NextLimb(f, s, 3, r3, c); }
    r2, r3 := r2 % 0x8000000000000, r3 + c as u128;
    c := CutCarry(r3);
    if small { NextLimb(f, s, 4, r4, c); }
    r3, r4 := r3 % 0x8000000000000, r4 + c as u128;
    c := CutCarry(r4);
    r4, r0 := r4 % 0x8000000000000, r0 + Fold19(c) as u128;
    c := CutCarry(r0);
    r0, r1 := r0 % 0x8000000000000, r1 + c as u128;
    h := Fe(r0 as u64, r1 as u64, r2 as u64, r3 as u64, r4 as u64);
  }

  lemma ChainedValue(f: Fe, s: u64, h: Fe)
    requires Loose(f) && s < 0x100_0000_0000_0000 && Chained(f, s as int, h)
    ensures Field(h) == Times(Field(f), s as int)
  {
    hide Scaled, Weigh, Field, Times, Loose;
    var x := s as int;
    ScaledField(f, x);
    ScaledLimbs(f, x);
    ChainField(f.l0 as int * x, f.l1 as int * x, f.l2 as int * x, f.l3 as int * x, f.l4 as int * x,
               Scaled(f, x, 0), Scaled(f, x, 1), Scaled(f, x, 2), Scaled(f, x, 3), Scaled(f, x, 4), h);
  }

  lemma ChainField(a0: int, a1: int, a2: int, a3: int, a4: int, t0: int, t1: int, t2: int, t3: int, t4: int, h: Fe)
    requires t0 == a0 && t1 == a1 + t0 / LIMB && t2 == a2 + t1 / LIMB && t3 == a3 + t2 / LIMB && t4 == a4 + t3 / LIMB
    requires var folded := t0 % LIMB + 19 * (t4 / LIMB);
             && h.l0 as int == folded % LIMB && h.l1 as int == t1 % LIMB + folded / LIMB
             && h.l2 as int == t2 % LIMB && h.l3 as int == t3 % LIMB && h.l4 as int == t4 % LIMB
    ensures Weigh(a0, a1, a2, a3, a4) % P == Field(h)
  {
    hide Weigh;
    var folded := t0 % LIMB + 19 * (t4 / LIMB);
    ChainSum(a0, a1, a2, a3, a4, t0 % LIMB, t1 % LIMB, t2 % LIMB, t3 % LIMB, t4 % LIMB,
             t0 / LIMB, t1 / LIMB, t2 / LIMB, t3 / LIMB, t4 / LIMB, folded % LIMB, folded / LIMB);
    ModShift(Value(h), t4 / LIMB);
  }

  /** Carrying through keeps the value, but for the multiple of P that is folded back. */
  lemma ChainSum(a0: int, a1: int, a2: int, a3: int, a4: int, d0: int, d1: int, d2: int, d3: int, d4: int,
                 q0: int, q1: int, q2: int, q3: int, q4: int, low: int, over: int)
    requires a0 == LIMB * q0 + d0 && a1 + q0 == LIMB * q1 + d1 && a2 + q1 == LIMB * q2 + d2
    requires a3 + q2 == LIMB * q3 + d3 && a4 + q3 == LIMB * q4 + d4 && d0 + 19 * q4 == LIMB * over + low
    ensures Weigh(a0, a1, a2, a3, a4) == Weigh(low, d1 + over, d2, d3, d4) + P * q4
  {}

  lemma ScaledLimbs(f: Fe, s: int)
    ensures Scaled(f, s, 0) == f.l0 as int * s
    ensures Scaled(f, s, 1) == f.l1 as int * s + Scaled(f, s, 0) / LIMB
    ensures Scaled(f, s, 2) == f.l2 as int * s + Scaled(f, s, 1) / LIMB
    ensures Scaled(f, s, 3) == f.l3 as int * s + Scaled(f, s, 2) / LIMB
    ensures Scaled(f, s, 4) == f.l4 as int * s + Scaled(f, s, 3) / LIMB
  {}

  lemma ChainedLimbs(f: Fe, s: u64, h: Fe)
    requires Loose(f) && s < 0x20000 && Chained(f, s as int, h)
    ensures h.l0 as int < LIMB && h.l2 as int < LIMB && h.l3 as int < LIMB && h.l4 as int < LIMB
    ensures h.l1 as int <= LIMB && (h.l1 as int == LIMB <==> Overfull(f, s as int))
  {
    ChainLimb(f, s, 4);
    hide Scaled;
  }

  /**
   * Multiplication by a 64-bit scalar, cut to the word size wherever the code is. For scalars below 2^56 nothing is cut
   * off. For scalars below 2^17, like the only one in use, all limbs fit 51 bits but for limb 1, which reaches 2^51,
   * and no more, exactly if it is overfull.
   */
  method FeMulScalar(f: Fe, s: u64) returns (h: Fe)
    ensures Loose(f) && s < 0x100_0000_0000_0000 ==> Field(h) == Times(Field(f), s as int)
    ensures Loose(f) && s < 0x20000 ==>
              && h.l0 as int < LIMB && h.l2 as int < LIMB && h.l3 as int < LIMB && h.l4 as int < LIMB
              && h.l1 as int <= LIMB && (h.l1 as int == LIMB <==> Overfull(f, s as int))
    ensures Loose(f) && s < 0x20000 ==> Tight(h)
  {
    hide Loose, Chained, Field, Overfull;
    h := ScalarChain(f, s);
    if Loose(f) && s < 0x100_0000_0000_0000 {
      ChainedValue(f, s, h);
      if s < 0x20000 {
        ChainedLimbs(f, s, h);
      }
    }
  }

  /** The scalar in use does leave a limb of 2^51. */
  lemma LimbOverflows()
    ensures var f := Fe(0x5fbee3b8f4b3f, 0x357c7416eb141, 0, 0, 0x7ffffffffffff); Loose(f) && Overfull(f, 121665)
  {
    var f, s := Fe(0x5fbee3b8f4b3f, 0x357c7416eb141, 0, 0, 0x7ffffffffffff), 121665;
    assert Scaled(f, s, 0) == 0x1637e * LIMB + 0x7ffffffffffff;
    assert Scaled(f, s, 1) == 0xc696 * LIMB + 0x7ffffffffffff;
    assert Scaled(f, s, 2) == 0x0 * LIMB + 0xc696;
    assert Scaled(f, s, 3) == 0x0 * LIMB + 0x0;
    assert Scaled(f, s, 4) == 0x1db40 * LIMB + 0x7fffffffe24bf;
  }
}
