/** Field elements as 32 little-endian bytes. */
module FieldBytes {
  import opened Field25519
  import Rfc = Rfc7748

  type Octet = Rfc.Octet

  // ----- Windows into an integer -----

  /** Cutting x at bit n + j, where y holds the m bits from bit n upwards. */
  lemma Window(x: int, n: nat, lo: int, y: int, m: nat, hi: int, j: nat)
    requires x == lo + Rfc.Exp2(n) * (y + Rfc.Exp2(m) * hi) && 0 <= lo < Rfc.Exp2(n) && j <= m
    ensures x / Rfc.Exp2(n + j) == y / Rfc.Exp2(j) + Rfc.Exp2(m - j) * hi
  {
    hide Rfc.Exp2;
    Rfc.Exp2Sum(n, j);
    Rfc.Exp2Sum(j, m - j);
    var e, d, s := Rfc.Exp2(n), Rfc.Exp2(j), Rfc.Exp2(m - j);
    CutTwice(x, e, lo, y, d, s, hi);
  }

  lemma CutTwice(x: int, e: int, lo: int, y: int, d: int, s: int, hi: int)
    requires e > 0 && d > 0 && x == lo + e * (y + (d * s) * hi) && 0 <= lo < e
    ensures e * d > 0 && x / (e * d) == y / d + s * hi
  {
    var q, r := y / d, y % d;
    Nested(d, s, hi, q);
    assert y + (d * s) * hi == d * (q + s * hi) + r;
    Nested(e, d, q + s * hi, r);
    assert 0 <= e * r + lo < e * d by { Remainder(e, d, r, lo); }
    Rfc.Quotient(x, e * d, q + s * hi, e * r + lo);
  }

  lemma Remainder(e: int, d: int, r: int, lo: int)
    requires 0 <= r < d && 0 <= lo < e
    ensures 0 <= e * r + lo < e * d
  {
    ProductAtMost(r, e, d - 1, e);
  }

  lemma Nested(e: int, d: int, q: int, r: int)
    ensures e * (d * q + r) == (e * d) * q + e * r
  {}

  lemma DropMultiple(x: int, m: int, k: int)
    requires m > 0
    ensures (x + m * k) % m == x % m
  {
    var q := x / m;
    assert x + m * k == m * (q + k) + x % m;
    Rfc.Quotient(x + m * k, m, q + k, x % m);
  }

  lemma {:induction false} SplitLe(b: seq<Octet>, i: nat)
    requires i <= |b|
    ensures Rfc.FromLe(b) == Rfc.FromLe(b[..i]) + Rfc.Exp2(8 * i) * Rfc.FromLe(b[i..])
  {
    hide Rfc.Exp2;
    if i == 0 {
      LimbPowers();
    } else {
      SplitLe(b[1..], i - 1);
      assert b[1..][..i - 1] == b[..i][1..] && b[1..][i - 1..] == b[i..];
      Exp2Step(i);
      Nested(256, Rfc.Exp2(8 * (i - 1)), Rfc.FromLe(b[i..]), 0);
    }
  }

  lemma Exp2Step(i: nat)
    requires i > 0
    ensures Rfc.Exp2(8 * i) == 256 * Rfc.Exp2(8 * (i - 1))
  {
    Rfc.Exp2Sum(8, 8 * (i - 1));
    Rfc.SmallPowersOfTwo();
  }

  lemma {:induction false} LeBelow(b: seq<Octet>)
    ensures Rfc.FromLe(b) < Rfc.Exp2(8 * |b|)
  {
    hide Rfc.Exp2;
    if b == [] {
      Rfc.SmallPowersOfTwo();
    } else {
      LeBelow(b[1..]);
      Exp2Step(|b|);
    }
  }

  lemma LimbPowers()
    ensures Rfc.Exp2(0) == 1 && Rfc.Exp2(8) == 0x100 && Rfc.Exp2(12) == 0x1000 && Rfc.Exp2(51) == LIMB
    ensures Rfc.Exp2(64) == 0x10000000000000000 && Rfc.Exp2(102) == 0x40000000000000000000000000
    ensures Rfc.Exp2(153) == 0x200000000000000000000000000000000000000
    ensures Rfc.Exp2(204) == 0x1000000000000000000000000000000000000000000000000000
    ensures Rfc.Exp2(255) == P + 19
  {
    Rfc.SmallPowersOfTwo();
    hide Rfc.Exp2;
    Rfc.Exp2Sum(8, 4);
    Rfc.Exp2Sum(8, 5);
    Rfc.Exp2Sum(12, 12);
    assert Rfc.Exp2(24) == 0x1000000;
    Rfc.Exp2Sum(24, 24);
    assert Rfc.Exp2(48) == 0x1000000000000;
    Rfc.Exp2Sum(48, 3);
    Rfc.Exp2Sum(51, 13);
    Rfc.Exp2Sum(51, 51);
    Rfc.Exp2Sum(102, 51);
    Rfc.Exp2Sum(153, 51);
    Rfc.Exp2Sum(204, 51);
  }

  // ----- Decoding -----

  /** Bytes i .. i + 8 as a little-endian word. */
  function LoadLe64(b: seq<Octet>, i: nat): (w: u64)
    requires i + 8 <= |b|
  {
    LeBelow(b[i..i + 8]);
    LimbPowers();
    Rfc.FromLe(b[i..i + 8]) as u64
  }

  function FeFromBytes(b: seq<Octet>): (f: Fe)
    requires |b| == 32
  {
    Fe(LoadLe64(b, 0) % 0x8000000000000,
       (LoadLe64(b, 6) / 0x8) % 0x8000000000000,
       (LoadLe64(b, 12) / 0x40) % 0x8000000000000,
       (LoadLe64(b, 19) / 0x2) % 0x8000000000000,
       (LoadLe64(b, 24) / 0x1000) % 0x8000000000000)
  }

  /** A word loaded at byte i and shifted by j gives the 51 bits of the whole integer from bit 8 i + j upwards. */
  lemma LoadedLimb(b: seq<Octet>, i: nat, j: nat)
    requires i + 8 <= |b| && j <= 13
    ensures (LoadLe64(b, i) as int / Rfc.Exp2(j)) % Rfc.Exp2(51) == (Rfc.FromLe(b) / Rfc.Exp2(8 * i + j)) % Rfc.Exp2(51)
  {
    hide Rfc.Exp2, Rfc.FromLe;
    SplitLe(b, i);
    LeBelow(b[..i]);
    SplitLe(b[i..], 8);
    assert b[i..][..8] == b[i..i + 8];
    var hi := Rfc.FromLe(b[i..][8..]);
    var w := LoadLe64(b, i) as int;
    Window(Rfc.FromLe(b), 8 * i, Rfc.FromLe(b[..i]), w, 64, hi, j);
    Rfc.Exp2Sum(51, 13 - j);
    Nested(Rfc.Exp2(51), Rfc.Exp2(13 - j), hi, 0);
    DropMultiple(w / Rfc.Exp2(j), Rfc.Exp2(51), Rfc.Exp2(13 - j) * hi);
  }

  /** The five base-2^51 digits of x add up to x modulo 2^255. */
  lemma Digits(x: int)
    requires x >= 0
    ensures Weigh(x % LIMB, (x / Rfc.Exp2(51)) % LIMB, (x / Rfc.Exp2(102)) % LIMB, (x / Rfc.Exp2(153)) % LIMB,
                  (x / Rfc.Exp2(204)) % LIMB) == x % (P + 19)
  {
    hide Rfc.Exp2;
    LimbPowers();
    DigitStep(x, 0);
    DigitStep(x, 51);
    DigitStep(x, 102);
    DigitStep(x, 153);
    DigitStep(x, 204);
    var q1, q2, q3 := x / Rfc.Exp2(51), x / Rfc.Exp2(102), x / Rfc.Exp2(153);
    var q4, q5 := x / Rfc.Exp2(204), x / Rfc.Exp2(255);
    Horner(x % LIMB, q1 % LIMB, q2 % LIMB, q3 % LIMB, q4 % LIMB, q5);
    assert x == Weigh(x % LIMB, q1 % LIMB, q2 % LIMB, q3 % LIMB, q4 % LIMB) + (P + 19) * q5;
  }

  lemma Horner(d0: int, d1: int, d2: int, d3: int, d4: int, q: int)
    requires 0 <= d0 < LIMB && 0 <= d1 < LIMB && 0 <= d2 < LIMB && 0 <= d3 < LIMB && 0 <= d4 < LIMB
    ensures d0 + LIMB * (d1 + LIMB * (d2 + LIMB * (d3 + LIMB * (d4 + LIMB * q))))
         == Weigh(d0, d1, d2, d3, d4) + (P + 19) * q
    ensures 0 <= Weigh(d0, d1, d2, d3, d4) < P + 19
    ensures (Weigh(d0, d1, d2, d3, d4) + (P + 19) * q) % (P + 19) == Weigh(d0, d1, d2, d3, d4)
  {
    Rfc.Quotient(Weigh(d0, d1, d2, d3, d4) + (P + 19) * q, P + 19, q, Weigh(d0, d1, d2, d3, d4));
  }

  lemma DigitStep(x: int, n: nat)
    requires x >= 0
    ensures x / Rfc.Exp2(n) == LIMB * (x / Rfc.Exp2(n + 51)) + (x / Rfc.Exp2(n)) % LIMB
  {
    hide Rfc.Exp2;
    LimbPowers();
    var e := Rfc.Exp2(n);
    assert x == e * (x / e) + x % e;
    Window(x, n, x % e, x / e, 51, 0, 51);
  }

  lemma LoadedLimbs(b: seq<Octet>)
    requires |b| == 32
    ensures var f, x := FeFromBytes(b), Rfc.FromLe(b);
            && f.l0 as int == x % LIMB && f.l1 as int == (x / Rfc.Exp2(51)) % LIMB
            && f.l2 as int == (x / Rfc.Exp2(102)) % LIMB && f.l3 as int == (x / Rfc.Exp2(153)) % LIMB
            && f.l4 as int == (x / Rfc.Exp2(204)) % LIMB
  {
    hide Rfc.Exp2, Rfc.FromLe, LoadLe64;
    Rfc.SmallPowersOfTwo();
    LimbPowers();
    LoadedLimb(b, 0, 0);
    LoadedLimb(b, 6, 3);
    LoadedLimb(b, 12, 6);
    LoadedLimb(b, 19, 1);
    LoadedLimb(b, 24, 12);
  }

  /** Decoding ignores the top bit and keeps the other 255. */
  lemma DecodedValue(b: seq<Octet>)
    requires |b| == 32
    ensures Below(FeFromBytes(b), LIMB) && Value(FeFromBytes(b)) == Rfc.FromLe(b) % (P + 19)
  {
    hide Rfc.Exp2, Rfc.FromLe, FeFromBytes, Weigh;
    LoadedLimbs(b);
    Digits(Rfc.FromLe(b));
  }

  // ----- Encoding -----

  /** One pass of carries; k counts how often 2^255 left the top limb and came back as 19. */
  method CarryPass(f: Fe) returns (h: Fe, ghost k: int)
    requires Loose(f)
    ensures 0 <= k <= 8 && Value(f) == Value(h) + P * k
    ensures 0 <= h.l0 as int - 19 * k < LIMB && h.l1 as int < LIMB && h.l2 as int < LIMB && h.l3 as int < LIMB
             && h.l4 as int < LIMB
  {
    var h0, h1, h2, h3, h4 := f.l0, f.l1, f.l2, f.l3, f.l4;
    var c := h0 / 0x8000000000000;
    h0 := h0 % 0x8000000000000;
    h1 := h1 + c;
    c := h1 / 0x8000000000000;
    h1 := h1 % 0x8000000000000;
    h2 := h2 + c;
    c := h2 / 0x8000000000000;
    h2 := h2 % 0x8000000000000;
    h3 := h3 + c;
    c := h3 / 0x8000000000000;
    h3 := h3 % 0x8000000000000;
    h4 := h4 + c;
    c := h4 / 0x8000000000000;
    h4 := h4 % 0x8000000000000;
    h0 := h0 + 19 * c;
    h, k := Fe(h0, h1, h2, h3, h4), c as int;
  }

  /** Three passes bring every limb below 2^51 without changing the field element. */
  method CarryFully(f: Fe) returns (h: Fe)
    requires Loose(f)
    ensures Below(h, LIMB) && Field(h) == Field(f)
  {
    h := f;
    for pass := 0 to 3
      invariant Loose(h) && Field(h) == Field(f)
      invariant pass >= 1 ==> Value(h) < P + 171
      invariant pass >= 2 ==> Below(h, LIMB)
    {
      hide Field, Value, Below;
      ghost var k, was := 0, h;
      h, k := CarryPass(h);
      SameField(was, h, k);
      PassBounds(was, h, k);
    }
  }

  /** The first pass leaves less than 2^255 + 152, and a pass over that fits every limb into 51 bits. */
  lemma PassBounds(f: Fe, h: Fe, k: int)
    requires 0 <= k <= 8 && Value(f) == Value(h) + P * k
    requires 0 <= h.l0 as int - 19 * k < LIMB && h.l1 as int < LIMB && h.l2 as int < LIMB && h.l3 as int < LIMB
             && h.l4 as int < LIMB
    ensures Loose(h) && Value(h) < P + 171
    ensures Value(f) < P + 171 ==> Below(h, LIMB)
  {}

  lemma SameField(f: Fe, h: Fe, k: int)
    requires Value(f) == Value(h) + P * k
    ensures Field(h) == Field(f)
  {
    hide Value;
    ModShift(Value(h), k);
  }

  newtype i64 = x: int | -0x8000_0000_0000_0000 <= x < 0x8000_0000_0000_0000

  /** One limb of the trial subtraction of p: the low 51 bits of the difference, and whether it borrowed. */
  method SubtractLimb(h: u64, p: u64, borrow: i64) returns (m: u64, next: i64)
    requires h as int < LIMB && p as int < LIMB && 0 <= borrow <= 1
    ensures m as int < LIMB && 0 <= next <= 1
    ensures h as int - p as int - borrow as int == m as int - LIMB * next as int
  {
    var t := h as i64 - p as i64 - borrow;
    next := if t < 0 then 1 else 0;
    m := (t % 0x8000000000000) as u64;
  }

  /** (keep & h) | (~keep & m), with keep all ones or all zeros, selects h or m. */
  lemma MaskedSelect(h: bv64, m: bv64)
    ensures ((0 - 1) & h) | (!(0 - 1) & m) == h && ((0 - 0) & h) | (!(0 - 0) & m) == m
  {}

  /** The unique representative below p. */
  method Reduce(h: Fe) returns (out: Fe)
    requires Below(h, LIMB)
    ensures Below(out, LIMB) && Value(out) == Field(h)
  {
    var m0, b0 := SubtractLimb(h.l0, 0x7ffffffffffed, 0);
    var m1, b1 := SubtractLimb(h.l1, 0x7ffffffffffff, b0);
    var m2, b2 := SubtractLimb(h.l2, 0x7ffffffffffff, b1);
    var m3, b3 := SubtractLimb(h.l3, 0x7ffffffffffff, b2);
    var m4, borrow := SubtractLimb(h.l4, 0x7ffffffffffff, b3);
    out := if borrow == 1 then h else Fe(m0, m1, m2, m3, m4);
    Representative(h, Fe(m0, m1, m2, m3, m4), borrow as int);
  }

  lemma Representative(h: Fe, m: Fe, borrow: int)
    requires Below(h, LIMB) && Below(m, LIMB) && 0 <= borrow <= 1
    requires Value(h) - P == Value(m) - (P + 19) * borrow
    ensures Field(h) == Value(if borrow == 1 then h else m)
  {
    ValueBound(h);
    ValueBound(m);
    hide Value, Below;
    if borrow == 0 {
      assert Value(h) == Value(m) + P;
      ModShift(Value(m), 1);
      Small(Value(m));
    } else {
      assert borrow == 1 && Value(h) == Value(m) - 19;
      Small(Value(h));
    }
  }

  lemma Small(x: int)
    requires 0 <= x < P
    ensures x % P == x
  {}

  lemma ValueBound(h: Fe)
    requires Below(h, LIMB)
    ensures Value(h) < P + 19
  {}

  /** Conversion to uint8_t. */
  function Byte(x: int): Octet {
    x % 0x100
  }

  function Shr(x: int, n: nat): int {
    x / Rfc.Exp2(n)
  }

  function Shl(x: int, n: nat): int {
    x * Rfc.Exp2(n)
  }

  /** The 51-bit limbs as bytes; a byte that straddles two limbs joins them (the two parts never overlap). */
  function Pack(h: Fe): (s: seq<Octet>)
    ensures |s| == 32
  {
    [Byte(h.l0 as int),
     Byte(Shr(h.l0 as int, 8)),
     Byte(Shr(h.l0 as int, 16)),
     Byte(Shr(h.l0 as int, 24)),
     Byte(Shr(h.l0 as int, 32)),
     Byte(Shr(h.l0 as int, 40)),
     Byte(Shr(h.l0 as int, 48) + Shl(h.l1 as int, 3)),
     Byte(Shr(h.l1 as int, 5)),
     Byte(Shr(h.l1 as int, 13)),
     Byte(Shr(h.l1 as int, 21)),
     Byte(Shr(h.l1 as int, 29)),
     Byte(Shr(h.l1 as int, 37)),
     Byte(Shr(h.l1 as int, 45) + Shl(h.l2 as int, 6)),
     Byte(Shr(h.l2 as int, 2)),
     Byte(Shr(h.l2 as int, 10)),
     Byte(Shr(h.l2 as int, 18)),
     Byte(Shr(h.l2 as int, 26)),
     Byte(Shr(h.l2 as int, 34)),
     Byte(Shr(h.l2 as int, 42)),
     Byte(Shr(h.l2 as int, 50) + Shl(h.l3 as int, 1)),
     Byte(Shr(h.l3 as int, 7)),
     Byte(Shr(h.l3 as int, 15)),
     Byte(Shr(h.l3 as int, 23)),
     Byte(Shr(h.l3 as int, 31)),
     Byte(Shr(h.l3 as int, 39)),
     Byte(Shr(h.l3 as int, 47) + Shl(h.l4 as int, 4)),
     Byte(Shr(h.l4 as int, 4)),
     Byte(Shr(h.l4 as int, 12)),
     Byte(Shr(h.l4 as int, 20)),
     Byte(Shr(h.l4 as int, 28)),
     Byte(Shr(h.l4 as int, 36)),
     Byte(Shr(h.l4 as int, 44))]
  }

  /** The limbs from limb i upwards, as one integer. */
  function From(h: Fe, i: nat): int {
    Weigh(LimbAt(h, i), LimbAt(h, i + 1), LimbAt(h, i + 2), LimbAt(h, i + 3), LimbAt(h, i + 4))
  }

  /** The limbs below limb i. */
  function LowPart(h: Fe, i: nat): int {
    Weigh(if i > 0 then h.l0 as int else 0, if i > 1 then h.l1 as int else 0, if i > 2 then h.l2 as int else 0,
          if i > 3 then h.l3 as int else 0, 0)
  }

  lemma Layout(h: Fe, i: nat)
    requires Below(h, LIMB) && i < 5
    ensures From(h, i) == LimbAt(h, i) + LIMB * (LimbAt(h, i + 1) + LIMB * From(h, i + 2)) && LimbAt(h, 5) == 0
    ensures i == 0 ==> LowPart(h, i) == 0 && Value(h) == From(h, i)
    ensures i == 1 ==> 0 <= LowPart(h, i) < LIMB && Value(h) == LowPart(h, i) + LIMB * From(h, i)
    ensures i == 2 ==> 0 <= LowPart(h, i) < 0x40000000000000000000000000
                       && Value(h) == LowPart(h, i) + 0x40000000000000000000000000 * From(h, i)
    ensures i == 3 ==> 0 <= LowPart(h, i) < 0x200000000000000000000000000000000000000
                       && Value(h) == LowPart(h, i) + 0x200000000000000000000000000000000000000 * From(h, i)
    ensures i == 4 ==> 0 <= LowPart(h, i) < 0x1000000000000000000000000000000000000000000000000000
                       && Value(h)
                          == LowPart(h, i) + 0x1000000000000000000000000000000000000000000000000000 * From(h, i)
  {
    hide LimbAt, From, LowPart;
    FromStep(h, i);
    LimbFields(h);
    Parts(h, i);
  }

  lemma LimbFields(h: Fe)
    ensures LimbAt(h, 0) == h.l0 as int && LimbAt(h, 1) == h.l1 as int && LimbAt(h, 2) == h.l2 as int
    ensures LimbAt(h, 3) == h.l3 as int && LimbAt(h, 4) == h.l4 as int
    ensures LimbAt(h, 5) == LimbAt(h, 6) == LimbAt(h, 7) == LimbAt(h, 8) == 0
  {}

  lemma NoLimb(h: Fe, i: nat)
    requires i >= 5
    ensures LimbAt(h, i) == 0
  {}

  lemma FromStep(h: Fe, i: nat)
    ensures From(h, i) == LimbAt(h, i) + LIMB * (LimbAt(h, i + 1) + LIMB * From(h, i + 2))
  {
    hide LimbAt;
    NoLimb(h, i + 5);
    NoLimb(h, i + 6);
  }

  lemma Parts(h: Fe, i: nat)
    requires i < 5
    ensures i == 1 ==> From(h, i) == Weigh(h.l1 as int, h.l2 as int, h.l3 as int, h.l4 as int, 0)
                       && LowPart(h, i) == Weigh(h.l0 as int, 0, 0, 0, 0)
    ensures i == 2 ==> From(h, i) == Weigh(h.l2 as int, h.l3 as int, h.l4 as int, 0, 0)
                       && LowPart(h, i) == Weigh(h.l0 as int, h.l1 as int, 0, 0, 0)
    ensures i == 3 ==> From(h, i) == Weigh(h.l3 as int, h.l4 as int, 0, 0, 0)
                       && LowPart(h, i) == Weigh(h.l0 as int, h.l1 as int, h.l2 as int, 0, 0)
    ensures i == 4 ==> From(h, i) == Weigh(h.l4 as int, 0, 0, 0, 0)
                       && LowPart(h, i) == Weigh(h.l0 as int, h.l1 as int, h.l2 as int, h.l3 as int, 0)
    ensures i == 0 ==> From(h, i) == Value(h) && LowPart(h, i) == Weigh(0, 0, 0, 0, 0)
  {
    hide LimbAt, Weigh;
    LimbFields(h);
  }

  /** Byte k of an integer. */
  function ByteAt(v: int, k: nat): int {
    (v / Rfc.Exp2(8 * k)) % 0x100
  }

  /** Eight bits of v starting r bits into the limb at bit n. */
  lemma ByteOfLimb(v: int, n: nat, e: int, lo: int, limb: int, next: int, rest: int, r: nat, k: nat)
    requires e == Rfc.Exp2(n) && v == lo + e * (limb + LIMB * (next + LIMB * rest)) && 0 <= lo < e
    requires r < 51 && n + r == 8 * k
    ensures r > 0 ==> ByteAt(v, k) == Byte(Shr(limb, r) + Shl(next, 51 - r))
    ensures r <= 43 ==> ByteAt(v, k) == Byte(Shr(limb, r))
    ensures r == 0 ==> ByteAt(v, k) == Byte(limb)
    ensures next == 0 ==> ByteAt(v, k) == Byte(Shr(limb, r))
  {
    hide Rfc.Exp2, ByteAt;
    LimbPowers();
    LimbWindow(v, n, e, lo, limb, next, rest, r, k);
    if r <= 43 {
      NextDrops(limb / Rfc.Exp2(r), next, r);
    }
  }

  lemma LimbWindow(v: int, n: nat, e: int, lo: int, limb: int, next: int, rest: int, r: nat, k: nat)
    requires e == Rfc.Exp2(n) && v == lo + e * (limb + LIMB * (next + LIMB * rest)) && 0 <= lo < e
    requires r < 51 && n + r == 8 * k
    ensures ByteAt(v, k) == (limb / Rfc.Exp2(r) + next * Rfc.Exp2(51 - r)) % 0x100
  {
    hide Rfc.Exp2, ByteAt;
    LimbByteCut(v, n, e, lo, limb, next + LIMB * rest, r, k);
    RestDrops(limb / Rfc.Exp2(r), next, rest, Rfc.Exp2(51 - r));
  }

  lemma LimbByteCut(v: int, n: nat, e: int, lo: int, limb: int, tail: int, r: nat, k: nat)
    requires e == Rfc.Exp2(n) && v == lo + e * (limb + LIMB * tail) && 0 <= lo < e && r < 51 && n + r == 8 * k
    ensures ByteAt(v, k) == (limb / Rfc.Exp2(r) + Rfc.Exp2(51 - r) * tail) % 0x100
  {
    hide Rfc.Exp2;
    LimbCut(v, n, lo, limb, tail, r);
  }

  lemma LimbCut(v: int, n: nat, lo: int, limb: int, tail: int, r: nat)
    requires v == lo + Rfc.Exp2(n) * (limb + LIMB * tail) && 0 <= lo < Rfc.Exp2(n) && r < 51
    ensures v / Rfc.Exp2(n + r) == limb / Rfc.Exp2(r) + Rfc.Exp2(51 - r) * tail
  {
    hide Rfc.Exp2;
    LimbPowers();
    Window(v, n, lo, limb, 51, tail, r);
  }

  lemma RestDrops(low: int, next: int, rest: int, s: int)
    ensures (low + s * (next + LIMB * rest)) % 0x100 == (low + next * s) % 0x100
  {
    assert s * (next + LIMB * rest) == next * s + 0x100 * (0x80000000000 * rest * s);
    DropMultiple(low + next * s, 0x100, 0x80000000000 * rest * s);
  }

  lemma NextDrops(low: int, next: int, r: nat)
    requires r <= 43
    ensures (low + next * Rfc.Exp2(51 - r)) % 0x100 == low % 0x100
  {
    hide Rfc.Exp2;
    LimbPowers();
    Rfc.Exp2Sum(8, 43 - r);
    var s := Rfc.Exp2(43 - r);
    Nested(0x100, s, next, 0);
    assert next * Rfc.Exp2(51 - r) == 0x100 * (s * next);
    DropMultiple(low, 0x100, s * next);
  }

  /** Byte k starts r bits into limb i. */
  lemma LimbByte(h: Fe, i: nat, r: nat, k: nat)
    requires Below(h, LIMB) && i < 5 && r < 51 && 51 * i + r == 8 * k
    ensures r > 0 ==> ByteAt(Value(h), k) == Byte(Shr(LimbAt(h, i), r) + Shl(LimbAt(h, i + 1), 51 - r))
    ensures r <= 43 || i == 4 ==> ByteAt(Value(h), k) == Byte(Shr(LimbAt(h, i), r))
    ensures r == 0 ==> ByteAt(Value(h), k) == Byte(LimbAt(h, i))
  {
    hide Rfc.Exp2, Value, Byte, Shr, Shl, ByteAt, Below, LimbAt, From, LowPart;
    Layout(h, i);
    LimbPowers();
    var lo, limb, next, rest := LowPart(h, i), LimbAt(h, i), LimbAt(h, i + 1), From(h, i + 2);
    if i == 0 {
      ByteOfLimb(Value(h), 0, 1, lo, limb, next, rest, r, k);
    } else if i == 1 {
      ByteOfLimb(Value(h), 51, 0x8000000000000, lo, limb, next, rest, r, k);
    } else if i == 2 {
      ByteOfLimb(Value(h), 102, 0x40000000000000000000000000, lo, limb, next, rest, r, k);
    } else if i == 3 {
      ByteOfLimb(Value(h), 153, 0x200000000000000000000000000000000000000, lo, limb, next, rest, r, k);
    } else {
      ByteOfLimb(Value(h), 204, 0x1000000000000000000000000000000000000000000000000000, lo, limb, next, rest, r, k);
    }
  }

  lemma PackedByte(h: Fe, k: nat)
    requires Below(h, LIMB) && k < 32
    ensures Pack(h)[k] == ByteAt(Value(h), k)
  {
    hide Rfc.Exp2, Value, Byte, Shr, Shl, ByteAt, Below;
    LimbByte(h, 8 * k / 51, 8 * k % 51, k);
  }

  lemma {:induction false} ByteOfLe(v: int, n: nat, k: nat)
    requires v >= 0 && k < n
    ensures Rfc.ToLe(v, n)[k] == ByteAt(v, k)
  {
    hide Rfc.Exp2;
    if k == 0 {
      Rfc.SmallPowersOfTwo();
    } else {
      ByteOfLe(v / 256, n - 1, k - 1);
      Exp2Step(k);
      Rfc.DivideTwice(v, Rfc.Exp2(8 * (k - 1)));
    }
  }

  /** Packing writes the value of the limbs in little-endian order. */
  lemma PackedValue(h: Fe)
    requires Below(h, LIMB)
    ensures Pack(h) == Rfc.ToLe(Value(h), 32)
  {
    hide Pack, Value, Rfc.ToLe, Rfc.Exp2, Below, ByteAt;
    forall k | 0 <= k < 32
      ensures Pack(h)[k] == Rfc.ToLe(Value(h), 32)[k]
    {
      PackedByte(h, k);
      ByteOfLe(Value(h), 32, k);
    }
  }

  /** Encoding writes the unique representative below p. */
  method FeToBytes(f: Fe) returns (s: seq<Octet>)
    requires Loose(f)
    ensures s == Rfc.ToLe(Field(f), 32)
  {
    hide Field, Pack, Rfc.ToLe;
    var h := CarryFully(f);
    var out := Reduce(h);
    PackedValue(out);
    s := Pack(out);
  }

  /** Little-endian bytes and integers below 2^(8 n) correspond. */
  lemma {:induction false} ToLeFromLe(v: int, n: nat)
    requires 0 <= v < Rfc.Exp2(8 * n)
    ensures Rfc.FromLe(Rfc.ToLe(v, n)) == v
  {
    if n > 0 {
      Exp2Step(n);
      ToLeFromLe(v / 256, n - 1);
    }
  }
}
