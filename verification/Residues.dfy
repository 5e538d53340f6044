/** Arithmetic modulo 255 = 3 * 5 * 17, the number of nonzero bytes. */
module Residues {

  predicate PrimeFactor(r: nat) {
    r == 3 || r == 5 || r == 17
  }

  /** The inverse of a residue from 1 to 16 modulo 17. */
  function Inverse17(x: nat): nat {
    if x == 1 then 1 else if x == 2 then 9 else if x == 3 then 6 else if x == 4 then 13 else if x == 5 then 7
    else if x == 6 then 3 else if x == 7 then 5 else if x == 8 then 15 else if x == 9 then 2 else if x == 10 then 12
    else if x == 11 then 14 else if x == 12 then 10 else if x == 13 then 4 else if x == 14 then 11
    else if x == 15 then 8 else 16
  }

  function Inverse(x: nat, r: nat): nat {
    if r == 3 then x
    else if r == 5 then if x == 2 then 3 else if x == 3 then 2 else x
    else Inverse17(x)
  }

  lemma ResidueInverse(x: nat, r: nat)
    requires PrimeFactor(r) && 0 < x < r
    ensures (x * Inverse(x, r)) % r == 1
  {
    if r == 17 {
      Inverse17Residue(x);
    } else if x == 1 {
    } else if x == 2 {
    } else if x == 3 {
    }
  }

  lemma Inverse17Residue(x: nat)
    requires 0 < x < 17
    ensures (x * Inverse17(x)) % 17 == 1
  {
    if x < 9 {
      match x {
        case 1 => case 2 => case 3 => case 4 => case 5 => case 6 => case 7 => case 8 =>
      }
    } else {
      match x {
        case 9 => case 10 => case 11 => case 12 => case 13 => case 14 => case 15 => case 16 =>
      }
    }
  }

  lemma ProductResidue(a: nat, b: nat, r: nat)
    requires r > 0
    ensures (a * b) % r == ((a % r) * b) % r
  {
    var q := a / r;
    assert a == r * q + a % r;
    assert a * b == r * (q * b) + (a % r) * b by { Distribute(r, q, a % r, b); }
    MultipleAdded((a % r) * b, r, q * b);
  }

  lemma Distribute(r: nat, q: nat, x: nat, b: nat)
    ensures (r * q + x) * b == r * (q * b) + x * b
  {}

  lemma MultipleAdded(x: nat, r: nat, k: nat)
    requires r > 0
    ensures (x + r * k) % r == x % r
  {
    var q := x / r;
    assert x + r * k == r * (q + k) + x % r;
    QuotientUnique(x + r * k, r, q + k, x % r);
  }

  lemma QuotientUnique(n: nat, r: nat, q: nat, rest: nat)
    requires r > 0 && n == r * q + rest && rest < r
    ensures n % r == rest
  {
    var d := n / r - q;
    assert r * d == rest - n % r;
    SmallMultiple(r, d);
  }

  lemma SmallMultiple(r: int, d: int)
    requires -r < r * d < r
    ensures d == 0
  {
    assert d >= 1 ==> r * d >= r;
    assert d <= -1 ==> r * d <= -r;
  }

  /** What a prime factor does not divide has an inverse modulo that factor. */
  lemma Invertible(n: nat, r: nat) returns (e: nat)
    requires PrimeFactor(r) && n % r != 0
    ensures (n * e) % r == 1
  {
    e := Inverse(n % r, r);
    ResidueInverse(n % r, r);
    ProductResidue(n, e, r);
  }

  /** A prime factor that divides a product divides one of the factors. */
  lemma DividesOne(k: nat, d: nat, r: nat)
    requires PrimeFactor(r) && (k * d) % r == 0
    ensures k % r == 0 || d % r == 0
  {
    if d % r != 0 {
      var e := Invertible(d, r);
      hide PrimeFactor;
      Regroup(k, d, e);
      ProductResidue(k * d, e, r);
      ProductResidue(d * e, k, r);
    }
  }

  lemma Regroup(k: nat, d: nat, e: nat)
    ensures (k * d) * e == (d * e) * k
  {}

  /** What all three prime factors divide, 255 divides. */
  lemma AllThree(n: nat)
    requires n % 3 == 0 && n % 5 == 0 && n % 17 == 0
    ensures n % 255 == 0
  {
    var k := Combined(n, n / 3, n / 5, n / 17);
    MultipleAdded(0, 255, k);
  }

  lemma Combined(n: nat, a: nat, b: nat, c: nat) returns (k: nat)
    requires n == 3 * a == 5 * b == 17 * c
    ensures n == 255 * k
  {
    var m := 2 * a - 3 * b;
    assert n == 15 * m;
    var d := 8 * c - 7 * m;
    assert n == 255 * d;
    k := d;
  }

  /** Taking the cofactor of a prime factor leaves the residue modulo that factor. */
  lemma Cofactor(x: nat, r: nat)
    requires PrimeFactor(r) && x % r == 1
    ensures (255 / r * x) % 255 == 255 / r
  {
    var q := x / r;
    assert x == r * q + 1;
    assert 255 / r * x == 255 * q + 255 / r by {
      assert r == 3 ==> 85 * (3 * q + 1) == 255 * q + 85;
      assert r == 5 ==> 51 * (5 * q + 1) == 255 * q + 51;
      assert r == 17 ==> 15 * (17 * q + 1) == 255 * q + 15;
    }
    MultipleAdded(255 / r, 255, q);
  }
}
