/** Which two parity rows recover every pair of lost fragments, beyond the rows a sender emits. */
module RowPairs {
  import opened Gf256
  import opened GfMatrix
  import opened ReedSolomon
  import opened Vandermonde
  import opened Residues

  // ----- Two equations in two unknowns -----

  lemma PairRows(p: (nat, Bytes), q: (nat, Bytes), i: nat, j: nat, v: Vector)
    requires |v| == 2
    ensures Annihilates(Coefficients([p, q], [i, j]), v) <==>
            && Add(Mul(Coef(p.0, i), v[0]), Mul(Coef(p.0, j), v[1])) == 0
            && Add(Mul(Coef(q.0, i), v[0]), Mul(Coef(q.0, j), v[1])) == 0
  {
    hide Add, Mul, Coef, Dot;
    var a := Coefficients([p, q], [i, j]);
    TwoDot(a[0], v);
    TwoDot(a[1], v);
  }

  lemma TwoDot(x: Vector, v: Vector)
    requires |x| == |v| == 2
    ensures Dot(x, v) == Add(Mul(x[0], v[0]), Mul(x[1], v[1]))
  {
    hide Add, Mul;
    assert Dot(x[1..][1..], v[1..][1..]) == 0;
    assert Dot(x[1..], v[1..]) == Add(Mul(x[1], v[1]), 0);
    AddZero(Mul(x[1], v[1]));
  }

  /** Cramer's rule, for what is needed of it: a nonzero determinant leaves only the zero solution. */
  lemma Cramer(a: Byte, b: Byte, c: Byte, d: Byte, x: Byte, y: Byte)
    requires Add(Mul(a, x), Mul(b, y)) == 0 && Add(Mul(c, x), Mul(d, y)) == 0
    requires Mul(a, d) != Mul(b, c)
    ensures x == 0 && y == 0
  {
    hide Add, Mul;
    AddSelf(Mul(a, x), Mul(b, y));
    AddSelf(Mul(c, x), Mul(d, y));
    Eliminated(a, b, c, d, x, y);
    Eliminated(b, a, d, c, y, x);
    MulCommutes(a, d);
    MulCommutes(b, c);
    Differ(Mul(a, d), Mul(b, c), x);
    Differ(Mul(b, c), Mul(a, d), y);
  }

  lemma Eliminated(a: Byte, b: Byte, c: Byte, d: Byte, x: Byte, y: Byte)
    requires Mul(a, x) == Mul(b, y) && Mul(c, x) == Mul(d, y)
    ensures Mul(Mul(a, d), x) == Mul(Mul(b, c), x)
  {
    hide Add, Mul;
    MulCommutes(a, d);
    MulAssociates(d, a, x);
    MulAssociates(d, b, y);
    MulCommutes(d, b);
    MulAssociates(b, d, y);
    MulAssociates(b, c, x);
  }

  lemma Differ(a: Byte, b: Byte, x: Byte)
    requires Mul(a, x) == Mul(b, x) && a != b
    ensures x == 0
  {
    hide Add, Mul;
    MulDistributes(a, b, x);
    AddSelf(Mul(a, x), Mul(b, x));
    NoZeroDivisors(Add(a, b), x);
    AddSelf(a, b);
  }

  /** Two lost fragments are told apart by two rows exactly if the determinant of their coefficients is nonzero. */
  lemma PairExactly(p: (nat, Bytes), q: (nat, Bytes), i: nat, j: nat)
    requires i < j < 255
    ensures Nonsingular(Coefficients([p, q], [i, j])) <==>
            Mul(Coef(p.0, i), Coef(q.0, j)) != Mul(Coef(p.0, j), Coef(q.0, i))
  {
    hide Add, Mul, Coef, Dot, Annihilates;
    var a, b, c, d := Coef(p.0, i), Coef(p.0, j), Coef(q.0, i), Coef(q.0, j);
    var m := Coefficients([p, q], [i, j]);
    if Mul(a, d) != Mul(b, c) {
      forall v: Vector | |v| == 2 && Annihilates(m, v) ensures v == Zeros(2) {
        PairRows(p, q, i, j, v);
        Cramer(a, b, c, d, v[0], v[1]);
      }
    } else {
      var v: Vector := [b, a];
      MulCommutes(a, b);
      MulCommutes(c, b);
      MulCommutes(d, a);
      AddSelf(Mul(a, b), Mul(b, a));
      AddSelf(Mul(c, b), Mul(d, a));
      PairRows(p, q, i, j, v);
      CoefNonzero(p.0, i);
      assert v[1] != Zeros(2)[1];
    }
  }

  lemma CoefNonzero(p: nat, i: nat)
    requires i < 255
    ensures Coef(p, i) != 0
  {
    DistinctBases(i, i);
    PowNonzero(Base(i), p);
  }

  // ----- In exponents -----

  lemma BaseExponent(i: nat) returns (a: nat)
    requires i < 255
    ensures a < 255 && Base(i) == Exp(a)
  {
    hide Exp, Base;
    DistinctBases(i, i);
    LogExists(Base(i));
    a :| a < 255 && Exp(a) == Base(i);
  }

  lemma CoefExponent(p: nat, i: nat, a: nat)
    requires Base(i) == Exp(a)
    ensures Coef(p, i) == Exp(a * p)
  {
    hide Exp, Base;
    PowExp(a, p);
  }

  predicate Coprime(d: nat) {
    d % 3 != 0 && d % 5 != 0 && d % 17 != 0
  }

  /** Rows p and q tell the fragments with exponents a and b apart exactly if 255 does not divide (b - a)(q - p). */
  lemma DeterminantZero(p: nat, q: nat, a: nat, b: nat)
    requires p < q && a < b
    ensures Mul(Exp(a * p), Exp(b * q)) == Mul(Exp(b * p), Exp(a * q)) <==> ((b - a) * (q - p)) % 255 == 0
  {
    hide Exp, Mul;
    ExpSum(a * p, b * q);
    ExpSum(b * p, a * q);
    ExpEqual(a * p + b * q, b * p + a * q);
    Rearranged(p, q, a, b);
    ResidueDifference(b * p + a * q, (b - a) * (q - p));
  }

  lemma Rearranged(p: nat, q: nat, a: nat, b: nat)
    requires p < q && a < b
    ensures a * p + b * q == b * p + a * q + (b - a) * (q - p)
  {}

  lemma ResidueDifference(n: nat, k: nat)
    ensures (n + k) % 255 == n % 255 <==> k % 255 == 0
  {}

  lemma NeverDivides(k: nat, d: nat)
    requires 0 < k < 255 && Coprime(d)
    ensures (k * d) % 255 != 0
  {
    FactorsOf255(k * d);
    if (k * d) % 255 == 0 {
      DividesOne(k, d, 3);
      DividesOne(k, d, 5);
      DividesOne(k, d, 17);
      AllThree(k);
    }
  }

  lemma FactorsOf255(n: nat)
    ensures n % 255 == 0 ==> n % 3 == 0 && n % 5 == 0 && n % 17 == 0
  {
    if n % 255 == 0 {
      var q := n / 255;
      MultipleAdded(0, 3, 85 * q);
      MultipleAdded(0, 5, 51 * q);
      MultipleAdded(0, 17, 15 * q);
    }
  }

  /** The determinant of two rows and two fragments, by the fragments' exponents. */
  lemma PairExponents(p: nat, q: nat, i: nat, j: nat, a: nat, b: nat)
    requires p < q && a < b && Base(i) == Exp(a) && Base(j) == Exp(b)
    ensures Mul(Coef(p, i), Coef(q, j)) == Mul(Coef(p, j), Coef(q, i)) <==> ((b - a) * (q - p)) % 255 == 0
  {
    hide Exp, Mul, Coef, Base;
    CoefExponent(p, i, a);
    CoefExponent(q, i, a);
    CoefExponent(p, j, b);
    CoefExponent(q, j, b);
    DeterminantZero(p, q, a, b);
  }

  /** Rows whose distance shares a factor with 255 fail for fragment 0 and one with exponent 255 / r. */
  lemma SharedFactor(p: nat, q: nat, r: nat) returns (j: nat)
    requires p < q && PrimeFactor(r) && (q - p) % r == 0
    ensures 0 < j < 255 && Mul(Coef(p, 0), Coef(q, j)) == Mul(Coef(p, j), Coef(q, 0))
  {
    hide Exp, Mul, Coef, Base;
    Order();
    j := PowerIndex(255 / r);
    BaseOf(j, Exp(255 / r));
    FirstBase();
    ByteRoundTrip(1);
    CofactorMultiple(q - p, r);
    PairExponents(p, q, 0, j, 0, 255 / r);
  }

  lemma FirstBase()
    ensures Base(0) == 1 == Exp(0)
  {}

  lemma CofactorMultiple(d: nat, r: nat)
    requires PrimeFactor(r) && d % r == 0
    ensures (255 / r * d) % 255 == 0
  {
    var t := d / r;
    if r == 3 {
      assert 255 / r * d == 255 * t;
    } else if r == 5 {
      assert 255 / r * d == 255 * t;
    } else {
      assert 255 / r * d == 255 * t;
    }
    MultipleAdded(0, 255, t);
  }

  lemma CoprimeTells(p: nat, q: nat, i: nat, j: nat)
    requires p < q && i < j < 255 && Coprime(q - p)
    ensures Mul(Coef(p, i), Coef(q, j)) != Mul(Coef(p, j), Coef(q, i))
  {
    hide Exp, Mul, Coef, Base, Coprime;
    var a := BaseExponent(i);
    var b := BaseExponent(j);
    DistinctBases(i, j);
    if a < b {
      PairExponents(p, q, i, j, a, b);
      NeverDivides(b - a, q - p);
    } else {
      PairExponents(p, q, j, i, b, a);
      NeverDivides(a - b, q - p);
    }
  }

  /**
   * For two rows p < q: all pairs of lost fragments, out of up to 255, can be recovered from them if and only if q - p
   * has no factor 3, 5 or 17 in common with 255.
   */
  lemma PairRowsExact(p: (nat, Bytes), q: (nat, Bytes))
    requires p.0 < q.0
    ensures (forall i, j | 0 <= i < j < 255 :: Nonsingular(Coefficients([p, q], [i, j]))) <==> Coprime(q.0 - p.0)
  {
    hide Nonsingular, Mul, Coef, Coefficients;
    var d := q.0 - p.0;
    if Coprime(d) {
      forall i, j | 0 <= i < j < 255 ensures Nonsingular(Coefficients([p, q], [i, j])) {
        CoprimeTells(p.0, q.0, i, j);
        PairExactly(p, q, i, j);
      }
    } else {
      var r := if d % 3 == 0 then 3 else if d % 5 == 0 then 5 else 17;
      var j := SharedFactor(p.0, q.0, r);
      PairExactly(p, q, 0, j);
    }
  }
}
