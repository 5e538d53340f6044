/**
 * When elimination finds every pivot. The rows the sender really emits, {0, 1, 2}, always work for up to 255 data
 * fragments; other rows, and more fragments, do not.
 */
module Vandermonde {
  import opened Collections
  import opened Options
  import opened Gf256
  import opened GfMatrix
  import opened Elimination
  import opened ReedSolomon

  lemma SquareSum(a: Byte, b: Byte)
    ensures Mul(Add(a, b), Add(a, b)) == Add(Mul(a, a), Mul(b, b))
  {
    hide Add, Mul;
    var aa, ab, ba, bb := Mul(a, a), Mul(a, b), Mul(b, a), Mul(b, b);
    MulDistributes(a, b, Add(a, b));
    MulDistributes(a, b, a);
    MulDistributes(a, b, b);
    MulCommutes(a, b);
    AddAssociates(aa, ab, Add(ab, bb));
    AddAssociates(ab, ab, bb);
    AddSelf(ab, ab);
    AddZero(bb);
  }

  lemma SquareInjective(a: Byte, b: Byte)
    requires Mul(a, a) == Mul(b, b)
    ensures a == b
  {
    hide Add, Mul;
    SquareSum(a, b);
    AddSelf(Mul(a, a), Mul(b, b));
    NoZeroDivisors(Add(a, b), Add(a, b));
    AddSelf(a, b);
  }

  // ----- Power sums -----

  /** The p-th powers. */
  function Powers(x: Vector, p: nat): (r: Vector)
    ensures |r| == |x| && forall i | 0 <= i < |x| :: r[i] == Pow(x[i], p)
  {
    seq(|x|, i requires 0 <= i < |x| => Pow(x[i], p))
  }

  /** Each v[i] times the difference of x[i] and y. */
  function Twisted(x: Vector, v: Vector, y: Byte): (r: Vector)
    requires |x| == |v|
    ensures |r| == |x| && forall i | 0 <= i < |x| :: r[i] == Mul(Add(x[i], y), v[i])
  {
    seq(|x|, i requires 0 <= i < |x| => Mul(Add(x[i], y), v[i]))
  }

  lemma {:induction false} DotSame(a: Vector, w: Vector, b: Vector, v: Vector)
    requires |a| == |w| == |b| == |v| && forall i | 0 <= i < |a| :: Mul(a[i], w[i]) == Mul(b[i], v[i])
    ensures Dot(a, w) == Dot(b, v)
  {
    hide Add, Mul;
    if a != [] {
      DotSame(a[1..], w[1..], b[1..], v[1..]);
    }
  }

  lemma TwistOne(x: Byte, p: nat, y: Byte, v: Byte)
    ensures Mul(Pow(x, p), Mul(Add(x, y), v)) == Mul(Add(Pow(x, p + 1), Mul(y, Pow(x, p))), v)
  {
    hide Add, Mul;
    var q := Pow(x, p);
    MulAssociates(q, Add(x, y), v);
    MulDistributes(x, y, q);
    MulCommutes(q, y);
  }

  /** Twisting turns the sum of p-th powers into a combination of two neighbouring sums. */
  lemma TwistedSum(x: Vector, v: Vector, y: Byte, p: nat)
    requires |x| == |v|
    ensures Dot(Powers(x, p), Twisted(x, v, y)) == Add(Dot(Powers(x, p + 1), v), Mul(y, Dot(Powers(x, p), v)))
  {
    hide Add, Mul, Pow, Dot;
    var mixed := AddScaled(Powers(x, p + 1), y, Powers(x, p));
    forall i | 0 <= i < |x|
      ensures Mul(Powers(x, p)[i], Twisted(x, v, y)[i]) == Mul(mixed[i], v[i])
    {
      TwistOne(x[i], p, y, v[i]);
    }
    DotSame(Powers(x, p), Twisted(x, v, y), mixed, v);
    DotAddScaled(Powers(x, p + 1), y, Powers(x, p), v);
  }

  lemma DotHead(a: Vector, v: Vector)
    requires |a| == |v| > 0
    ensures Dot(a, v) == Add(Mul(a[0], v[0]), Dot(a[1..], v[1..]))
  {}

  /** Twisting by the first of the x drops it from every sum. */
  lemma TwistedTail(x: Vector, v: Vector, p: nat)
    requires |x| == |v| > 0
    requires Dot(Powers(x, p), v) == 0 && Dot(Powers(x, p + 1), v) == 0
    ensures Dot(Powers(x[1..], p), Twisted(x, v, x[0])[1..]) == 0
  {
    hide Add, Mul, Pow, Dot;
    var w := Twisted(x, v, x[0]);
    TwistedSum(x, v, x[0], p);
    MulZero(x[0]);
    AddZero(0);
    DotHead(Powers(x, p), w);
    assert Powers(x, p)[1..] == Powers(x[1..], p);
    AddSelf(x[0], x[0]);
    MulZero(v[0]);
    MulZero(Pow(x[0], p));
    AddZero(Dot(Powers(x[1..], p), w[1..]));
  }

  lemma {:induction false} PowNonzero(x: Byte, p: nat)
    requires p == 0 || x != 0
    ensures Pow(x, p) != 0
  {
    hide Mul;
    if p > 0 {
      PowNonzero(x, p - 1);
      if Mul(Pow(x, p - 1), x) == 0 {
        NoZeroDivisors(Pow(x, p - 1), x);
      }
    }
  }

  ghost predicate Distinct(x: Vector) {
    forall i, j | 0 <= i < j < |x| :: x[i] != x[j]
  }

  /** As many successive power sums as there are distinct x vanish only for zero coefficients. */
  lemma {:induction false} PowerSums(x: Vector, v: Vector, b: nat)
    requires |x| == |v| && Distinct(x) && (b == 0 || forall i | 0 <= i < |x| :: x[i] != 0)
    requires forall p | b <= p < b + |x| :: Dot(Powers(x, p), v) == 0
    ensures forall i | 0 <= i < |v| :: v[i] == 0
    decreases |x|
  {
    hide Add, Mul, Pow, Dot;
    if x != [] {
      var w := Twisted(x, v, x[0]);
      forall p | b <= p < b + |x| - 1 ensures Dot(Powers(x[1..], p), w[1..]) == 0 {
        assert Dot(Powers(x, p + 1), v) == 0;
        TwistedTail(x, v, p);
      }
      PowerSums(x[1..], w[1..], b);
      forall i | 0 < i < |v| ensures v[i] == 0 {
        assert w[1..][i - 1] == 0;
        NoZeroDivisors(Add(x[i], x[0]), v[i]);
        AddSelf(x[i], x[0]);
      }
      DotPick(Powers(x, b), 0, v);
      PowNonzero(x[0], b);
      NoZeroDivisors(Pow(x[0], b), v[0]);
    }
  }

  // ----- The coefficients of the first 255 fragments -----

  lemma DistinctBases(i: nat, j: nat)
    requires i < 255 && j < 255
    ensures Base(i) != 0
    ensures Base(i) == Base(j) ==> i == j
  {
    ByteRoundTrip(i + 1);
    ByteRoundTrip(j + 1);
  }

  // ----- Successive rows -----

  /** The first m parity rows are b .. b + m - 1 in some order. */
  ghost predicate Successive(parity: seq<(nat, Bytes)>, m: nat, b: nat)
    requires m <= |parity|
  {
    && (forall r | 0 <= r < m :: b <= parity[r].0 < b + m)
    && (forall r, s | 0 <= r < s < m :: parity[r].0 != parity[s].0)
  }

  /** Each row of the range occurs. */
  lemma RowOccurs(parity: seq<(nat, Bytes)>, m: nat, b: nat, p: nat)
    requires m <= |parity| && Successive(parity, m, b) && b <= p < b + m
    ensures exists r :: 0 <= r < m && parity[r].0 == p
  {
    var rows := seq(m, r requires 0 <= r < m => parity[r].0 - b);
    DistinctSize(rows);
    var used := set q | q in rows;
    if p - b !in used {
      SubsetSize(used, Below(m) - {p - b});
    }
    assert p - b in rows;
  }

  function BasesOf(missing: seq<nat>): (x: Vector)
    ensures |x| == |missing| && forall c | 0 <= c < |x| :: x[c] == Base(missing[c])
  {
    seq(|missing|, c requires 0 <= c < |missing| => Base(missing[c]))
  }

  lemma RowIsPowers(p: nat, missing: seq<nat>)
    ensures CoefAt(p, missing) == Powers(BasesOf(missing), p)
  {}

  lemma SuccessiveKernel(parity: seq<(nat, Bytes)>, missing: seq<nat>, b: nat, v: Vector)
    requires |v| == |missing| <= |parity| && Successive(parity, |missing|, b)
    requires BasesDistinct(missing) && (b == 0 || BasesNonzero(missing))
    requires Annihilates(Coefficients(parity, missing), v)
    ensures v == Zeros(|missing|)
  {
    hide Pow, Base, Dot, Coef;
    var m, x := |missing|, BasesOf(missing);
    forall p | b <= p < b + m ensures Dot(Powers(x, p), v) == 0 {
      RowOccurs(parity, m, b, p);
      var r :| 0 <= r < m && parity[r].0 == p;
      RowIsPowers(p, missing);
      assert Dot(Coefficients(parity, missing)[r], v) == 0;
    }
    PowerSums(x, v, b);
  }

  /**
   * Any number of successive rows, not only three: the coefficient matrix is nonsingular if and only if the bases of
   * the lost fragments differ and, unless the rows start at 0, none is zero.
   */
  lemma SuccessiveExact(parity: seq<(nat, Bytes)>, missing: seq<nat>, b: nat)
    requires |missing| <= |parity| && Successive(parity, |missing|, b)
    ensures Nonsingular(Coefficients(parity, missing))
       <==> BasesDistinct(missing) && (b == 0 || BasesNonzero(missing))
  {
    hide Annihilates, Base, Successive;
    if c, d :| 0 <= c < d < |missing| && Base(missing[c]) == Base(missing[d]) {
      EqualColumns(parity, missing, c, d);
    } else if b > 0 && !BasesNonzero(missing) {
      var c :| 0 <= c < |missing| && Base(missing[c]) == 0;
      RowsPositive(parity, |missing|, b);
      ZeroBase(parity, missing, c);
    } else {
      forall v: Vector | |v| == |missing| && Annihilates(Coefficients(parity, missing), v)
        ensures v == Zeros(|missing|)
      {
        SuccessiveKernel(parity, missing, b, v);
      }
    }
  }

  lemma RowsPositive(parity: seq<(nat, Bytes)>, m: nat, b: nat)
    requires m <= |parity| && Successive(parity, m, b) && b > 0
    ensures !UsesXorRow(parity, m)
  {}

  /** So up to 255 fragments, any parities of successive rows starting at 0 recover as many losses. */
  lemma SuccessiveRecovers(data: seq<Option<Bytes>>, parity: seq<(nat, Bytes)>)
    requires |data| <= 255 && |Missing(data)| <= |parity| && Successive(parity, |Missing(data)|, 0)
    ensures Recoverable(data, parity)
  {
    hide Base, Nonsingular, Successive;
    var missing := Missing(data);
    forall c, d | 0 <= c < d < |missing| ensures Base(missing[c]) != Base(missing[d]) {
      DistinctBases(missing[c], missing[d]);
    }
    SuccessiveExact(parity, missing, 0);
  }

  // ----- Rows 0, 1 and 2 -----

  /** The parity rows used, for m lost fragments, are distinct and among those a sender emits. */
  ghost predicate SenderRows(parity: seq<(nat, Bytes)>, m: nat)
    requires m <= |parity|
  {
    && (forall r | 0 <= r < m :: parity[r].0 <= 2)
    && (forall r, s | 0 <= r < s < m :: parity[r].0 != parity[s].0)
  }

  ghost predicate UsesXorRow(parity: seq<(nat, Bytes)>, m: nat)
    requires m <= |parity|
  {
    exists r :: 0 <= r < m && parity[r].0 == 0
  }

  ghost predicate BasesDistinct(missing: seq<nat>) {
    forall c, d | 0 <= c < d < |missing| :: Base(missing[c]) != Base(missing[d])
  }

  ghost predicate BasesNonzero(missing: seq<nat>) {
    forall c | 0 <= c < |missing| :: Base(missing[c]) != 0
  }

  lemma Squares(x: Byte)
    ensures Pow(x, 2) == Mul(x, x) && Pow(Mul(x, x), 1) == Mul(x, x) && Pow(x, 0) == 1
  {
    hide Mul;
    MulOne(x);
    MulOne(Mul(x, x));
    assert Pow(x, 2) == Mul(Pow(x, 1), x);
  }

  /** Rows 0 and 2: the sums of squares are first powers of the squares, which differ as the bases do. */
  lemma GapKernel(parity: seq<(nat, Bytes)>, missing: seq<nat>, v: Vector)
    requires |v| == |missing| == 2 <= |parity| && BasesDistinct(missing)
    requires {parity[0].0, parity[1].0} == {0, 2}
    requires Annihilates(Coefficients(parity, missing), v)
    ensures v == Zeros(2)
  {
    hide Add, Mul, Pow, Base, Dot, Coef;
    var x := BasesOf(missing);
    var y := [Mul(x[0], x[0]), Mul(x[1], x[1])];
    Squares(x[0]);
    Squares(x[1]);
    Squares(y[0]);
    Squares(y[1]);
    if y[0] == y[1] {
      SquareInjective(x[0], x[1]);
    }
    RowIsPowers(0, missing);
    RowIsPowers(2, missing);
    assert Powers(y, 0) == Powers(x, 0) && Powers(y, 1) == Powers(x, 2);
    assert Dot(Coefficients(parity, missing)[0], v) == 0 == Dot(Coefficients(parity, missing)[1], v);
    assert 0 in {parity[0].0, parity[1].0} && 2 in {parity[0].0, parity[1].0};
    PowerSums(y, v, 0);
  }

  lemma KernelTrivial(parity: seq<(nat, Bytes)>, missing: seq<nat>, v: Vector)
    requires |missing| <= |parity| && |v| == |missing| && SenderRows(parity, |missing|)
    requires BasesDistinct(missing) && (UsesXorRow(parity, |missing|) || BasesNonzero(missing))
    requires Annihilates(Coefficients(parity, missing), v)
    ensures v == Zeros(|missing|)
  {
    hide Annihilates, BasesDistinct, BasesNonzero;
    var m := |missing|;
    AtMostThree(parity, m);
    if m == 2 && {parity[0].0, parity[1].0} == {0, 2} {
      GapKernel(parity, missing, v);
    } else {
      var b := if UsesXorRow(parity, m) then 0 else if m == 1 then parity[0].0 else 1;
      SenderRange(parity, m, b);
      SuccessiveKernel(parity, missing, b, v);
    }
  }

  lemma SenderRange(parity: seq<(nat, Bytes)>, m: nat, b: nat)
    requires m <= |parity| && m <= 3 && SenderRows(parity, m)
    requires b == if UsesXorRow(parity, m) then 0 else if m == 1 then parity[0].0 else 1
    requires !(m == 2 && {parity[0].0, parity[1].0} == {0, 2})
    ensures Successive(parity, m, b)
  {
    if m == 2 {
      assert parity[0].0 != parity[1].0;
    }
  }

  lemma AtMostThree(parity: seq<(nat, Bytes)>, m: nat)
    requires m <= |parity| && SenderRows(parity, m)
    ensures m <= 3
  {
    var rows := seq(m, r requires 0 <= r < m => parity[r].0);
    DistinctSize(rows);
    var used := set p | p in rows;
    SubsetSize(used, Below(3));
  }

  /** Two lost fragments with the same coefficients cannot be told apart. */
  lemma EqualColumns(parity: seq<(nat, Bytes)>, missing: seq<nat>, c: nat, d: nat)
    requires |missing| <= |parity| && c < d < |missing|
    requires forall r | 0 <= r < |missing| :: Coef(parity[r].0, missing[c]) == Coef(parity[r].0, missing[d])
    ensures !Nonsingular(Coefficients(parity, missing))
  {
    hide Add, Mul, Coef, Base, Dot;
    var n, a := |missing|, Coefficients(parity, missing);
    var v := Unit(n, c)[d := 1];
    forall r | 0 <= r < n ensures Dot(a[r], v) == 0 {
      DotSymmetric(a[r], v);
      DotUpdate(v, c, a[r]);
      DotPick(v[c := 0], d, a[r]);
      MulOne(a[r][c]);
      AddCancels(Dot(v, a[r]), a[r][c]);
    }
    assert v[c] != Zeros(n)[c];
  }

  /** A lost fragment with coefficient base 0 leaves no trace in parities 1 and 2. */
  lemma ZeroBase(parity: seq<(nat, Bytes)>, missing: seq<nat>, c: nat)
    requires |missing| <= |parity| && c < |missing| && Base(missing[c]) == 0 && !UsesXorRow(parity, |missing|)
    ensures !Nonsingular(Coefficients(parity, missing))
  {
    hide Add, Mul, Pow, Base, Dot;
    var n, a := |missing|, Coefficients(parity, missing);
    forall r | 0 <= r < n ensures Dot(a[r], Unit(n, c)) == 0 {
      assert parity[r].0 != 0;
      PowZero(parity[r].0);
      DotPick(a[r], c, Unit(n, c));
      MulOne(a[r][c]);
    }
    assert Unit(n, c)[c] != Zeros(n)[c];
  }

  /** For the rows a sender emits, exactly which losses can be recovered. */
  lemma SenderRowsExact(parity: seq<(nat, Bytes)>, missing: seq<nat>)
    requires |missing| <= |parity| && SenderRows(parity, |missing|)
    ensures Nonsingular(Coefficients(parity, missing))
       <==> BasesDistinct(missing) && (UsesXorRow(parity, |missing|) || BasesNonzero(missing))
  {
    hide Annihilates, Base;
    var a := Coefficients(parity, missing);
    if c, d :| 0 <= c < d < |missing| && Base(missing[c]) == Base(missing[d]) {
      EqualColumns(parity, missing, c, d);
    } else if !UsesXorRow(parity, |missing|) && !BasesNonzero(missing) {
      var c :| 0 <= c < |missing| && Base(missing[c]) == 0;
      ZeroBase(parity, missing, c);
    } else {
      forall v: Vector | |v| == |missing| && Annihilates(a, v) ensures v == Zeros(|missing|) {
        KernelTrivial(parity, missing, v);
      }
    }
  }

  /** Recovery always succeeds for at most 255 fragments and no more losses than distinct sender parities. */
  lemma RecoveryAlwaysSucceeds(data: seq<Option<Bytes>>, parity: seq<(nat, Bytes)>)
    requires |data| <= 255 && |Missing(data)| <= |parity| && SenderRows(parity, |parity|)
    ensures Recoverable(data, parity)
  {
    hide Base, Nonsingular;
    var missing := Missing(data);
    forall c, d | 0 <= c < d < |missing| ensures Base(missing[c]) != Base(missing[d]) {
      DistinctBases(missing[c], missing[d]);
    }
    forall c | 0 <= c < |missing| ensures Base(missing[c]) != 0 {
      DistinctBases(missing[c], missing[c]);
    }
    SenderRowsExact(parity, missing);
  }

  // ----- Where the code falls short of the interface's promise that any p parities recover any p losses -----

  /** With 257 fragments, losing the first and the last defeats any two parities. */
  lemma TooManyFragments(first: (nat, Bytes), second: (nat, Bytes))
    ensures !Nonsingular(Coefficients([first, second], [0, 256]))
  {
    EqualColumns([first, second], [0, 256], 0, 1);
  }

  lemma CubeRootOfOne() returns (j: nat)
    ensures 0 < j < 255 && Pow(Base(j), 3) == 1
  {
    hide Exp, Mul, Pow, Base;
    Order();
    PowExp(85, 3);
    ByteRoundTrip(1);
    j := PowerIndex(85);
    ByteValues(Exp(85), 1);
    BaseOf(j, Exp(85));
  }

  lemma BaseOf(j: nat, x: Byte)
    requires j < 255 && j + 1 == x as nat
    ensures Base(j) == x
  {
    ByteRoundTrip(j + 1);
    ByteValues((j + 1) as Byte, x);
  }

  lemma FirstFragment()
    ensures Coef(3, 0) == 1
  {
    hide Mul;
    MulOne(1);
    assert Pow(1, 1) == 1;
    assert Pow(1, 2) == 1;
  }

  /** Rows 0 and 3 fail for a pair of fragments well below 255: cubing is not injective in this field. */
  lemma CubeRowSingular(first: Bytes, second: Bytes) returns (j: nat)
    ensures 0 < j < 255
    ensures !Nonsingular(Coefficients([(0, first), (3, second)], [0, j]))
  {
    hide Mul, Base, Nonsingular;
    j := CubeRootOfOne();
    FirstFragment();
    assert Coef(0, 0) == Coef(0, j) == 1;
    hide Pow;
    EqualColumns([(0, first), (3, second)], [0, j], 0, 1);
  }
}
