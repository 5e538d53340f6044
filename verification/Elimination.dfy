/** Gauss-Jordan elimination of the decoder, over the coefficient matrix and the syndromes together. */
module Elimination {
  import opened Gf256
  import opened GfTables
  import opened GfMatrix

  /** The syndromes as extra columns of the coefficient matrix. */
  function Join(a: Matrix, syn: Matrix): (m: Matrix)
    requires |a| == |syn|
    ensures |m| == |a| && forall r | 0 <= r < |a| :: m[r] == a[r] + syn[r]
  {
    seq(|a|, r requires 0 <= r < |a| => a[r] + syn[r])
  }

  function Identity(n: nat): (m: Matrix)
    ensures |m| == n && forall r | 0 <= r < n :: m[r] == Unit(n, r)
  {
    seq(n, r requires 0 <= r < n => Unit(n, r))
  }

  /** The first col columns are those of the identity. */
  ghost predicate Reduced(a: Matrix, col: nat) {
    forall r, c | 0 <= r < |a| && 0 <= c < col && c < |a[r]| :: a[r][c] == if r == c then 1 else 0
  }

  ghost predicate System(a: Matrix, syn: Matrix, width: nat) {
    Shape(a, |a|, |a|) && Shape(syn, |a|, width)
  }

  ghost predicate SameSystem(a: Matrix, syn: Matrix, b: Matrix, tyn: Matrix, width: nat)
    requires System(a, syn, width) && System(b, tyn, width) && |a| == |b|
  {
    RowEquivalent(Join(a, syn), Join(b, tyn), |a|, |a| + width)
  }

  // ----- Row operations on the joined system -----

  lemma SwapSystem(a: Matrix, syn: Matrix, i: nat, j: nat, width: nat)
    requires System(a, syn, width) && i < |a| && j < |a|
    ensures SameSystem(a, syn, a[i := a[j]][j := a[i]], syn[i := syn[j]][j := syn[i]], width)
  {
    var m := Join(a, syn);
    SwapRows(m, i, j, |a|, |a| + width);
    assert Join(a[i := a[j]][j := a[i]], syn[i := syn[j]][j := syn[i]]) == m[i := m[j]][j := m[i]];
  }

  lemma ScaleSystem(a: Matrix, syn: Matrix, i: nat, s: Byte, width: nat)
    requires System(a, syn, width) && i < |a| && s != 0
    ensures SameSystem(a, syn, a[i := Scale(a[i], s)], syn[i := Scale(syn[i], s)], width)
  {
    hide Mul;
    var m := Join(a, syn);
    ScaleRow(m, i, s, |a|, |a| + width);
    assert Scale(a[i], s) + Scale(syn[i], s) == Scale(m[i], s);
    assert Join(a[i := Scale(a[i], s)], syn[i := Scale(syn[i], s)]) == m[i := Scale(m[i], s)];
  }

  lemma AddSystem(a: Matrix, syn: Matrix, i: nat, f: Byte, p: nat, width: nat)
    requires System(a, syn, width) && i < |a| && p < |a| && i != p
    ensures SameSystem(a, syn, a[i := AddScaled(a[i], f, a[p])], syn[i := AddScaled(syn[i], f, syn[p])], width)
  {
    hide Mul, Add, Dot, Annihilates, AddScaled;
    var m := Join(a, syn);
    AddRow(m, i, f, p, |a|, |a| + width);
    assert AddScaled(a[i], f, a[p]) + AddScaled(syn[i], f, syn[p]) == AddScaled(m[i], f, m[p]);
    assert Join(a[i := AddScaled(a[i], f, a[p])], syn[i := AddScaled(syn[i], f, syn[p])])
        == m[i := AddScaled(m[i], f, m[p])];
  }

  lemma SameSystemSelf(a: Matrix, syn: Matrix, width: nat)
    requires System(a, syn, width)
    ensures SameSystem(a, syn, a, syn, width)
  {}

  lemma SameSystemTrans(a: Matrix, syn: Matrix, b: Matrix, tyn: Matrix, c: Matrix, uyn: Matrix, width: nat)
    requires System(a, syn, width) && System(b, tyn, width) && System(c, uyn, width) && |a| == |b| == |c|
    requires SameSystem(a, syn, b, tyn, width) && SameSystem(b, tyn, c, uyn, width)
    ensures SameSystem(a, syn, c, uyn, width)
  {
    hide Dot;
    forall w: Vector | |w| == |a| + width
      ensures Annihilates(Join(a, syn), w) <==> Annihilates(Join(c, uyn), w)
    {
      assert Annihilates(Join(a, syn), w) <==> Annihilates(Join(b, tyn), w);
      assert Annihilates(Join(b, tyn), w) <==> Annihilates(Join(c, uyn), w);
    }
  }

  /** Adding a multiple of the reduced pivot row keeps the reduced columns and clears the pivot column. */
  lemma ClearedRow(row: Vector, pivotRow: Vector, col: nat)
    requires |row| == |pivotRow| && col < |row|
    requires pivotRow[col] == 1 && forall c | 0 <= c < col :: pivotRow[c] == 0
    ensures var r := AddScaled(row, row[col], pivotRow);
            r[col] == 0 && forall c | 0 <= c < col :: r[c] == row[c]
  {
    MulOne(row[col]);
    AddSelf(row[col], row[col]);
    MulZero(row[col]);
    forall c | 0 <= c < col ensures Add(row[c], 0) == row[c] {
      AddZero(row[c]);
    }
  }

  lemma NormalizedRow(row: Vector, col: nat, inverse: Byte)
    requires col < |row| && Mul(row[col], inverse) == 1 && forall c | 0 <= c < col :: row[c] == 0
    ensures var r := Scale(row, inverse);
            r[col] == 1 && forall c | 0 <= c < col :: r[c] == 0
  {
    MulZero(inverse);
  }

  // ----- What the joined system says about coefficients alone -----

  /** Dropping the syndromes from an equivalence keeps the kernel of the coefficients. */
  lemma KernelOfCoefficients(a: Matrix, syn: Matrix, b: Matrix, tyn: Matrix, width: nat, v: Vector)
    requires System(a, syn, width) && System(b, tyn, width) && |a| == |b| == |v|
    requires SameSystem(a, syn, b, tyn, width)
    ensures Annihilates(a, v) <==> Annihilates(b, v)
  {
    var w := v + Zeros(width);
    JoinedKernel(a, syn, width, v);
    JoinedKernel(b, tyn, width, v);
    assert Annihilates(Join(a, syn), w) <==> Annihilates(Join(b, tyn), w);
  }

  lemma JoinedKernel(a: Matrix, syn: Matrix, width: nat, v: Vector)
    requires System(a, syn, width) && |a| == |v|
    ensures Annihilates(Join(a, syn), v + Zeros(width)) <==> Annihilates(a, v)
  {
    forall r | 0 <= r < |a| ensures Dot(Join(a, syn)[r], v + Zeros(width)) == Dot(a[r], v) {
      DotConcat(a[r], syn[r], v, Zeros(width));
      DotZeros(syn[r], Zeros(width));
      AddZero(Dot(a[r], v));
    }
    if Annihilates(Join(a, syn), v + Zeros(width)) {
      forall r | 0 <= r < |a| ensures Dot(a[r], v) == 0 {
        assert Dot(Join(a, syn)[r], v + Zeros(width)) == 0;
      }
    }
  }

  /** A column with no pivot leaves a nonzero kernel vector. */
  lemma NoPivot(a: Matrix, col: nat)
    requires Shape(a, |a|, |a|) && col < |a| && Reduced(a, col)
    requires forall r | col <= r < |a| :: a[r][col] == 0
    ensures exists v: Vector :: |v| == |a| && Annihilates(a, v) && v != Zeros(|a|)
  {
    var n := |a|;
    var v := seq(n, c requires 0 <= c < n => if c < col then a[c][col] else if c == col then 1 else 0);
    assert v[col] != Zeros(n)[col];
    forall r | 0 <= r < n ensures Dot(a[r], v) == 0 {
      if r < col {
        UnitRow(a[r], v, r, col);
      } else {
        DotZeros(a[r], v);
      }
    }
  }

  /** Only the entries r and col contribute, and they cancel. */
  lemma UnitRow(row: Vector, v: Vector, r: nat, col: nat)
    requires |row| == |v| && r < col < |v| && row[r] == 1 && forall c | 0 <= c < col && c != r :: row[c] == 0
    requires v[r] == row[col] && v[col] == 1 && forall c | col < c < |v| :: v[c] == 0
    ensures Dot(row, v) == 0
  {
    hide Add, Mul, Dot;
    var x := v[r := 0];
    DotPick(x, col, row);
    DotSymmetric(row, v);
    DotUpdate(v, r, row);
    MulOne(row[col]);
    AddSelf(Dot(v, row), row[col]);
    AddCancels(Dot(v, row), row[col]);
  }

  lemma AddCancels(a: Byte, b: Byte)
    requires Add(a, b) == b
    ensures a == 0
  {}

  lemma {:induction false} DotSymmetric(x: Vector, y: Vector)
    requires |x| == |y|
    ensures Dot(x, y) == Dot(y, x)
  {
    if x != [] {
      MulCommutes(x[0], y[0]);
      DotSymmetric(x[1..], y[1..]);
    }
  }

  lemma IdentityNonsingular(n: nat)
    ensures Nonsingular(Identity(n))
  {
    forall w: Vector | |w| == n && Annihilates(Identity(n), w) ensures w == Zeros(n) {
      forall k | 0 <= k < n ensures w[k] == 0 {
        DotPick(Unit(n, k), k, w);
        MulOne(w[k]);
        assert Dot(Identity(n)[k], w) == 0;
      }
    }
  }

  lemma ReducedIsIdentity(a: Matrix)
    requires Shape(a, |a|, |a|) && Reduced(a, |a|)
    ensures a == Identity(|a|)
  {
    forall r | 0 <= r < |a| ensures a[r] == Identity(|a|)[r] {}
  }
}
