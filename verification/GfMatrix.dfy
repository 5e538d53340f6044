/** Row operations on matrices over GF(2^8): what Gaussian elimination may do without changing the solutions. */
module GfMatrix {
  import opened Gf256

  type Vector = seq<Byte>
  type Matrix = seq<Vector>

  function Dot(x: Vector, y: Vector): Byte
    requires |x| == |y|
  {
    if x == [] then 0 else Add(Mul(x[0], y[0]), Dot(x[1..], y[1..]))
  }

  function Scale(x: Vector, s: Byte): (r: Vector)
    ensures |r| == |x| && forall i | 0 <= i < |x| :: r[i] == Mul(x[i], s)
  {
    seq(|x|, i requires 0 <= i < |x| => Mul(x[i], s))
  }

  /** x + f * y, entry by entry. */
  function AddScaled(x: Vector, f: Byte, y: Vector): (r: Vector)
    requires |x| == |y|
    ensures |r| == |x| && forall i | 0 <= i < |x| :: r[i] == Add(x[i], Mul(f, y[i]))
  {
    seq(|x|, i requires 0 <= i < |x| => Add(x[i], Mul(f, y[i])))
  }

  function Zeros(n: nat): (r: Vector)
    ensures |r| == n && forall i | 0 <= i < n :: r[i] == 0
  {
    seq(n, i => 0)
  }

  function Unit(n: nat, k: nat): (r: Vector)
    requires k < n
    ensures |r| == n && forall i | 0 <= i < n :: r[i] == if i == k then 1 else 0
  {
    seq(n, i => if i == k then 1 else 0)
  }

  lemma {:induction false} DotConcat(x: Vector, u: Vector, y: Vector, v: Vector)
    requires |x| == |y| && |u| == |v|
    ensures Dot(x + u, y + v) == Add(Dot(x, y), Dot(u, v))
  {
    if x == [] {
      assert x + u == u && y + v == v;
      AddZero(Dot(u, v));
    } else {
      assert (x + u)[1..] == x[1..] + u && (y + v)[1..] == y[1..] + v;
      DotConcat(x[1..], u, y[1..], v);
      AddAssociates(Mul(x[0], y[0]), Dot(x[1..], y[1..]), Dot(u, v));
    }
  }

  lemma {:induction false} DotScale(x: Vector, s: Byte, y: Vector)
    requires |x| == |y|
    ensures Dot(Scale(x, s), y) == Mul(s, Dot(x, y))
  {
    if x == [] {
      MulZero(s);
    } else {
      assert Scale(x, s)[1..] == Scale(x[1..], s);
      DotScale(x[1..], s, y[1..]);
      MulCommutes(x[0], s);
      MulAssociates(s, x[0], y[0]);
      MulDistributes(Mul(x[0], y[0]), Dot(x[1..], y[1..]), s);
    }
  }

  lemma {:induction false} DotAddScaled(x: Vector, f: Byte, z: Vector, y: Vector)
    requires |x| == |y| == |z|
    ensures Dot(AddScaled(x, f, z), y) == Add(Dot(x, y), Mul(f, Dot(z, y)))
  {
    if x == [] {
      MulZero(f);
    } else {
      assert AddScaled(x, f, z)[1..] == AddScaled(x[1..], f, z[1..]);
      DotAddScaled(x[1..], f, z[1..], y[1..]);
      MulDistributes(x[0], Mul(f, z[0]), y[0]);
      MulAssociates(f, z[0], y[0]);
      MulDistributes(Mul(z[0], y[0]), Dot(z[1..], y[1..]), f);
      Interchange(Mul(x[0], y[0]), Mul(f, Mul(z[0], y[0])), Dot(x[1..], y[1..]), Mul(f, Dot(z[1..], y[1..])));
    }
  }

  lemma {:induction false} DotZeros(x: Vector, y: Vector)
    requires |x| == |y| && forall i | 0 <= i < |x| :: x[i] == 0 || y[i] == 0
    ensures Dot(x, y) == 0
  {
    if x != [] {
      DotZeros(x[1..], y[1..]);
      MulZero(x[0]);
      MulZero(y[0]);
    }
  }

  /** A vector that is zero but at one place picks that entry. */
  lemma {:induction false} DotPick(x: Vector, k: nat, y: Vector)
    requires |x| == |y| && k < |x|
    requires forall i | 0 <= i < |x| && i != k :: x[i] == 0 || y[i] == 0
    ensures Dot(x, y) == Mul(x[k], y[k])
  {
    hide Mul, Add;
    if k == 0 {
      DotZeros(x[1..], y[1..]);
      AddZero(Mul(x[0], y[0]));
    } else {
      DotPick(x[1..], k - 1, y[1..]);
      MulZero(x[0]);
      MulZero(y[0]);
      AddZero(Mul(x[k], y[k]));
    }
  }

  lemma {:induction false} DotUpdate(x: Vector, k: nat, y: Vector)
    requires |x| == |y| && k < |x|
    ensures Dot(x[k := 0], y) == Add(Dot(x, y), Mul(x[k], y[k]))
  {
    if k == 0 {
      assert x[0 := 0][1..] == x[1..];
      MulZero(y[0]);
      var m, d := Mul(x[0], y[0]), Dot(x[1..], y[1..]);
      AddZero(d);
      AddCommutes(m, d);
      AddTwice(d, m);
    } else {
      assert x[k := 0][1..] == x[1..][k - 1 := 0];
      DotUpdate(x[1..], k - 1, y[1..]);
      AddAssociates(Mul(x[0], y[0]), Dot(x[1..], y[1..]), Mul(x[k], y[k]));
    }
  }

  // ----- Matrices -----

  ghost predicate Shape(m: Matrix, rows: nat, cols: nat) {
    |m| == rows && forall r | 0 <= r < rows :: |m[r]| == cols
  }

  /** Every row of m is orthogonal to w. */
  ghost predicate Annihilates(m: Matrix, w: Vector)
    requires forall r | 0 <= r < |m| :: |m[r]| == |w|
  {
    forall r | 0 <= r < |m| :: Dot(m[r], w) == 0
  }

  /** The two matrices have the same kernel: as systems of equations, the same solutions. */
  ghost predicate RowEquivalent(m: Matrix, k: Matrix, rows: nat, cols: nat)
    requires Shape(m, rows, cols) && Shape(k, rows, cols)
  {
    forall w: Vector | |w| == cols :: Annihilates(m, w) <==> Annihilates(k, w)
  }

  ghost predicate Nonsingular(m: Matrix) {
    && (forall r | 0 <= r < |m| :: |m[r]| == |m|)
    && forall w: Vector | |w| == |m| && Annihilates(m, w) :: w == Zeros(|m|)
  }

  lemma SwapRows(m: Matrix, i: nat, j: nat, rows: nat, cols: nat)
    requires Shape(m, rows, cols) && i < rows && j < rows
    ensures RowEquivalent(m, m[i := m[j]][j := m[i]], rows, cols)
  {
    var k := m[i := m[j]][j := m[i]];
    forall w: Vector | |w| == cols ensures Annihilates(m, w) <==> Annihilates(k, w) {
      if Annihilates(k, w) {
        assert Dot(k[i], w) == 0 && Dot(k[j], w) == 0;
        forall r | 0 <= r < rows ensures Dot(m[r], w) == 0 {
          assert Dot(k[r], w) == 0;
        }
      }
    }
  }

  lemma ScaleRow(m: Matrix, i: nat, s: Byte, rows: nat, cols: nat)
    requires Shape(m, rows, cols) && i < rows && s != 0
    ensures RowEquivalent(m, m[i := Scale(m[i], s)], rows, cols)
  {
    var k := m[i := Scale(m[i], s)];
    forall w: Vector | |w| == cols ensures Annihilates(m, w) <==> Annihilates(k, w) {
      DotScale(m[i], s, w);
      MulZero(s);
      if Annihilates(k, w) {
        assert Dot(k[i], w) == 0;
        NoZeroDivisors(s, Dot(m[i], w));
        forall r | 0 <= r < rows ensures Dot(m[r], w) == 0 {
          assert Dot(k[r], w) == 0;
        }
      }
    }
  }

  lemma AddRow(m: Matrix, i: nat, f: Byte, p: nat, rows: nat, cols: nat)
    requires Shape(m, rows, cols) && i < rows && p < rows && i != p
    ensures RowEquivalent(m, m[i := AddScaled(m[i], f, m[p])], rows, cols)
  {
    var k := m[i := AddScaled(m[i], f, m[p])];
    forall w: Vector | |w| == cols ensures Annihilates(m, w) <==> Annihilates(k, w) {
      DotAddScaled(m[i], f, m[p], w);
      MulZero(f);
      AddZero(Dot(m[i], w));
      if Annihilates(k, w) {
        assert Dot(k[i], w) == 0 && Dot(k[p], w) == 0;
        forall r | 0 <= r < rows ensures Dot(m[r], w) == 0 {
          assert Dot(k[r], w) == 0;
        }
      }
    }
  }
}
