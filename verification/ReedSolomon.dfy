/** The erasure code: Vandermonde parities and recovery of lost fragments. */
module ReedSolomon {
  import opened Options
  import opened Gf256
  import opened GfTables
  import opened GfMatrix
  import opened Elimination

  type Bytes = seq<Byte>

  // ----- Specification -----

  /** Fragments read as if padded with zeros. */
  function At(fragment: Bytes, k: nat): Byte {
    if k < |fragment| then fragment[k] else 0
  }

  function Pad(fragment: Bytes, width: nat): (r: Bytes)
    ensures |r| == width && forall k | 0 <= k < width :: r[k] == At(fragment, k)
  {
    seq(width, k requires 0 <= k < width => At(fragment, k))
  }

  /** The fragment index is cast to a byte, so indices 256 apart share their coefficients. */
  function Base(j: nat): Byte {
    ((j + 1) % 256) as Byte
  }

  function Coef(p: nat, j: nat): Byte {
    Pow(Base(j), p)
  }

  function CoefRow(p: nat, n: nat): (r: Vector)
    ensures |r| == n && forall j | 0 <= j < n :: r[j] == Coef(p, j)
  {
    seq(n, j requires 0 <= j < n => Coef(p, j))
  }

  /** Byte k of every fragment. */
  function Column(fragments: seq<Bytes>, k: nat): (r: Vector)
    ensures |r| == |fragments| && forall j | 0 <= j < |fragments| :: r[j] == At(fragments[j], k)
  {
    seq(|fragments|, j requires 0 <= j < |fragments| => At(fragments[j], k))
  }

  /** Byte k of parity fragment p: a combination of the data fragments' bytes k. */
  function ParityByte(fragments: seq<Bytes>, p: nat, k: nat): Byte {
    Dot(CoefRow(p, |fragments|), Column(fragments, k))
  }

  // ----- dst ^= c * src -----

  function MulAddSpec(dst: Bytes, src: Bytes, c: Byte, width: nat): (r: Bytes)
    ensures |r| == |dst|
    ensures forall i | 0 <= i < |dst| :: r[i] == if i < width then Add(dst[i], Mul(c, At(src, i))) else dst[i]
  {
    seq(|dst|, i requires 0 <= i < |dst| => if i < width then Add(dst[i], Mul(c, At(src, i))) else dst[i])
  }

  method GfMulAdd(t: Tables, dst: Bytes, src: Bytes, c: Byte, width: nat) returns (r: Bytes)
    requires t.Valid()
    ensures r == MulAddSpec(dst, src, c, width)
  {
    hide Add, Mul;
    r := dst;
    forall i | 0 <= i < |dst| ensures Add(dst[i], Mul(c, 0)) == dst[i] {
      MulZero(c);
      AddZero(dst[i]);
    }
    if c == 0 || |src| == 0 {
      forall i | 0 <= i < |dst| ensures r[i] == MulAddSpec(dst, src, c, width)[i] {
        MulZero(At(src, i));
        AddZero(dst[i]);
      }
      return;
    }
    var n := if |src| < width then |src| else width;
    n := if |dst| < n then |dst| else n;
    if c == 1 {
      for i := 0 to n
        invariant |r| == |dst|
        invariant forall k | 0 <= k < i :: r[k] == Add(dst[k], Mul(c, src[k]))
        invariant forall k | i <= k < |dst| :: r[k] == dst[k]
      {
        MulOne(src[i]);
        r := r[i := Add(r[i], src[i])];
      }
    } else {
      var lc := t.log[c as int];
      t.Logarithm(c);
      for i := 0 to n
        invariant |r| == |dst|
        invariant forall k | 0 <= k < i :: r[k] == Add(dst[k], Mul(c, src[k]))
        invariant forall k | i <= k < |dst| :: r[k] == dst[k]
      {
        if src[i] != 0 {
          t.Logarithm(src[i]);
          MulLog(c, src[i]);
          r := r[i := Add(r[i], t.exp[lc + t.log[src[i] as int]])];
        }
      }
    }
  }

  // ----- Encoding -----

  /** Row p of the output: width bytes of parity, whatever a reused buffer held past them. */
  ghost predicate IsParityOf(row: Bytes, before: Bytes, fragments: seq<Bytes>, p: nat, width: nat) {
    && |row| == (if |before| < width then width else |before|)
    && (forall k | 0 <= k < width :: row[k] == ParityByte(fragments, p, k))
    && (forall k | width <= k < |row| :: row[k] == before[k])
  }

  method EncodeInto(t: Tables, fragments: seq<Bytes>, parityCount: nat, width: nat, buffers: seq<Bytes>)
    returns (out: seq<Bytes>)
    requires t.Valid()
    ensures |out| == if |buffers| < parityCount then parityCount else |buffers|
    ensures forall p | 0 <= p < parityCount ::
              IsParityOf(out[p], if p < |buffers| then buffers[p] else [], fragments, p, width)
    ensures forall p | parityCount <= p < |out| :: out[p] == buffers[p]
  {
    hide Add, Mul;
    out := buffers;
    if |out| < parityCount {
      out := out + seq(parityCount - |out|, i => []);
    }
    ghost var initial := out;
    for p := 0 to parityCount
      invariant |out| == |initial|
      invariant forall q | 0 <= q < p :: IsParityOf(out[q], initial[q], fragments, q, width)
      invariant forall q | p <= q < |out| :: out[q] == initial[q]
    {
      var row := out[p];
      if |row| < width {
        row := seq(width, i => 0);
      } else {
        row := seq(width, i => 0) + row[width..];
      }
      ghost var cleared := row;
      for j := 0 to |fragments|
        invariant |row| == |cleared|
        invariant forall k | 0 <= k < width :: row[k] == Dot(CoefRow(p, j), Column(fragments[..j], k))
        invariant forall k | width <= k < |row| :: row[k] == cleared[k]
      {
        var c := t.GfPow(Base(j), p);
        row := GfMulAdd(t, row, fragments[j], c, width);
        forall k | 0 <= k < width
          ensures row[k] == Dot(CoefRow(p, j + 1), Column(fragments[..j + 1], k))
        {
          ParityStep(fragments, p, k, j);
        }
      }
      assert fragments[..|fragments|] == fragments;
      out := out[p := row];
    }
  }

  lemma ParityStep(fragments: seq<Bytes>, p: nat, k: nat, j: nat)
    requires j < |fragments|
    ensures Dot(CoefRow(p, j + 1), Column(fragments[..j + 1], k))
         == Add(Dot(CoefRow(p, j), Column(fragments[..j], k)), Mul(Coef(p, j), At(fragments[j], k)))
  {
    hide Add, Mul, Coef;
    var c, x := CoefRow(p, j), Column(fragments[..j], k);
    assert CoefRow(p, j + 1) == c + [Coef(p, j)];
    assert Column(fragments[..j + 1], k) == x + [At(fragments[j], k)];
    DotConcat(c, [Coef(p, j)], x, [At(fragments[j], k)]);
    DotPick([Coef(p, j)], 0, [At(fragments[j], k)]);
  }

  // ----- Decoding: what the decoder is given -----

  /** Indices of the lost fragments, ascending. */
  function Missing(data: seq<Option<Bytes>>): (r: seq<nat>)
    ensures |r| <= |data|
    ensures forall c | 0 <= c < |r| :: r[c] < |data| && data[r[c]].None?
    ensures forall c, d | 0 <= c < d < |r| :: r[c] < r[d]
    ensures forall i {:trigger i in r} | 0 <= i < |data| && data[i].None? :: i in r
  {
    if data == [] then []
    else
      var n := |data| - 1;
      var rest := Missing(data[..n]);
      if data[n].None? then rest + [n] else rest
  }

  lemma NothingMissing(data: seq<Option<Bytes>>)
    requires Missing(data) == []
    ensures forall i | 0 <= i < |data| :: data[i].Some?
  {
    forall i | 0 <= i < |data|
      ensures data[i].Some?
    {
      assert data[i].None? ==> i in Missing(data);
    }
  }

  /** The fragments at hand, lost ones read as empty. */
  function Known(data: seq<Option<Bytes>>): (r: seq<Bytes>)
    ensures |r| == |data|
    ensures forall i | 0 <= i < |data| :: r[i] == if data[i].Some? then data[i].value else []
  {
    seq(|data|, i requires 0 <= i < |data| => if data[i].Some? then data[i].value else [])
  }

  /** Row r: the coefficients of parity r for the lost fragments. */
  function CoefAt(p: nat, missing: seq<nat>): (r: Vector)
    ensures |r| == |missing| && forall c | 0 <= c < |missing| :: r[c] == Coef(p, missing[c])
  {
    seq(|missing|, c requires 0 <= c < |missing| => Coef(p, missing[c]))
  }

  function Coefficients(parity: seq<(nat, Bytes)>, missing: seq<nat>): (a: Matrix)
    requires |missing| <= |parity|
    ensures Shape(a, |missing|, |missing|)
    ensures forall r | 0 <= r < |missing| :: a[r] == CoefAt(parity[r].0, missing)
  {
    seq(|missing|, r requires 0 <= r < |missing| => CoefAt(parity[r].0, missing))
  }

  /** Byte k of the lost fragments of the message. */
  function LostColumn(message: seq<Bytes>, missing: seq<nat>, k: nat): (v: Vector)
    requires forall c | 0 <= c < |missing| :: missing[c] < |message|
    ensures |v| == |missing| && forall c | 0 <= c < |missing| :: v[c] == At(message[missing[c]], k)
  {
    seq(|missing|, c requires 0 <= c < |missing| => At(message[missing[c]], k))
  }

  /** Everything received is what encoding the message produces. */
  ghost predicate Consistent(message: seq<Bytes>, data: seq<Option<Bytes>>, parity: seq<(nat, Bytes)>, width: nat) {
    && |message| == |data|
    && (forall i | 0 <= i < |data| && data[i].Some? :: SameBytes(data[i].value, message[i], width))
    && (forall r, k | 0 <= r < |parity| && 0 <= k < width ::
          At(parity[r].1, k) == ParityByte(message, parity[r].0, k))
  }

  /** Exactly when recovery succeeds: enough parities, and the first ones used have independent coefficients. */
  ghost predicate Recoverable(data: seq<Option<Bytes>>, parity: seq<(nat, Bytes)>) {
    var missing := Missing(data);
    missing == [] || (|missing| <= |parity| && Nonsingular(Coefficients(parity, missing)))
  }

  function Syndrome(data: seq<Option<Bytes>>, parity: (nat, Bytes), width: nat): (s: Bytes)
    ensures |s| == width
    ensures forall k | 0 <= k < width :: s[k] == Add(At(parity.1, k), ParityByte(Known(data), parity.0, k))
  {
    seq(width, k requires 0 <= k < width => Add(At(parity.1, k), ParityByte(Known(data), parity.0, k)))
  }

  ghost predicate SameBytes(a: Bytes, b: Bytes, width: nat) {
    forall k | 0 <= k < width :: At(a, k) == At(b, k)
  }

  lemma LostStep(message: seq<Bytes>, missing: seq<nat>, n: nat, p: nat, k: nat)
    requires n < |message| && forall c | 0 <= c < |missing| :: missing[c] < |message|
    ensures Dot(CoefAt(p, missing + [n]), LostColumn(message, missing + [n], k))
         == Add(Dot(CoefAt(p, missing), LostColumn(message, missing, k)), Mul(Coef(p, n), At(message[n], k)))
  {
    hide Add, Mul, Coef;
    assert CoefAt(p, missing + [n]) == CoefAt(p, missing) + [Coef(p, n)];
    assert LostColumn(message, missing + [n], k) == LostColumn(message, missing, k) + [At(message[n], k)];
    DotConcat(CoefAt(p, missing), [Coef(p, n)], LostColumn(message, missing, k), [At(message[n], k)]);
    DotPick([Coef(p, n)], 0, [At(message[n], k)]);
  }

  lemma ParityPrefix(message: seq<Bytes>, p: nat, k: nat)
    requires message != []
    ensures var n := |message| - 1;
            ParityByte(message, p, k) == Add(ParityByte(message[..n], p, k), Mul(Coef(p, n), At(message[n], k)))
  {
    ParityStep(message, p, k, |message| - 1);
    assert message[..|message| - 1 + 1] == message;
  }

  /** A parity splits into the contribution of the known fragments and that of the lost ones. */
  lemma {:induction false} ParitySplits(message: seq<Bytes>, data: seq<Option<Bytes>>, p: nat, k: nat, width: nat)
    requires |message| == |data| && k < width
    requires forall i | 0 <= i < |data| && data[i].Some? :: SameBytes(data[i].value, message[i], width)
    ensures ParityByte(message, p, k)
         == Add(ParityByte(Known(data), p, k),
                Dot(CoefAt(p, Missing(data)), LostColumn(message, Missing(data), k)))
  {
    hide Add, Mul, Coef, ParityByte, Dot, At, CoefAt, LostColumn, Missing, Known, SameBytes;
    LastFragment(data);
    if data == [] {
      NoFragments(p, k);
      EmptyColumns(message, p, k);
    } else {
      var n := |data| - 1;
      ParitySplits(message[..n], data[..n], p, k, width);
      PrefixColumn(message, Missing(data[..n]), n, k);
      if data[n].Some? {
        SameAt(data[n].value, message[n], width, k);
      }
      SplitStep(message, Known(data), Missing(data[..n]), p, k, data[n].None?);
    }
  }

  lemma SameAt(a: Bytes, b: Bytes, width: nat, k: nat)
    requires SameBytes(a, b, width) && k < width
    ensures At(a, k) == At(b, k)
  {}

  /** One more fragment, lost or known. */
  lemma SplitStep(message: seq<Bytes>, known: seq<Bytes>, rest: seq<nat>, p: nat, k: nat, lost: bool)
    requires message != [] && |known| == |message|
    requires forall c | 0 <= c < |rest| :: rest[c] < |message|
    requires if lost then known[|message| - 1] == [] else At(known[|message| - 1], k) == At(message[|message| - 1], k)
    requires var n := |message| - 1;
             ParityByte(message[..n], p, k)
             == Add(ParityByte(known[..n], p, k), Dot(CoefAt(p, rest), LostColumn(message, rest, k)))
    ensures var now := if lost then rest + [|message| - 1] else rest;
            ParityByte(message, p, k) == Add(ParityByte(known, p, k), Dot(CoefAt(p, now), LostColumn(message, now, k)))
  {
    hide Add, Mul, Coef, ParityByte, Dot, At, CoefAt, LostColumn;
    var n := |message| - 1;
    ParityPrefix(message, p, k);
    ParityPrefix(known, p, k);
    LostStep(message, rest, n, p, k);
    SplitTerm(ParityByte(known[..n], p, k), Dot(CoefAt(p, rest), LostColumn(message, rest, k)), Coef(p, n),
              At(message[n], k));
    EmptyFragment(k);
  }

  lemma LastFragment(data: seq<Option<Bytes>>)
    ensures data == [] ==> Missing(data) == [] && Known(data) == []
    ensures data != [] ==>
              var n := |data| - 1;
              && Known(data)[..n] == Known(data[..n]) && Known(data)[n] == (if data[n].Some? then data[n].value else [])
              && Missing(data) == if data[n].None? then Missing(data[..n]) + [n] else Missing(data[..n])
  {}

  lemma PrefixColumn(message: seq<Bytes>, missing: seq<nat>, n: nat, k: nat)
    requires n <= |message| && forall c | 0 <= c < |missing| :: missing[c] < n
    ensures LostColumn(message[..n], missing, k) == LostColumn(message, missing, k)
  {
    hide At;
  }

  lemma EmptyColumns(message: seq<Bytes>, p: nat, k: nat)
    ensures CoefAt(p, []) == [] && LostColumn(message, [], k) == []
  {}

  lemma EmptyFragment(k: nat)
    ensures At([], k) == 0
  {}

  lemma NoFragments(p: nat, k: nat)
    ensures ParityByte([], p, k) == 0 == Add(0, 0)
    ensures Dot([], []) == 0
  {
    AddZero(0);
  }

  lemma SplitTerm(known: Byte, lost: Byte, c: Byte, x: Byte)
    ensures Add(Add(known, lost), Mul(c, x)) == Add(Add(known, Mul(c, 0)), Add(lost, Mul(c, x)))
    ensures Add(Add(known, lost), Mul(c, x)) == Add(Add(known, Mul(c, x)), lost)
  {
    hide Add, Mul;
    MulZero(c);
    AddZero(known);
    AddAssociates(known, lost, Mul(c, x));
    AddCommutes(lost, Mul(c, x));
    AddAssociates(known, Mul(c, x), lost);
  }

  /** The syndromes are the lost fragments seen through the coefficients. */
  lemma SyndromeOfLost(message: seq<Bytes>, data: seq<Option<Bytes>>, parity: (nat, Bytes), k: nat, width: nat)
    requires |message| == |data| && k < width
    requires forall i | 0 <= i < |data| && data[i].Some? :: SameBytes(data[i].value, message[i], width)
    requires At(parity.1, k) == ParityByte(message, parity.0, k)
    ensures Syndrome(data, parity, width)[k]
         == Dot(CoefAt(parity.0, Missing(data)), LostColumn(message, Missing(data), k))
  {
    ParitySplits(message, data, parity.0, k, width);
    var known := ParityByte(Known(data), parity.0, k);
    var lost := Dot(CoefAt(parity.0, Missing(data)), LostColumn(message, Missing(data), k));
    AddCommutes(known, lost);
    AddTwice(lost, known);
  }

  method ComputeSyndrome(t: Tables, data: seq<Option<Bytes>>, parity: (nat, Bytes), width: nat) returns (s: Bytes)
    requires t.Valid()
    ensures s == Syndrome(data, parity, width)
  {
    hide Add, Mul;
    s := Pad(parity.1, width);
    forall k | 0 <= k < width ensures s[k] == Add(At(parity.1, k), 0) {
      AddZero(s[k]);
    }
    for j := 0 to |data|
      invariant |s| == width
      invariant forall k | 0 <= k < width ::
                  s[k] == Add(At(parity.1, k), Dot(CoefRow(parity.0, j), Column(Known(data)[..j], k)))
    {
      ghost var before := s;
      if data[j].Some? {
        var c := t.GfPow(Base(j), parity.0);
        s := GfMulAdd(t, s, data[j].value, c, width);
      }
      forall k | 0 <= k < width
        ensures s[k] == Add(At(parity.1, k), Dot(CoefRow(parity.0, j + 1), Column(Known(data)[..j + 1], k)))
      {
        ParityStep(Known(data), parity.0, k, j);
        var sum := Dot(CoefRow(parity.0, j), Column(Known(data)[..j], k));
        AddAssociates(At(parity.1, k), sum, Mul(Coef(parity.0, j), At(Known(data)[j], k)));
        MulZero(Coef(parity.0, j));
        AddZero(sum);
        assert before[k] == Add(At(parity.1, k), sum);
      }
    }
    assert Known(data)[..|data|] == Known(data);
  }

  // ----- Decoding: elimination -----

  /** Scales a row in place from column col on; the columns before it hold zeros. */
  method NormalizeRow(t: Tables, row: Vector, col: nat, s: Byte) returns (r: Vector)
    requires t.Valid() && col <= |row|
    requires forall j | 0 <= j < col :: row[j] == 0
    ensures r == Scale(row, s)
  {
    hide Add, Mul;
    MulZero(s);
    r := row;
    for j := col to |row|
      invariant |r| == |row|
      invariant forall k | col <= k < j :: r[k] == Mul(row[k], s)
      invariant forall k | (0 <= k < col || j <= k < |row|) :: r[k] == row[k]
    {
      r := r[j := t.GfMul(r[j], s)];
    }
  }

  method CombineRow(t: Tables, row: Vector, f: Byte, pivotRow: Vector, col: nat) returns (r: Vector)
    requires t.Valid() && |row| == |pivotRow| && col <= |row|
    requires forall j | 0 <= j < col :: pivotRow[j] == 0
    ensures r == AddScaled(row, f, pivotRow)
  {
    hide Add, Mul;
    MulZero(f);
    r := row;
    for j := col to |row|
      invariant |r| == |row|
      invariant forall k | col <= k < j :: r[k] == Add(row[k], Mul(f, pivotRow[k]))
      invariant forall k | (0 <= k < col || j <= k < |row|) :: r[k] == row[k]
    {
      r := r[j := Add(r[j], t.GfMul(f, pivotRow[j]))];
    }
    forall k | 0 <= k < col ensures r[k] == Add(row[k], Mul(f, pivotRow[k])) {
      AddZero(row[k]);
    }
  }

  /** Subtracts the pivot row from every other row, clearing column col. */
  method ClearColumn(t: Tables, a0: Matrix, syn0: Matrix, col: nat, width: nat) returns (a: Matrix, syn: Matrix)
    requires t.Valid() && System(a0, syn0, width) && col < |a0|
    requires Reduced(a0, col) && a0[col][col] == 1
    ensures |a| == |a0| && System(a, syn, width) && Reduced(a, col + 1)
    ensures SameSystem(a0, syn0, a, syn, width)
  {
    hide Add, Mul, Dot, Annihilates;
    a, syn := a0, syn0;
    for r := 0 to |a0|
      invariant |a| == |a0| && System(a, syn, width) && Reduced(a, col)
      invariant SameSystem(a0, syn0, a, syn, width)
      invariant a[col] == a0[col]
      invariant forall i | 0 <= i < r && i != col :: a[i][col] == 0
    {
      if r == col {
        continue;
      }
      var f := a[r][col];
      if f == 0 {
        continue;
      }
      ghost var a1, syn1 := a, syn;
      var row := CombineRow(t, a[r], f, a[col], col);
      var synRow := GfMulAdd(t, syn[r], syn[col], f, width);
      assert synRow == AddScaled(syn[r], f, syn[col]);
      ClearedRow(a[r], a[col], col);
      a, syn := a[r := row], syn[r := synRow];
      AddSystem(a1, syn1, r, f, col, width);
      SameSystemTrans(a0, syn0, a1, syn1, a, syn, width);
    }
  }

  /** Brings the pivot to the diagonal, normalises its row and clears its column in all other rows. */
  method ReduceColumn(t: Tables, a0: Matrix, syn0: Matrix, col: nat, pivot: nat, width: nat)
    returns (a: Matrix, syn: Matrix)
    requires t.Valid() && System(a0, syn0, width) && col <= pivot < |a0|
    requires Reduced(a0, col) && a0[pivot][col] != 0
    ensures |a| == |a0| && System(a, syn, width) && Reduced(a, col + 1)
    ensures SameSystem(a0, syn0, a, syn, width)
  {
    hide Add, Mul, Dot, Annihilates, SameSystem;
    a, syn := a0, syn0;
    SameSystemSelf(a0, syn0, width);
    if pivot != col {
      a := a[pivot := a[col]][col := a[pivot]];
      syn := syn[pivot := syn[col]][col := syn[pivot]];
      SwapSystem(a0, syn0, pivot, col, width);
    }
    ghost var a1, syn1 := a, syn;
    var inverse := t.GfInv(a[col][col]);
    MulZero(a[col][col]);
    NormalizedRow(a[col], col, inverse);
    var row := NormalizeRow(t, a[col], col, inverse);
    var synRow := NormalizeRow(t, syn[col], 0, inverse);
    a, syn := a[col := row], syn[col := synRow];
    ScaleSystem(a1, syn1, col, inverse, width);
    SameSystemTrans(a0, syn0, a1, syn1, a, syn, width);
    a1, syn1 := a, syn;
    a, syn := ClearColumn(t, a, syn, col, width);
    SameSystemTrans(a0, syn0, a1, syn1, a, syn, width);
  }

  /** Gauss-Jordan elimination; it finds every pivot exactly when the coefficients are nonsingular. */
  method Eliminate(t: Tables, a0: Matrix, syn0: Matrix, width: nat) returns (ok: bool, syn: Matrix)
    requires t.Valid() && System(a0, syn0, width)
    ensures ok <==> Nonsingular(a0)
    ensures ok ==> System(Identity(|a0|), syn, width) && SameSystem(a0, syn0, Identity(|a0|), syn, width)
  {
    hide Add, Mul, Dot, Annihilates, SameSystem, Identity, Nonsingular;
    var m := |a0|;
    var a := a0;
    syn := syn0;
    SameSystemSelf(a0, syn0, width);
    for col := 0 to m
      invariant |a| == m && System(a, syn, width) && Reduced(a, col)
      invariant SameSystem(a0, syn0, a, syn, width)
    {
      var pivot := col;
      while pivot < m && a[pivot][col] == 0
        invariant col <= pivot <= m
        invariant forall r | col <= r < pivot :: a[r][col] == 0
      {
        pivot := pivot + 1;
      }
      if pivot == m {
        SingularSystem(a0, syn0, a, syn, col, width);
        return false, syn;
      }
      ghost var a1, syn1 := a, syn;
      a, syn := ReduceColumn(t, a, syn, col, pivot, width);
      SameSystemTrans(a0, syn0, a1, syn1, a, syn, width);
    }
    ReducedIsIdentity(a);
    NonsingularSystem(a0, syn0, a, syn, width);
    return true, syn;
  }

  lemma SingularSystem(a0: Matrix, syn0: Matrix, a: Matrix, syn: Matrix, col: nat, width: nat)
    requires System(a0, syn0, width) && System(a, syn, width) && |a0| == |a|
    requires SameSystem(a0, syn0, a, syn, width)
    requires col < |a| && Reduced(a, col) && forall r | col <= r < |a| :: a[r][col] == 0
    ensures !Nonsingular(a0)
  {
    NoPivot(a, col);
    var v: Vector :| |v| == |a| && Annihilates(a, v) && v != Zeros(|a|);
    KernelOfCoefficients(a0, syn0, a, syn, width, v);
  }

  lemma NonsingularSystem(a0: Matrix, syn0: Matrix, a: Matrix, syn: Matrix, width: nat)
    requires System(a0, syn0, width) && System(a, syn, width) && |a0| == |a|
    requires SameSystem(a0, syn0, a, syn, width) && a == Identity(|a|)
    ensures Nonsingular(a0)
  {
    IdentityNonsingular(|a|);
    forall v: Vector | |v| == |a0| && Annihilates(a0, v) ensures v == Zeros(|a0|) {
      KernelOfCoefficients(a0, syn0, a, syn, width, v);
    }
  }

  /** A consistent message satisfies the equations the decoder sets up. */
  lemma LostSolves(message: seq<Bytes>, data: seq<Option<Bytes>>, parity: seq<(nat, Bytes)>, width: nat, k: nat)
    requires Consistent(message, data, parity, width) && |Missing(data)| <= |parity| && k < width
    ensures var missing := Missing(data);
            var a := Coefficients(parity, missing);
            var syn := seq(|missing|, r requires 0 <= r < |missing| => Syndrome(data, parity[r], width));
            Annihilates(Join(a, syn), LostColumn(message, missing, k) + Unit(width, k))
  {
    hide Add, Mul, Dot, Coef, ParityByte, At;
    var missing := Missing(data);
    var a := Coefficients(parity, missing);
    var syn := seq(|missing|, r requires 0 <= r < |missing| => Syndrome(data, parity[r], width));
    var v := LostColumn(message, missing, k);
    forall r | 0 <= r < |missing| ensures Dot(Join(a, syn)[r], v + Unit(width, k)) == 0 {
      SyndromeOfLost(message, data, parity[r], k, width);
      JoinedRow(a[r], syn[r], v, k);
      AddSelf(Dot(a[r], v), syn[r][k]);
    }
  }

  lemma JoinedRow(row: Vector, syn: Vector, v: Vector, k: nat)
    requires |row| == |v| && k < |syn|
    ensures Dot(row + syn, v + Unit(|syn|, k)) == Add(Dot(row, v), syn[k])
  {
    DotConcat(row, syn, v, Unit(|syn|, k));
    DotPick(syn, k, Unit(|syn|, k));
    MulOne(syn[k]);
  }

  /** Over the identity, the equations read off the unknowns. */
  lemma IdentitySolved(syn: Matrix, v: Vector, k: nat, width: nat)
    requires Shape(syn, |v|, width) && k < width
    requires Annihilates(Join(Identity(|v|), syn), v + Unit(width, k))
    ensures forall c | 0 <= c < |v| :: syn[c][k] == v[c]
  {
    forall c | 0 <= c < |v| ensures syn[c][k] == v[c] {
      assert Dot(Join(Identity(|v|), syn)[c], v + Unit(width, k)) == 0;
      JoinedRow(Unit(|v|, c), syn[c], v, k);
      DotPick(Unit(|v|, c), c, v);
      MulOne(v[c]);
      AddSelf(v[c], syn[c][k]);
    }
  }

  /** Eliminated syndromes are the lost fragments. */
  lemma SolvedIsLost(message: seq<Bytes>, data: seq<Option<Bytes>>, parity: seq<(nat, Bytes)>, width: nat,
                     a0: Matrix, syn0: Matrix, syn: Matrix)
    requires Consistent(message, data, parity, width) && |Missing(data)| <= |parity|
    requires a0 == Coefficients(parity, Missing(data)) && |syn0| == |a0|
    requires forall r | 0 <= r < |a0| :: syn0[r] == Syndrome(data, parity[r], width)
    requires System(a0, syn0, width) && System(Identity(|a0|), syn, width)
    requires SameSystem(a0, syn0, Identity(|a0|), syn, width)
    ensures forall c | 0 <= c < |a0| :: syn[c] == Pad(message[Missing(data)[c]], width)
  {
    hide Add, Mul, Dot, Coef, At, Annihilates;
    var missing := Missing(data);
    forall c | 0 <= c < |a0| ensures syn[c] == Pad(message[missing[c]], width) {
      forall k | 0 <= k < width ensures syn[c][k] == Pad(message[missing[c]], width)[k] {
        LostSolves(message, data, parity, width, k);
        assert syn0 == seq(|missing|, r requires 0 <= r < |missing| => Syndrome(data, parity[r], width));
        var v := LostColumn(message, missing, k);
        assert Annihilates(Join(a0, syn0), v + Unit(width, k));
        assert Annihilates(Join(Identity(|a0|), syn), v + Unit(width, k));
        IdentitySolved(syn, v, k, width);
      }
    }
  }

  /** The equations for the lost fragments: one row of coefficients and one syndrome for each parity used. */
  method BuildSystem(t: Tables, data: seq<Option<Bytes>>, parity: seq<(nat, Bytes)>, missing: seq<nat>, width: nat)
    returns (a: Matrix, syn: Matrix)
    requires t.Valid() && |missing| <= |parity|
    ensures a == Coefficients(parity, missing)
    ensures System(a, syn, width)
    ensures forall r | 0 <= r < |missing| :: syn[r] == Syndrome(data, parity[r], width)
  {
    hide Add, Mul, ParityByte, At, Coef;
    a, syn := [], [];
    for r := 0 to |missing|
      invariant |a| == |syn| == r
      invariant forall i | 0 <= i < r :: a[i] == CoefAt(parity[i].0, missing)
      invariant forall i | 0 <= i < r :: syn[i] == Syndrome(data, parity[i], width)
    {
      var s := ComputeSyndrome(t, data, parity[r], width);
      var row := CoefficientRow(t, missing, parity[r].0);
      a, syn := a + [row], syn + [s];
    }
  }

  method CoefficientRow(t: Tables, missing: seq<nat>, p: nat) returns (row: Vector)
    requires t.Valid()
    ensures row == CoefAt(p, missing)
  {
    hide Pow;
    row := [];
    for c := 0 to |missing|
      invariant |row| == c && forall d | 0 <= d < c :: row[d] == Coef(p, missing[d])
    {
      row := row + [t.GfPow(Base(missing[c]), p)];
    }
  }

  method FindMissing(data: array<Option<Bytes>>) returns (missing: seq<nat>)
    ensures missing == Missing(data[..])
  {
    missing := [];
    for i := 0 to data.Length
      invariant missing == Missing(data[..i])
    {
      assert data[..i + 1][..i] == data[..i];
      if data[i].None? {
        missing := missing + [i];
      }
    }
    assert data[..data.Length] == data[..];
  }

  method FillMissing(data: array<Option<Bytes>>, missing: seq<nat>, found: seq<Bytes>)
    requires missing == Missing(data[..]) && |found| == |missing|
    modifies data
    ensures forall i | 0 <= i < data.Length && old(data[i]).Some? :: data[i] == old(data[i])
    ensures forall i | 0 <= i < data.Length :: data[i].Some?
    ensures forall c | 0 <= c < |missing| :: data[missing[c]] == Some(found[c])
  {
    for c := 0 to |missing|
      invariant forall d | 0 <= d < c :: data[missing[d]] == Some(found[d])
      invariant forall i | 0 <= i < data.Length && old(data[i]).Some? :: data[i] == old(data[i])
    {
      data[missing[c]] := Some(found[c]);
    }
    forall i | 0 <= i < data.Length && old(data[i]).None? ensures data[i].Some? {
      assert old(data[..])[i].None? && i in missing;
      var c :| 0 <= c < |missing| && missing[c] == i;
    }
  }

  /** What a successful decoding of the input leaves behind. */
  ghost predicate Recovered(input: seq<Option<Bytes>>, output: seq<Option<Bytes>>, parity: seq<(nat, Bytes)>,
                            width: nat)
  {
    && |output| == |input|
    && (forall i | 0 <= i < |input| :: output[i].Some?)
    && (forall i | 0 <= i < |input| && input[i].Some? :: output[i] == input[i])
    && (forall i | 0 <= i < |input| && input[i].None? :: |output[i].value| == width)
    && (forall message: seq<Bytes> | Consistent(message, input, parity, width) ::
          forall i | 0 <= i < |input| && input[i].None? :: output[i] == Some(Pad(message[i], width)))
  }

  /**
   * Recovers the lost fragments in place. It succeeds exactly when the data are recoverable; on failure nothing is
   * changed, and on success every message consistent with what was received has its lost fragments restored.
   */
  method Decode(t: Tables, data: array<Option<Bytes>>, parity: seq<(nat, Bytes)>, width: nat) returns (ok: bool)
    requires t.Valid()
    modifies data
    ensures ok <==> Recoverable(old(data[..]), parity)
    ensures !ok ==> data[..] == old(data[..])
    ensures ok ==> Recovered(old(data[..]), data[..], parity, width)
  {
    hide Nonsingular, SameSystem, Coefficients, Syndrome, ParityByte, SameBytes, At;
    ghost var input := data[..];
    var missing := FindMissing(data);
    if |missing| == 0 {
      NothingMissing(input);
      return true;
    }
    if |missing| > |parity| {
      return false;
    }
    var a, syn0 := BuildSystem(t, data[..], parity, missing, width);
    var syn;
    ok, syn := Eliminate(t, a, syn0, width);
    if !ok {
      return;
    }
    FillMissing(data, missing, syn);
    forall i | 0 <= i < |input| && input[i].None? ensures |data[i].value| == width {
      assert i in missing;
      var c :| 0 <= c < |missing| && missing[c] == i;
    }
    forall message: seq<Bytes>, i | Consistent(message, input, parity, width) && 0 <= i < |input| && input[i].None?
      ensures data[i] == Some(Pad(message[i], width))
    {
      SolvedIsLost(message, input, parity, width, a, syn0, syn);
      assert i in missing;
      var c :| 0 <= c < |missing| && missing[c] == i;
    }
  }
}
