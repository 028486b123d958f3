// Matrices as the code stores them, row after row in one flat vector, and
// GF256::gfInvertMatrix working on them in place.

module MatrixCode {
  import opened Bytes
  import opened Gf256
  import opened Linear
  import opened GaussJordan

  // ----- flat storage

  lemma RowFits(r: nat, m: nat, n: nat)
    requires r < m
    ensures 0 <= r * n && r * n + n <= m * n
  {
    assert m * n == r * n + n + (m - r - 1) * n;
  }

  function RowOf(a: Vec, n: nat, m: nat, r: nat): (row: Vec)
    requires m * n <= |a| && r < m
    ensures |row| == n
  {
    RowFits(r, m, n);
    a[r * n..r * n + n]
  }

  function RowsOf(a: Vec, n: nat, m: nat): (rows: Matrix)
    requires m * n <= |a|
    ensures Shape(rows, m, n)
  {
    seq(m, r requires 0 <= r < m => RowOf(a, n, m, r))
  }

  lemma RowIs(a: Vec, k: nat, m: nat, r: nat)
    requires m * k <= |a| && r < m
    ensures 0 <= r * k && r * k + k <= m * k && RowsOf(a, k, m)[r] == a[r * k..r * k + k]
  {
    RowFits(r, m, k);
  }

  lemma RowsSplice(a: Vec, n: nat, m: nat, i: nat, v: Vec)
    requires m * n <= |a| && i < m && |v| == n && i * n + n <= |a|
    ensures RowsOf(Splice(a, i * n, v), n, m) == RowsOf(a, n, m)[i := v]
  {
    var b := Splice(a, i * n, v);
    forall r | 0 <= r < m ensures RowsOf(b, n, m)[r] == RowsOf(a, n, m)[i := v][r] {
      RowFits(r, m, n);
      if r < i {
        RowFits(r, i, n);
        assert b[r * n..r * n + n] == a[r * n..r * n + n];
      } else if r > i {
        RowFits(i, r, n);
        assert b[r * n..r * n + n] == a[r * n..r * n + n];
      } else {
        assert b[i * n..i * n + n] == v;
      }
    }
  }

  // ----- the row operations; the code runs each on both matrices in one loop

  method SwapStretches(a: array<Byte>, o: nat, p: nat, n: nat)
    requires o + n <= p && p + n <= a.Length
    modifies a
    ensures a[..] == Splice(Splice(old(a[..]), o, old(a[p..p + n])), p, old(a[o..o + n]))
  {
    ghost var s := a[..];
    for k := 0 to n
      invariant forall q :: o <= q < o + k ==> a[q] == s[q - o + p]
      invariant forall q :: p <= q < p + k ==> a[q] == s[q - p + o]
      invariant forall q :: 0 <= q < a.Length && !(o <= q < o + k) && !(p <= q < p + k) ==> a[q] == s[q]
    {
      var temp := a[o + k];
      a[o + k] := a[p + k];
      a[p + k] := temp;
    }
    Swapped(a[..], s, o, p, n);
  }

  lemma Swapped(t: Vec, s: Vec, o: nat, p: nat, n: nat)
    requires o + n <= p && p + n <= |s| == |t|
    requires forall q :: o <= q < o + n ==> t[q] == s[q - o + p]
    requires forall q :: p <= q < p + n ==> t[q] == s[q - p + o]
    requires forall q :: 0 <= q < |s| && !(o <= q < o + n) && !(p <= q < p + n) ==> t[q] == s[q]
    ensures t == Splice(Splice(s, o, s[p..p + n]), p, s[o..o + n])
  {
    SpliceFrom(t, Splice(s, o, s[p..p + n]), p, s[o..o + n]);
  }

  method ScaleStretch(a: array<Byte>, o: nat, n: nat, temp: Byte)
    requires o + n <= a.Length
    modifies a
    ensures a[..] == Splice(old(a[..]), o, Scale(old(a[o..o + n]), temp))
  {
    hide GfMul, Splice;
    ghost var s := a[..];
    for j := 0 to n
      invariant forall q :: o <= q < o + j ==> a[q] == GfMul(s[q], temp)
      invariant forall q :: 0 <= q < a.Length && !(o <= q < o + j) ==> a[q] == s[q]
    {
      a[o + j] := GfMul(a[o + j], temp);
    }
    SpliceFrom(a[..], s, o, Scale(s[o..o + n], temp));
  }

  // The row at o becomes itself plus temp times the row at p.
  method AddStretch(a: array<Byte>, o: nat, p: nat, n: nat, temp: Byte)
    requires o + n <= p || p + n <= o
    requires o + n <= a.Length && p + n <= a.Length
    modifies a
    ensures a[..] == Splice(old(a[..]), o, AddMul(old(a[o..o + n]), temp, old(a[p..p + n])))
  {
    hide GfMul, Splice, Add;
    ghost var s := a[..];
    for k := 0 to n
      invariant forall q :: o <= q < o + k ==> a[q] == Add(s[q], GfMul(temp, s[q - o + p]))
      invariant forall q :: 0 <= q < a.Length && !(o <= q < o + k) ==> a[q] == s[q]
    {
      a[o + k] := Add(a[o + k], GfMul(temp, a[p + k]));
    }
    SpliceFrom(a[..], s, o, AddMul(s[o..o + n], temp, s[p..p + n]));
  }

  // ----- the same operations, seen on the n rows of a matrix

  lemma SpliceRow(a: Vec, n: nat, i: nat, v: Vec)
    requires n * n <= |a| && i < n && |v| == n
    ensures i * n + n <= n * n
    ensures RowsOf(Splice(a, i * n, v), n, n) == RowsOf(a, n, n)[i := v]
    ensures Splice(a, i * n, v)[n * n..] == a[n * n..]
  {
    RowFits(i, n, n);
    RowsSplice(a, n, n, i, v);
  }

  method SwapRowsIn(a: array<Byte>, n: nat, i: nat, j: nat)
    requires n * n <= a.Length && i < j < n
    modifies a
    ensures a[n * n..] == old(a[n * n..])
    ensures RowsOf(a[..], n, n) == SwapRows(old(RowsOf(a[..], n, n)), i, j)
  {
    hide RowsOf, Splice;
    ghost var s := a[..];
    RowIs(s, n, n, i); RowIs(s, n, n, j); RowFits(i, j, n);
    ghost var u, v := s[i * n..i * n + n], s[j * n..j * n + n];
    SwapStretches(a, i * n, j * n, n);
    SpliceRow(s, n, i, v);
    SpliceRow(Splice(s, i * n, v), n, j, u);
    assert a[n * n..] == a[..][n * n..];
  }

  method ScaleRowIn(a: array<Byte>, n: nat, i: nat, temp: Byte)
    requires n * n <= a.Length && i < n
    modifies a
    ensures a[n * n..] == old(a[n * n..])
    ensures RowsOf(a[..], n, n) == ScaleRow(old(RowsOf(a[..], n, n)), i, temp)
  {
    hide Scale, Splice, RowsOf;
    ghost var s := a[..];
    RowIs(s, n, n, i);
    ScaleStretch(a, i * n, n, temp);
    SpliceRow(s, n, i, Scale(s[i * n..i * n + n], temp));
    assert a[n * n..] == a[..][n * n..];
  }

  // Row j with temp times row i added.
  function AddRow(r: Matrix, n: nat, j: nat, i: nat, temp: Byte): (s: Matrix)
    requires Shape(r, n, n) && i < n && j < n
    ensures Shape(s, n, n)
  {
    r[j := AddMul(r[j], temp, r[i])]
  }

  method AddRowIn(a: array<Byte>, n: nat, j: nat, i: nat, temp: Byte)
    requires n * n <= a.Length && i < n && j < n && i != j
    modifies a
    ensures a[n * n..] == old(a[n * n..])
    ensures RowsOf(a[..], n, n) == AddRow(old(RowsOf(a[..], n, n)), n, j, i, temp)
  {
    hide AddMul, Splice, RowsOf;
    ghost var s := a[..];
    RowIs(s, n, n, i); RowIs(s, n, n, j);
    if i < j { RowFits(i, j, n); } else { RowFits(j, i, n); }
    AddStretch(a, j * n, i * n, n, temp);
    SpliceRow(s, n, j, AddMul(s[j * n..j * n + n], temp, s[i * n..i * n + n]));
    assert a[n * n..] == a[..][n * n..];
  }

  // a[r * n + c] is entry (r, c).
  lemma Entry(a: Vec, n: nat, r: nat, c: nat)
    requires n * n <= |a| && r < n && c < n
    ensures 0 <= r * n + c < n * n && a[r * n + c] == RowsOf(a, n, n)[r][c]
  {
    RowFits(r, n, n);
  }

  // Rows 0 .. upto - 1 of ClearColumn, the others as they were.
  function ClearedTo(a: Matrix, coef: Matrix, n: nat, i: nat, upto: nat): (b: Matrix)
    requires Shape(a, n, n) && Shape(coef, n, n) && i < n
    ensures Shape(b, n, n)
  {
    seq(n, j requires 0 <= j < n => if j == i || j >= upto then a[j] else AddMul(a[j], coef[j][i], a[i]))
  }

  method ClearColumnIn(a: array<Byte>, b: array<Byte>, n: nat, i: nat)
    requires a != b && n * n <= a.Length && n * n <= b.Length && i < n
    modifies a, b
    ensures a[n * n..] == old(a[n * n..]) && b[n * n..] == old(b[n * n..])
    ensures RowsOf(a[..], n, n) == ClearColumn(old(RowsOf(a[..], n, n)), old(RowsOf(a[..], n, n)), n, i)
    ensures RowsOf(b[..], n, n) == ClearColumn(old(RowsOf(b[..], n, n)), old(RowsOf(a[..], n, n)), n, i)
  {
    hide AddMul, RowsOf, ClearedTo, AddRow, ClearColumn;
    ghost var s, t := RowsOf(a[..], n, n), RowsOf(b[..], n, n);
    ClearedNone(s, s, n, i);
    ClearedNone(t, s, n, i);
    for j := 0 to n
      invariant RowsOf(a[..], n, n) == ClearedTo(s, s, n, i, j)
      invariant RowsOf(b[..], n, n) == ClearedTo(t, s, n, i, j)
      invariant a[n * n..] == old(a[n * n..]) && b[n * n..] == old(b[n * n..])
    {
      ClearedNext(s, s, n, i, j);
      ClearedNext(t, s, n, i, j);
      if j != i {
        ClearedCoefficient(s, n, i, j);
        Entry(a[..], n, j, i);
        var temp := a[j * n + i];
        AddRowIn(b, n, j, i, temp);
        AddRowIn(a, n, j, i, temp);
      }
    }
    ClearedAll(s, s, n, i);
    ClearedAll(t, s, n, i);
  }

  lemma ClearedNone(a: Matrix, coef: Matrix, n: nat, i: nat)
    requires Shape(a, n, n) && Shape(coef, n, n) && i < n
    ensures ClearedTo(a, coef, n, i, 0) == a
  {
    hide AddMul;
  }

  lemma ClearedNext(a: Matrix, coef: Matrix, n: nat, i: nat, j: nat)
    requires Shape(a, n, n) && Shape(coef, n, n) && i < n && j < n
    ensures ClearedTo(a, coef, n, i, j + 1) ==
            if j == i then ClearedTo(a, coef, n, i, j) else AddRow(ClearedTo(a, coef, n, i, j), n, j, i, coef[j][i])
  {
    hide AddMul;
  }

  lemma ClearedAll(a: Matrix, coef: Matrix, n: nat, i: nat)
    requires Shape(a, n, n) && Shape(coef, n, n) && i < n
    ensures ClearedTo(a, coef, n, i, n) == ClearColumn(a, coef, n, i)
  {
    hide AddMul;
  }

  lemma ClearedCoefficient(a: Matrix, n: nat, i: nat, j: nat)
    requires Shape(a, n, n) && i < n && j < n
    ensures ClearedTo(a, a, n, i, j)[j] == a[j]
  {
    hide AddMul;
  }

  // Unit rows above row i, zero rows from there on.
  function IdentityTo(n: nat, i: nat): (m: Matrix)
    ensures Shape(m, n, n)
  {
    seq(n, r requires 0 <= r < n => if r < i then UnitVec(n, r) else Zeros(n))
  }

  method SetZero(b: array<Byte>, n: nat)
    requires n * n <= b.Length
    modifies b
    ensures RowsOf(b[..], n, n) == IdentityTo(n, 0)
    ensures b[n * n..] == old(b[n * n..])
  {
    for p := 0 to n * n
      invariant forall q :: 0 <= q < p ==> b[q] == 0
      invariant b[n * n..] == old(b[n * n..])
    {
      b[p] := 0;
    }
    forall r | 0 <= r < n ensures RowsOf(b[..], n, n)[r] == Zeros(n) {
      RowFits(r, n, n);
    }
  }

  method SetIdentity(b: array<Byte>, n: nat)
    requires n * n <= b.Length
    modifies b
    ensures RowsOf(b[..], n, n) == Identity(n)
    ensures b[n * n..] == old(b[n * n..])
  {
    SetZero(b, n);
    for i := 0 to n
      invariant RowsOf(b[..], n, n) == IdentityTo(n, i)
      invariant b[n * n..] == old(b[n * n..])
    {
      SetOne(b, n, i);
      assert IdentityTo(n, i + 1) == IdentityTo(n, i)[i := UnitVec(n, i)];
    }
    assert IdentityTo(n, n) == Identity(n);
  }

  method SetOne(b: array<Byte>, n: nat, i: nat)
    requires n * n <= b.Length && i < n && RowsOf(b[..], n, n)[i] == Zeros(n)
    modifies b
    ensures RowsOf(b[..], n, n) == old(RowsOf(b[..], n, n))[i := UnitVec(n, i)]
    ensures b[n * n..] == old(b[n * n..])
  {
    RowFits(i, n, n);
    ghost var s := b[..];
    assert forall c :: 0 <= c < n ==> s[i * n..i * n + n][c] == Zeros(n)[c];
    b[i * n + i] := 1;
    SpliceFrom(b[..], s, i * n, UnitVec(n, i));
    hide Splice;
    SpliceRow(s, n, i, UnitVec(n, i));
    assert b[n * n..] == b[..][n * n..];
  }

  // One step of the elimination: find a pivot, swap it up, scale and clear.
  method ReduceColumn(a: array<Byte>, b: array<Byte>, n: nat, i: nat) returns (ok: bool)
    requires a != b && n * n <= a.Length && n * n <= b.Length && i < n
    modifies a, b
    ensures a[n * n..] == old(a[n * n..]) && b[n * n..] == old(b[n * n..])
    ensures ok <==> PivotRow(old(RowsOf(a[..], n, n)), n, i, i) < n
    ensures ok ==> (RowsOf(a[..], n, n), RowsOf(b[..], n, n)) ==
                   Reduce(old(RowsOf(a[..], n, n)), old(RowsOf(b[..], n, n)), n, i,
                          PivotRow(old(RowsOf(a[..], n, n)), n, i, i))
  {
    hide GfInv, GfMul, RowsOf, ScaleRow, ClearColumn;
    ghost var s, t := RowsOf(a[..], n, n), RowsOf(b[..], n, n);
    var j := i;
    Entry(a[..], n, i, i);
    if a[i * n + i] == 0 {
      j := FindPivot(a, n, i);
      if j == n {
        return false;
      }
      SwapRowsIn(a, n, i, j);
      SwapRowsIn(b, n, i, j);
    } else {
      assert SwapRows(s, i, i) == s && SwapRows(t, i, i) == t;
    }
    assert j == PivotRow(s, n, i, i);
    Entry(a[..], n, i, i);
    var temp := GfInv(a[i * n + i]);
    ScaleRowIn(a, n, i, temp);
    ScaleRowIn(b, n, i, temp);
    ClearColumnIn(a, b, n, i);
    return true;
  }

  // Inversion of was succeeds or not, and leaves these two matrices when it does.
  ghost predicate Leaves(was: Matrix, n: nat, ok: bool, reduced: Matrix, inverse: Matrix)
    requires Shape(was, n, n)
  {
    && (ok <==> Invert(was, n).Inverted?)
    && (ok ==> Invert(was, n) == Inverted(reduced, inverse))
  }

  // gfInvertMatrix. The two matrices occupy the first n * n entries; on failure,
  // the "Not invertible" exception, both are left half reduced.
  method GfInvertMatrix(inMatrix: array<Byte>, outMatrix: array<Byte>, n: nat) returns (ok: bool)
    requires inMatrix != outMatrix && n * n <= inMatrix.Length && n * n <= outMatrix.Length
    modifies inMatrix, outMatrix
    ensures inMatrix[n * n..] == old(inMatrix[n * n..]) && outMatrix[n * n..] == old(outMatrix[n * n..])
    ensures Leaves(old(RowsOf(inMatrix[..], n, n)), n, ok, RowsOf(inMatrix[..], n, n), RowsOf(outMatrix[..], n, n))
  {
    hide RowsOf, Reduce, PivotRow;
    ghost var a0 := RowsOf(inMatrix[..], n, n);
    SetIdentity(outMatrix, n);
    for i := 0 to n
      invariant Invert(a0, n) == Eliminate(RowsOf(inMatrix[..], n, n), RowsOf(outMatrix[..], n, n), n, i)
      invariant inMatrix[n * n..] == old(inMatrix[n * n..]) && outMatrix[n * n..] == old(outMatrix[n * n..])
    {
      ok := ReduceColumn(inMatrix, outMatrix, n, i);
      if !ok {
        return;
      }
    }
    return true;
  }

  method FindPivot(a: array<Byte>, n: nat, i: nat) returns (j: nat)
    requires n * n <= a.Length && i < n && RowsOf(a[..], n, n)[i][i] == 0
    ensures j == PivotRow(RowsOf(a[..], n, n), n, i, i)
    ensures i < j <= n
  {
    hide RowsOf;
    j := i + 1;
    while j < n
      invariant i < j <= n
      invariant PivotRow(RowsOf(a[..], n, n), n, i, j) == PivotRow(RowsOf(a[..], n, n), n, i, i)
    {
      Entry(a[..], n, j, i);
      if a[j * n + i] != 0 {
        break;
      }
      j := j + 1;
    }
  }
}
