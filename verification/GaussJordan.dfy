// Gauss-Jordan inversion as GF256::gfInvertMatrix performs it, first as a
// function on matrices whose properties are proved, then in place on arrays.

module GaussJordan {
  import opened Bytes
  import opened Gf256
  import opened Linear

  datatype Elimination = Inverted(reduced: Matrix, inverse: Matrix) | NotInvertible

  // The first row at or below i with a nonzero entry in column i, or n.
  function PivotRow(a: Matrix, n: nat, i: nat, j: nat): (p: nat)
    requires Shape(a, n, n) && i < n && j <= n
    ensures j <= p <= n
    ensures forall r :: j <= r < p ==> a[r][i] == 0
    ensures p < n ==> a[p][i] != 0
    decreases n - j
  {
    if j == n || a[j][i] != 0 then j else PivotRow(a, n, i, j + 1)
  }

  function SwapRows(a: Matrix, i: nat, j: nat): Matrix
    requires i < |a| && j < |a|
  {
    a[i := a[j]][j := a[i]]
  }

  function ScaleRow(a: Matrix, i: nat, t: Byte): Matrix
    requires i < |a|
  {
    a[i := Scale(a[i], t)]
  }

  // Subtract from every row j other than i its multiple coef[j][i] of row i.
  function ClearColumn(a: Matrix, coef: Matrix, n: nat, i: nat): (b: Matrix)
    requires Shape(a, n, n) && Shape(coef, n, n) && i < n
    ensures Shape(b, n, n)
  {
    seq(n, j requires 0 <= j < n => if j == i then a[i] else AddMul(a[j], coef[j][i], a[i]))
  }

  // Steps i, i + 1, ..., n - 1 of the elimination on the pair (a, b).
  function Eliminate(a: Matrix, b: Matrix, n: nat, i: nat): (e: Elimination)
    requires Shape(a, n, n) && Shape(b, n, n) && i <= n
    ensures e.Inverted? ==> Shape(e.reduced, n, n) && Shape(e.inverse, n, n)
    decreases n - i
  {
    if i == n then Inverted(a, b)
    else
      var p := PivotRow(a, n, i, i);
      if p == n then NotInvertible
      else
        var (a', b') := Reduce(a, b, n, i, p);
        Eliminate(a', b', n, i + 1)
  }

  function Reduce(a: Matrix, b: Matrix, n: nat, i: nat, p: nat): (ab: (Matrix, Matrix))
    requires Shape(a, n, n) && Shape(b, n, n) && i <= p < n
    ensures Shape(ab.0, n, n) && Shape(ab.1, n, n)
  {
    var a1, b1 := SwapRows(a, i, p), SwapRows(b, i, p);
    var t := GfInv(a1[i][i]);
    var a2, b2 := ScaleRow(a1, i, t), ScaleRow(b1, i, t);
    (ClearColumn(a2, a2, n, i), ClearColumn(b2, a2, n, i))
  }

  function Invert(a: Matrix, n: nat): (e: Elimination)
    requires Shape(a, n, n)
    ensures e.Inverted? ==> Shape(e.reduced, n, n) && Shape(e.inverse, n, n)
  {
    Eliminate(a, Identity(n), n, 0)
  }

  // ----- what each row operation keeps

  // b * a0 == a, row by row.
  ghost predicate Product(b: Matrix, a0: Matrix, a: Matrix, n: nat) {
    Shape(b, n, n) && Shape(a0, n, n) && Shape(a, n, n) &&
    forall r :: 0 <= r < n ==> VecMat(b[r], a0, n, n) == a[r]
  }

  ghost predicate SameKernel(a: Matrix, b: Matrix, n: nat) {
    Shape(a, n, n) && Shape(b, n, n) &&
    forall x: Vec :: |x| == n ==> (InKernel(a, x) <==> InKernel(b, x))
  }

  ghost predicate UnitColumns(a: Matrix, n: nat, i: nat) {
    Shape(a, n, n) &&
    forall r, c :: 0 <= r < n && 0 <= c < i && c < n ==> a[r][c] == if r == c then 1 else 0
  }

  lemma SwapKeeps(a: Matrix, b: Matrix, a0: Matrix, n: nat, i: nat, p: nat)
    requires i <= p < n && Product(b, a0, a, n) && UnitColumns(a, n, i)
    ensures Product(SwapRows(b, i, p), a0, SwapRows(a, i, p), n)
    ensures SameKernel(a, SwapRows(a, i, p), n)
    ensures UnitColumns(SwapRows(a, i, p), n, i)
  {
    hide VecMat, Dot, GfMul, Add, InKernel;
    var s := SwapRows(a, i, p);
    assert SwapRows(s, i, p) == a;
    forall x: Vec | |x| == n ensures InKernel(a, x) <==> InKernel(s, x) {
      SwapKernel(a, n, i, p, x);
      SwapKernel(s, n, i, p, x);
    }
  }

  lemma SwapKernel(a: Matrix, n: nat, i: nat, p: nat, x: Vec)
    requires Shape(a, n, n) && i < n && p < n && |x| == n
    ensures InKernel(a, x) ==> InKernel(SwapRows(a, i, p), x)
  {
    hide Dot;
  }

  lemma ScaleKeeps(a: Matrix, b: Matrix, a0: Matrix, n: nat, i: nat, t: Byte)
    requires i < n && t != 0 && Product(b, a0, a, n) && UnitColumns(a, n, i)
    ensures Product(ScaleRow(b, i, t), a0, ScaleRow(a, i, t), n)
    ensures SameKernel(a, ScaleRow(a, i, t), n)
    ensures UnitColumns(ScaleRow(a, i, t), n, i)
  {
    hide InKernel, Product, UnitColumns, ScaleRow;
    ProductShape(a, b, a0, n);
    ScaleProduct(a, b, a0, n, i, t);
    ScaleColumns(a, n, i, t);
    forall x: Vec | |x| == n ensures InKernel(a, x) <==> InKernel(ScaleRow(a, i, t), x) {
      ScaleKernel(a, n, i, t, x);
    }
    ScaleShape(a, n, i, t);
  }

  lemma ProductShape(a: Matrix, b: Matrix, a0: Matrix, n: nat)
    requires Product(b, a0, a, n)
    ensures Shape(a, n, n) && Shape(b, n, n)
  {
    hide VecMat;
  }

  lemma ScaleShape(a: Matrix, n: nat, i: nat, t: Byte)
    requires Shape(a, n, n) && i < n
    ensures Shape(ScaleRow(a, i, t), n, n)
  {
    hide GfMul;
  }

  lemma ScaleProduct(a: Matrix, b: Matrix, a0: Matrix, n: nat, i: nat, t: Byte)
    requires i < n && Product(b, a0, a, n)
    ensures Product(ScaleRow(b, i, t), a0, ScaleRow(a, i, t), n)
  {
    hide VecMat, Scale;
    VecMatScale(b[i], t, a0, n);
  }

  lemma ScaleColumns(a: Matrix, n: nat, i: nat, t: Byte)
    requires i < n && UnitColumns(a, n, i)
    ensures UnitColumns(ScaleRow(a, i, t), n, i)
  {
    hide GfMul;
    MulZero(t);
  }

  lemma ScaleKernel(a: Matrix, n: nat, i: nat, t: Byte, x: Vec)
    requires Shape(a, n, n) && i < n && t != 0 && |x| == n
    ensures InKernel(a, x) <==> InKernel(ScaleRow(a, i, t), x)
  {
    hide Dot, GfMul;
    DotScale(a[i], t, x, n);
    MulZero(t);
    if Dot(a[i], x, n) != 0 { MulNonzero(t, Dot(a[i], x, n)); }
    var s := ScaleRow(a, i, t);
    assert s[i] == Scale(a[i], t);
    forall r | 0 <= r < n ensures Dot(a[r], x, n) == 0 <==> Dot(s[r], x, n) == 0 {}
  }

  lemma ClearKeepsProduct(a: Matrix, b: Matrix, a0: Matrix, n: nat, i: nat)
    requires i < n && Product(b, a0, a, n)
    ensures Product(ClearColumn(b, a, n, i), a0, ClearColumn(a, a, n, i), n)
  {
    hide VecMat, Dot, GfMul, Add;
    var b', a' := ClearColumn(b, a, n, i), ClearColumn(a, a, n, i);
    forall j | 0 <= j < n ensures VecMat(b'[j], a0, n, n) == a'[j] {
      if j != i { VecMatAddMul(b[j], a[j][i], b[i], a0, n); }
    }
  }

  lemma ClearKeepsKernel(a: Matrix, n: nat, i: nat)
    requires i < n && Shape(a, n, n)
    ensures SameKernel(a, ClearColumn(a, a, n, i), n)
  {
    hide Dot, GfMul, Add;
    var a' := ClearColumn(a, a, n, i);
    forall x: Vec | |x| == n ensures InKernel(a, x) <==> InKernel(a', x) {
      ClearKernelAt(a, n, i, x);
    }
  }

  lemma ClearKernelAt(a: Matrix, n: nat, i: nat, x: Vec)
    requires i < n && Shape(a, n, n) && |x| == n
    ensures InKernel(a, x) <==> InKernel(ClearColumn(a, a, n, i), x)
  {
    hide Dot, GfMul, Add;
    var a' := ClearColumn(a, a, n, i);
    assert a'[i] == a[i];
    if Dot(a[i], x, n) == 0 {
      forall j | 0 <= j < n ensures Dot(a'[j], x, n) == Dot(a[j], x, n) {
        if j != i {
          DotAddMul(a[j], a[j][i], a[i], x, n);
          MulZero(a[j][i]);
          AddZero(Dot(a[j], x, n));
        }
      }
    }
  }

  // The pivot row has a one in column i, so clearing makes column i a unit.
  lemma ClearMakesUnit(a: Matrix, n: nat, i: nat)
    requires i < n && UnitColumns(a, n, i) && a[i][i] == 1
    ensures UnitColumns(ClearColumn(a, a, n, i), n, i + 1)
  {
    hide GfMul, Add;
    var a' := ClearColumn(a, a, n, i);
    forall r, c | 0 <= r < n && 0 <= c < i + 1 ensures a'[r][c] == if r == c then 1 else 0 {
      if r != i {
        MulOne(a[r][i]);
        MulZero(a[r][i]);
        AddZero(a[r][i]);
        AddZero(a[r][c]);
      }
    }
  }

  lemma ReduceKeeps(a: Matrix, b: Matrix, a0: Matrix, n: nat, i: nat, p: nat)
    requires i <= p < n && Product(b, a0, a, n) && UnitColumns(a, n, i) && a[p][i] != 0
    ensures var (a', b') := Reduce(a, b, n, i, p);
            Product(b', a0, a', n) && SameKernel(a, a', n) && UnitColumns(a', n, i + 1)
  {
    var a1, b1 := SwapRows(a, i, p), SwapRows(b, i, p);
    var t := GfInv(a1[i][i]);
    var a2, b2 := ScaleRow(a1, i, t), ScaleRow(b1, i, t);
    var a3, b3 := ClearColumn(a2, a2, n, i), ClearColumn(b2, a2, n, i);
    assert Reduce(a, b, n, i, p) == (a3, b3);
    SwapKeeps(a, b, a0, n, i, p);
    MulInv(a1[i][i]);
    ScaleKeeps(a1, b1, a0, n, i, t);
    assert a2[i][i] == GfMul(a1[i][i], t) == 1;
    hide *;
    ClearKeepsProduct(a2, b2, a0, n, i);
    ClearKeepsKernel(a2, n, i);
    ClearMakesUnit(a2, n, i);
    SameKernelTrans(a, a1, a2, n);
    SameKernelTrans(a, a2, a3, n);
  }

  lemma SameKernelTrans(a: Matrix, b: Matrix, c: Matrix, n: nat)
    requires SameKernel(a, b, n) && SameKernel(b, c, n)
    ensures SameKernel(a, c, n)
  {
    hide InKernel;
  }

  // ----- a column without a pivot gives a kernel vector

  function KernelVector(a: Matrix, n: nat, i: nat): (x: Vec)
    requires Shape(a, n, n) && i < n
    ensures |x| == n && x[i] == 1
  {
    seq(n, c requires 0 <= c < n => if c < i then a[c][i] else if c == i then 1 else 0)
  }

  lemma {:induction false} KernelDot(a: Matrix, n: nat, i: nat, r: nat, m: nat)
    requires UnitColumns(a, n, i) && i < n && r < n && m <= n
    requires i <= r ==> a[r][i] == 0
    ensures Dot(a[r], KernelVector(a, n, i), m) ==
            if m <= i && r < m then a[r][i] else 0
  {
    hide GfMul, Add;
    if m != 0 {
      KernelDot(a, n, i, r, m - 1);
      var x := KernelVector(a, n, i);
      MulOne(x[m - 1]);
      MulOne(a[r][m - 1]);
      MulZero(x[m - 1]);
      MulZero(a[r][m - 1]);
      AddZero(x[m - 1]);
      AddZero(a[r][i]);
      AddZero(0);
    }
  }

  lemma PivotlessKernel(a: Matrix, n: nat, i: nat)
    requires UnitColumns(a, n, i) && i < n && PivotRow(a, n, i, i) == n
    ensures InKernel(a, KernelVector(a, n, i))
  {
    hide Dot;
    forall r | 0 <= r < n ensures Dot(a[r], KernelVector(a, n, i), n) == 0 {
      KernelDot(a, n, i, r, n);
    }
  }

  // ----- the whole elimination

  lemma {:induction false} EliminateCorrect(a: Matrix, b: Matrix, a0: Matrix, n: nat, i: nat)
    requires i <= n && Product(b, a0, a, n) && SameKernel(a0, a, n) && UnitColumns(a, n, i)
    ensures var e := Eliminate(a, b, n, i);
            && (e.Inverted? ==> e.reduced == Identity(n) && LeftInverse(e.inverse, a0, n))
            && (e.NotInvertible? ==> exists x: Vec :: |x| == n && x != Zeros(n) && InKernel(a0, x))
    decreases n - i
  {
    hide VecMat, Dot, Reduce, InKernel;
    if i == n {
      forall r | 0 <= r < n ensures a[r] == UnitVec(n, r) {}
      assert a == Identity(n);
    } else {
      var p := PivotRow(a, n, i, i);
      if p == n {
        var x := KernelVector(a, n, i);
        PivotlessKernel(a, n, i);
        assert x != Zeros(n) && InKernel(a0, x);
      } else {
        var (a', b') := Reduce(a, b, n, i, p);
        ReduceKeeps(a, b, a0, n, i, p);
        SameKernelTrans(a0, a, a', n);
        EliminateCorrect(a', b', a0, n, i + 1);
      }
    }
  }

  // Inversion succeeds, with a left inverse and the identity left behind, or it
  // fails and the matrix kills a nonzero vector.
  lemma InvertCorrect(a: Matrix, n: nat)
    requires Shape(a, n, n)
    ensures var e := Invert(a, n);
            && (e.Inverted? ==> e.reduced == Identity(n) && LeftInverse(e.inverse, a, n))
            && (e.NotInvertible? ==> exists x: Vec :: |x| == n && x != Zeros(n) && InKernel(a, x))
  {
    hide VecMat, Dot, InKernel, Eliminate;
    forall r | 0 <= r < n ensures VecMat(Identity(n)[r], a, n, n) == a[r] {
      VecMatUnit(n, r, a);
    }
    EliminateCorrect(a, Identity(n), a, n, 0);
  }

  // The "Not invertible" exception is thrown exactly on singular matrices.
  lemma FailsIffSingular(a: Matrix, n: nat)
    requires Shape(a, n, n)
    ensures Invert(a, n).NotInvertible? <==>
            exists x: Vec :: |x| == n && x != Zeros(n) && InKernel(a, x)
  {
    hide VecMat, Dot, InKernel, Eliminate, Invert;
    InvertCorrect(a, n);
    if Invert(a, n).Inverted? {
      forall x: Vec | |x| == n && InKernel(a, x) ensures x == Zeros(n) {
        LeftInverseTrivialKernel(Invert(a, n).inverse, a, n, x);
      }
    }
  }
}
