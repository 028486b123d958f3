// Vectors and matrices over GF(2^8): dot products, row operations, and the
// laws that relate them.

module Linear {
  import opened Bytes
  import opened Gf256

  type Matrix = seq<Vec>

  predicate Shape(m: Matrix, rows: nat, cols: nat) {
    |m| == rows && forall r :: 0 <= r < rows ==> |m[r]| == cols
  }

  // The sum of the first n products.
  function Dot(u: Vec, v: Vec, n: nat): Byte
    requires n <= |u| && n <= |v|
  {
    if n == 0 then 0 else Add(Dot(u, v, n - 1), GfMul(u[n - 1], v[n - 1]))
  }

  function Scale(v: Vec, t: Byte): (w: Vec)
    ensures |w| == |v|
  {
    seq(|v|, c requires 0 <= c < |v| => GfMul(v[c], t))
  }

  // v + t * w.
  function AddMul(v: Vec, t: Byte, w: Vec): (s: Vec)
    requires |v| == |w|
    ensures |s| == |v|
  {
    seq(|v|, c requires 0 <= c < |v| => Add(v[c], GfMul(t, w[c])))
  }

  function UnitVec(n: nat, i: nat): (v: Vec)
    ensures |v| == n
  {
    seq(n, c => if c == i then 1 as Byte else 0 as Byte)
  }

  function Identity(n: nat): (m: Matrix)
    ensures Shape(m, n, n)
  {
    seq(n, r requires 0 <= r < n => UnitVec(n, r))
  }

  function Column(m: Matrix, c: nat): (v: Vec)
    requires forall r :: 0 <= r < |m| ==> c < |m[r]|
    ensures |v| == |m|
  {
    seq(|m|, r requires 0 <= r < |m| => m[r][c])
  }

  // The row vector u times m, using the first n rows only.
  function VecMat(u: Vec, m: Matrix, cols: nat, n: nat): (v: Vec)
    requires n <= |u| && n <= |m| && Shape(m, |m|, cols)
    ensures |v| == cols
  {
    seq(cols, c requires 0 <= c < cols => Dot(u, Column(m, c), n))
  }

  function MatVec(m: Matrix, x: Vec): (v: Vec)
    requires Shape(m, |m|, |x|)
    ensures |v| == |m|
  {
    seq(|m|, r requires 0 <= r < |m| => Dot(m[r], x, |x|))
  }

  ghost predicate InKernel(m: Matrix, x: Vec) {
    Shape(m, |m|, |x|) && forall r :: 0 <= r < |m| ==> Dot(m[r], x, |x|) == 0
  }

  // b * a == identity, row by row.
  ghost predicate LeftInverse(b: Matrix, a: Matrix, n: nat) {
    Shape(a, n, n) && Shape(b, n, n) &&
    forall r :: 0 <= r < n ==> VecMat(b[r], a, n, n) == UnitVec(n, r)
  }

  // ----- laws

  lemma {:induction false} DotZero(v: Vec, n: nat)
    requires n <= |v|
    ensures Dot(Zeros(|v|), v, n) == 0 && Dot(v, Zeros(|v|), n) == 0
  {
    hide GfMul, Add;
    if n != 0 {
      DotZero(v, n - 1);
      MulZero(v[n - 1]);
      AddZero(0);
    }
  }

  lemma {:induction false} DotScale(u: Vec, t: Byte, x: Vec, n: nat)
    requires n <= |u| && n <= |x|
    ensures Dot(Scale(u, t), x, n) == GfMul(t, Dot(u, x, n))
  {
    hide GfMul, Add;
    if n == 0 {
      MulZero(t);
    } else {
      DotScale(u, t, x, n - 1);
      var a, b := u[n - 1], x[n - 1];
      MulComm(a, t);
      MulAssoc(t, a, b);
      MulDistrib(t, Dot(u, x, n - 1), GfMul(a, b));
    }
  }

  lemma AddSwap(a: Byte, b: Byte, c: Byte, d: Byte)
    ensures Add(Add(a, b), Add(c, d)) == Add(Add(a, c), Add(b, d))
  {
    hide Add;
    AddAssoc(a, b, Add(c, d));
    AddAssoc(b, c, d);
    AddComm(b, c);
    AddAssoc(c, b, d);
    AddAssoc(a, c, Add(b, d));
  }

  lemma {:induction false} DotAddMul(u: Vec, t: Byte, w: Vec, x: Vec, n: nat)
    requires |u| == |w| && n <= |u| && n <= |x|
    ensures Dot(AddMul(u, t, w), x, n) == Add(Dot(u, x, n), GfMul(t, Dot(w, x, n)))
  {
    hide GfMul, Add;
    if n == 0 {
      MulZero(t);
      AddZero(0);
    } else {
      DotAddMul(u, t, w, x, n - 1);
      var a, b, c := u[n - 1], w[n - 1], x[n - 1];
      MulDistrib(c, a, GfMul(t, b));
      MulAssoc(t, b, c);
      MulDistrib(t, Dot(w, x, n - 1), GfMul(b, c));
      AddSwap(Dot(u, x, n - 1), GfMul(t, Dot(w, x, n - 1)), GfMul(a, c), GfMul(t, GfMul(b, c)));
    }
  }

  lemma {:induction false} DotUnit(n: nat, i: nat, x: Vec, m: nat)
    requires m <= n && n <= |x|
    ensures Dot(UnitVec(n, i), x, m) == if i < m then x[i] else 0
  {
    hide GfMul, Add;
    if m != 0 {
      DotUnit(n, i, x, m - 1);
      MulZero(x[m - 1]);
      MulOne(x[m - 1]);
      AddZero(Dot(UnitVec(n, i), x, m - 1));
      AddZero(x[m - 1]);
    }
  }

  lemma {:induction false} VecMatAssoc(u: Vec, m: Matrix, x: Vec, n: nat)
    requires n <= |u| && n <= |m| && Shape(m, |m|, |x|)
    ensures Dot(u, MatVec(m, x), n) == Dot(VecMat(u, m, |x|, n), x, |x|)
  {
    hide GfMul, Add;
    if n == 0 {
      assert VecMat(u, m, |x|, 0) == Zeros(|x|);
      DotZero(x, |x|);
    } else {
      VecMatAssoc(u, m, x, n - 1);
      VecMatStep(u, m, |x|, n);
      DotAddMul(VecMat(u, m, |x|, n - 1), u[n - 1], m[n - 1], x, |x|);
    }
  }

  lemma VecMatStep(u: Vec, m: Matrix, cols: nat, n: nat)
    requires 0 < n <= |u| && n <= |m| && Shape(m, |m|, cols)
    ensures VecMat(u, m, cols, n) == AddMul(VecMat(u, m, cols, n - 1), u[n - 1], m[n - 1])
  {
    hide GfMul, Add;
  }

  lemma VecMatUnit(n: nat, i: nat, m: Matrix)
    requires i < n && Shape(m, n, n)
    ensures VecMat(UnitVec(n, i), m, n, n) == m[i]
  {
    hide GfMul, Add;
    forall c | 0 <= c < n ensures Dot(UnitVec(n, i), Column(m, c), n) == m[i][c] {
      DotUnit(n, i, Column(m, c), n);
    }
  }

  lemma VecMatScale(u: Vec, t: Byte, m: Matrix, n: nat)
    requires |u| == n && Shape(m, n, n)
    ensures VecMat(Scale(u, t), m, n, n) == Scale(VecMat(u, m, n, n), t)
  {
    hide GfMul, Add, Dot;
    forall c | 0 <= c < n
      ensures Dot(Scale(u, t), Column(m, c), n) == GfMul(Dot(u, Column(m, c), n), t)
    {
      DotScale(u, t, Column(m, c), n);
      MulComm(t, Dot(u, Column(m, c), n));
    }
  }

  lemma VecMatAddMul(u: Vec, t: Byte, w: Vec, m: Matrix, n: nat)
    requires |u| == n && |w| == n && Shape(m, n, n)
    ensures VecMat(AddMul(u, t, w), m, n, n) == AddMul(VecMat(u, m, n, n), t, VecMat(w, m, n, n))
  {
    hide GfMul, Add, Dot;
    forall c | 0 <= c < n
      ensures Dot(AddMul(u, t, w), Column(m, c), n) ==
              Add(Dot(u, Column(m, c), n), GfMul(t, Dot(w, Column(m, c), n)))
    {
      DotAddMul(u, t, w, Column(m, c), n);
    }
  }

  // A left inverse recovers every vector from its image.
  lemma LeftInverseRecovers(b: Matrix, a: Matrix, n: nat, x: Vec)
    requires LeftInverse(b, a, n) && |x| == n
    ensures MatVec(b, MatVec(a, x)) == x
  {
    hide GfMul, Add, Dot;
    forall r | 0 <= r < n ensures Dot(b[r], MatVec(a, x), n) == x[r] {
      VecMatAssoc(b[r], a, x, n);
      DotUnit(n, r, x, n);
    }
  }

  // Hence a matrix with a left inverse kills only the zero vector.
  lemma LeftInverseTrivialKernel(b: Matrix, a: Matrix, n: nat, x: Vec)
    requires LeftInverse(b, a, n) && |x| == n && InKernel(a, x)
    ensures x == Zeros(n)
  {
    hide GfMul, Add, Dot;
    LeftInverseRecovers(b, a, n, x);
    assert MatVec(a, x) == Zeros(n);
    forall r | 0 <= r < n ensures Dot(b[r], Zeros(n), n) == 0 {
      DotZero(b[r], n);
    }
  }
}
