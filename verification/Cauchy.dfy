// The generator matrix of RSUtil::genCauchyMatrix, an identity on top of a
// Cauchy matrix, and the fact the whole code rests on: any k of its rows are
// linearly independent.

module Cauchy {
  import opened Bytes
  import opened Gf256
  import opened Linear
  import opened GaussJordan
  import opened Octets

  // The field element a row or column number stands for: its low eight bits.
  function Point(i: nat): Byte
    requires i < 256
  {
    Octet(i)
  }

  lemma PointInjective(i: nat, j: nat)
    requires i < 256 && j < 256 && i != j
    ensures Point(i) != Point(j) && Add(Point(i), Point(j)) != 0
  {
    hide Add, Octet, Value;
    ValueOfOctet(i);
    ValueOfOctet(j);
    AddNonzero(Point(i), Point(j));
  }

  lemma AddNonzero(a: Byte, b: Byte)
    ensures Add(a, b) == 0 <==> a == b
  {}

  // Row r of the generator matrix for k data units: a unit row, or 1 / (r ^ j).
  function GeneratorRow(k: nat, r: nat): (v: Vec)
    requires k <= 256 && r < 256
    ensures |v| == k
  {
    if r < k then UnitVec(k, r)
    else seq(k, j requires 0 <= j < k => GfInv(Add(Point(r), Point(j))))
  }

  function Generator(k: nat, m: nat): (g: Matrix)
    requires k <= m <= 256
    ensures Shape(g, m, k)
  {
    seq(m, r requires 0 <= r < m => GeneratorRow(k, r))
  }

  function Select(k: nat, rows: seq<nat>): (m: Matrix)
    requires k <= 256 && forall i :: 0 <= i < |rows| ==> rows[i] < 256
    ensures Shape(m, |rows|, k)
  {
    seq(|rows|, i requires 0 <= i < |rows| => GeneratorRow(k, rows[i]))
  }

  // ----- Cauchy systems have only the zero solution

  // The sum of xs[j] / (a + bs[j]) over j < n.
  function CauchySum(xs: Vec, bs: Vec, a: Byte, n: nat): Byte
    requires n <= |xs| && n <= |bs|
  {
    if n == 0 then 0
    else Add(CauchySum(xs, bs, a, n - 1), GfMul(xs[n - 1], GfInv(Add(a, bs[n - 1]))))
  }

  lemma MulPull(u: Byte, x: Byte, p: Byte)
    requires GfMul(u, p) == 1
    ensures GfMul(u, GfMul(x, p)) == x && GfMul(GfMul(x, p), u) == x
  {
    hide *;
    MulComm(u, GfMul(x, p));
    MulAssoc(x, p, u);
    MulComm(p, u);
    MulOne(x);
  }

  // x*w*q*p*(u + v) == (u + w)*x*p + (v + w)*x*q when u*p == v*q == 1.
  lemma CauchyTerm(x: Byte, u: Byte, v: Byte, w: Byte, p: Byte, q: Byte)
    requires GfMul(u, p) == 1 && GfMul(v, q) == 1
    ensures GfMul(GfMul(GfMul(GfMul(x, w), q), p), Add(u, v)) ==
            Add(GfMul(Add(u, w), GfMul(x, p)), GfMul(Add(v, w), GfMul(x, q)))
  {
    hide *;
    var xw := GfMul(x, w);
    var y := GfMul(xw, q);
    MulComm(x, w);
    MulAssoc(w, x, p);
    MulAssoc(w, x, q);
    // left-hand side: y + xw*p
    MulDistrib(GfMul(y, p), u, v);
    MulPull(u, y, p);
    MulAssoc(xw, q, p); MulComm(q, p); MulAssoc(xw, p, q);
    MulPull(v, GfMul(xw, p), q);
    // right-hand side: (x + w*x*p) + (x + w*x*q)
    MulDistrib(GfMul(x, p), u, w);
    MulDistrib(GfMul(x, q), v, w);
    MulPull(u, x, p);
    MulPull(v, x, q);
    AddSwap(x, GfMul(w, GfMul(x, p)), x, GfMul(w, GfMul(x, q)));
    AddZero(x);
    AddZero(Add(GfMul(w, GfMul(x, p)), GfMul(w, GfMul(x, q))));
    AddComm(y, GfMul(xw, p));
  }

  // a + c, rewritten through a third point b.
  lemma Through(a: Byte, b: Byte, c: Byte)
    ensures Add(a, c) == Add(Add(a, b), Add(c, b))
  {
    hide *;
    AddSwap(a, b, c, b);
    AddZero(b);
    AddZero(Add(a, c));
  }

  // One unknown eliminated: the coefficients of the smaller system.
  function Shrink(xs: Vec, bs: Vec, a0: Byte, b0: Byte): (ys: Vec)
    requires |xs| == |bs|
    ensures |ys| == |xs|
  {
    seq(|xs|, j requires 0 <= j < |xs| =>
      GfMul(GfMul(xs[j], Add(b0, bs[j])), GfInv(Add(a0, bs[j]))))
  }

  lemma {:induction false} ShrinkSum(xs: Vec, bs: Vec, a: Byte, a0: Byte, b0: Byte, n: nat)
    requires |xs| == |bs| && n <= |xs|
    requires forall j :: 0 <= j < n ==> a != bs[j] && a0 != bs[j]
    ensures GfMul(CauchySum(Shrink(xs, bs, a0, b0), bs, a, n), Add(a, a0)) ==
            Add(GfMul(Add(a, b0), CauchySum(xs, bs, a, n)), GfMul(Add(a0, b0), CauchySum(xs, bs, a0, n)))
  {
    hide GfMul, GfInv, Add;
    if n == 0 {
      MulZero(Add(a, a0)); MulZero(Add(a, b0)); MulZero(Add(a0, b0));
      AddZero(0);
    } else {
      var ys := Shrink(xs, bs, a0, b0);
      var x, b := xs[n - 1], bs[n - 1];
      var u, v, w := Add(a, b), Add(a0, b), Add(b0, b);
      AddNonzero(a, b); AddNonzero(a0, b);
      MulInv(u); MulInv(v);
      var p, q := GfInv(u), GfInv(v);
      Through(a, b, a0); Through(a, b, b0); Through(a0, b, b0);
      ShrinkSum(xs, bs, a, a0, b0, n - 1);
      CauchyTerm(x, u, v, w, p, q);
      MulDistrib(Add(a, a0), CauchySum(ys, bs, a, n - 1), GfMul(ys[n - 1], p));
      MulDistrib(Add(a, b0), CauchySum(xs, bs, a, n - 1), GfMul(x, p));
      MulDistrib(Add(a0, b0), CauchySum(xs, bs, a0, n - 1), GfMul(x, q));
      AddSwap(GfMul(Add(a, b0), CauchySum(xs, bs, a, n - 1)),
              GfMul(Add(a0, b0), CauchySum(xs, bs, a0, n - 1)),
              GfMul(Add(a, b0), GfMul(x, p)),
              GfMul(Add(a0, b0), GfMul(x, q)));
    }
  }

  // From sum + x0/(a + b0) == 0: (a + b0) * sum == x0.
  lemma Isolate(s: Byte, x0: Byte, d: Byte)
    requires d != 0 && Add(s, GfMul(x0, GfInv(d))) == 0
    ensures GfMul(d, s) == x0
  {
    hide *;
    AddNonzero(s, GfMul(x0, GfInv(d)));
    MulInv(d);
    MulPull(d, x0, GfInv(d));
  }

  lemma {:induction false} CauchyInjective(xs: Vec, bs: Vec, points: Vec, n: nat)
    requires |xs| == |bs| && n <= |xs| && n <= |points|
    requires Distinct(bs) && Distinct(points)
    requires forall i, j :: 0 <= i < n && 0 <= j < n ==> points[i] != bs[j]
    requires forall i :: 0 <= i < n ==> CauchySum(xs, bs, points[i], n) == 0
    ensures forall j :: 0 <= j < n ==> xs[j] == 0
    decreases n
  {
    hide GfMul, GfInv, Add;
    if n != 0 {
      var m := n - 1;
      var a0, b0, x0 := points[m], bs[m], xs[m];
      var ys := Shrink(xs, bs, a0, b0);
      forall i | 0 <= i < n ensures GfMul(Add(points[i], b0), CauchySum(xs, bs, points[i], m)) == x0 {
        AddNonzero(points[i], b0);
        assert CauchySum(xs, bs, points[i], n) == 0;
        Isolate(CauchySum(xs, bs, points[i], m), x0, Add(points[i], b0));
      }
      forall i | 0 <= i < m ensures CauchySum(ys, bs, points[i], m) == 0 {
        ShrinkVanishes(xs, bs, points, n, i);
      }
      CauchyInjective(ys, bs, points, m);
      forall j | 0 <= j < m ensures xs[j] == 0 {
        ShrinkZero(xs, bs, a0, b0, j);
      }
      SumOfZeros(xs, bs, a0, m);
      MulZero(Add(a0, b0));
    }
  }

  lemma ShrinkVanishes(xs: Vec, bs: Vec, points: Vec, n: nat, i: nat)
    requires |xs| == |bs| && 0 < n <= |xs| && n <= |points| && i < n - 1
    requires Distinct(points)
    requires forall i, j :: 0 <= i < n && 0 <= j < n ==> points[i] != bs[j]
    requires forall i :: 0 <= i < n ==>
               GfMul(Add(points[i], bs[n - 1]), CauchySum(xs, bs, points[i], n - 1)) == xs[n - 1]
    ensures CauchySum(Shrink(xs, bs, points[n - 1], bs[n - 1]), bs, points[i], n - 1) == 0
  {
    hide GfMul, GfInv, Add, CauchySum, Shrink;
    var a, a0, b0 := points[i], points[n - 1], bs[n - 1];
    ShrinkSum(xs, bs, a, a0, b0, n - 1);
    AddZero(xs[n - 1]);
    AddNonzero(a, a0);
    var s := CauchySum(Shrink(xs, bs, a0, b0), bs, a, n - 1);
    if s != 0 { MulNonzero(s, Add(a, a0)); }
  }

  lemma ShrinkZero(xs: Vec, bs: Vec, a0: Byte, b0: Byte, j: nat)
    requires |xs| == |bs| && j < |xs| && a0 != bs[j] && b0 != bs[j]
    requires Shrink(xs, bs, a0, b0)[j] == 0
    ensures xs[j] == 0
  {
    hide GfMul, GfInv, Add;
    AddNonzero(a0, bs[j]); AddNonzero(b0, bs[j]);
    MulInv(Add(a0, bs[j]));
    if xs[j] != 0 {
      MulNonzero(xs[j], Add(b0, bs[j]));
      MulNonzero(GfMul(xs[j], Add(b0, bs[j])), GfInv(Add(a0, bs[j])));
    }
  }

  lemma {:induction false} SumOfZeros(xs: Vec, bs: Vec, a: Byte, n: nat)
    requires n <= |xs| && n <= |bs| && forall j :: 0 <= j < n ==> xs[j] == 0
    ensures CauchySum(xs, bs, a, n) == 0
  {
    hide GfMul, GfInv, Add;
    if n != 0 {
      SumOfZeros(xs, bs, a, n - 1);
      MulZero(GfInv(Add(a, bs[n - 1])));
      AddZero(0);
    }
  }

  // ----- any k distinct rows of the generator are independent

  // The column numbers below m that are not in chosen, ascending.
  function Free(chosen: set<nat>, m: nat): seq<nat> {
    if m == 0 then []
    else if m - 1 in chosen then Free(chosen, m - 1)
    else Free(chosen, m - 1) + [m - 1]
  }

  lemma {:induction false} FreeMembers(chosen: set<nat>, m: nat)
    ensures forall i :: 0 <= i < |Free(chosen, m)| ==> Free(chosen, m)[i] < m && Free(chosen, m)[i] !in chosen
    ensures forall j :: 0 <= j < m && j !in chosen ==> j in Free(chosen, m)
    ensures Distinct(Free(chosen, m))
  {
    if m != 0 { FreeMembers(chosen, m - 1); }
  }

  lemma {:induction false} FreeCount(chosen: set<nat>, m: nat)
    requires forall c :: c in chosen ==> c < m
    ensures |Free(chosen, m)| + |chosen| == m
  {
    if m != 0 {
      if m - 1 in chosen {
        var rest := chosen - {m - 1};
        FreeCount(rest, m - 1);
        FreeAgrees(chosen, rest, m - 1);
      } else {
        FreeCount(chosen, m - 1);
      }
    } else {
      assert chosen == {};
    }
  }

  lemma {:induction false} FreeAgrees(c1: set<nat>, c2: set<nat>, m: nat)
    requires forall j :: 0 <= j < m ==> (j in c1 <==> j in c2)
    ensures Free(c1, m) == Free(c2, m)
  {
    if m != 0 { FreeAgrees(c1, c2, m - 1); }
  }

  // The parity rows and the set of data rows among the first n chosen rows.
  function ParityRows(rows: seq<nat>, k: nat, n: nat): seq<nat>
    requires n <= |rows|
  {
    if n == 0 then []
    else if rows[n - 1] < k then ParityRows(rows, k, n - 1)
    else ParityRows(rows, k, n - 1) + [rows[n - 1]]
  }

  function DataRows(rows: seq<nat>, k: nat, n: nat): set<nat>
    requires n <= |rows|
  {
    if n == 0 then {}
    else if rows[n - 1] < k then DataRows(rows, k, n - 1) + {rows[n - 1]}
    else DataRows(rows, k, n - 1)
  }

  lemma {:induction false} ParityMembers(rows: seq<nat>, k: nat, n: nat)
    requires n <= |rows|
    ensures forall t :: 0 <= t < |ParityRows(rows, k, n)| ==>
              k <= ParityRows(rows, k, n)[t] && ParityRows(rows, k, n)[t] in rows[..n]
  {
    if n != 0 { ParityMembers(rows, k, n - 1); }
  }

  lemma {:induction false} DataMembers(rows: seq<nat>, k: nat, n: nat)
    requires n <= |rows|
    ensures forall r :: r in DataRows(rows, k, n) ==> r < k && r in rows[..n]
  {
    if n != 0 { DataMembers(rows, k, n - 1); }
  }

  lemma {:induction false} RowsSplit(rows: seq<nat>, k: nat, n: nat)
    requires n <= |rows| && Distinct(rows)
    ensures |ParityRows(rows, k, n)| + |DataRows(rows, k, n)| == n
  {
    if n != 0 {
      RowsSplit(rows, k, n - 1);
      DataMembers(rows, k, n - 1);
      assert rows[n - 1] !in rows[..n - 1];
      hide Distinct;
    }
  }

  lemma {:induction false} ParityDistinct(rows: seq<nat>, k: nat, n: nat)
    requires n <= |rows| && Distinct(rows)
    ensures Distinct(ParityRows(rows, k, n))
  {
    if n != 0 {
      ParityDistinct(rows, k, n - 1);
      ParityMembers(rows, k, n - 1);
      DistinctSnoc(ParityRows(rows, k, n - 1), rows[n - 1]);
    }
  }

  lemma DistinctSnoc(s: seq<nat>, r: nat)
    requires Distinct(s) && forall t :: 0 <= t < |s| ==> s[t] != r
    ensures Distinct(s + [r])
  {}

  function Points(s: seq<nat>): (v: Vec)
    requires forall i :: 0 <= i < |s| ==> s[i] < 256
    ensures |v| == |s|
  {
    seq(|s|, i requires 0 <= i < |s| => Point(s[i]))
  }

  lemma PointsDistinct(s: seq<nat>)
    requires Distinct(s) && forall i :: 0 <= i < |s| ==> s[i] < 256
    ensures Distinct(Points(s))
  {
    forall i, j | 0 <= i < j < |s| ensures Points(s)[i] != Points(s)[j] {
      PointInjective(s[i], s[j]);
    }
  }

  function Pick(x: Vec, s: seq<nat>): (v: Vec)
    requires forall i :: 0 <= i < |s| ==> s[i] < |x|
    ensures |v| == |s|
  {
    seq(|s|, i requires 0 <= i < |s| => x[s[i]])
  }

  // A parity row applied to x is a Cauchy sum over the free columns, when x is
  // zero in the others.
  lemma {:induction false} ParityDot(k: nat, r: nat, x: Vec, chosen: set<nat>, m: nat)
    requires k <= r < 256 && |x| == k && m <= k
    requires forall j :: 0 <= j < m && j in chosen ==> x[j] == 0
    ensures var f := Free(chosen, m);
            && (forall i :: 0 <= i < |f| ==> f[i] < m)
            && Dot(GeneratorRow(k, r), x, m) == CauchySum(Pick(x, f), Points(f), Point(r), |f|)
  {
    hide GfMul, GfInv, Add, Point, GeneratorRow;
    FreeMembers(chosen, m);
    if m != 0 {
      FreeMembers(chosen, m - 1);
      ParityDot(k, r, x, chosen, m - 1);
      var f0, f := Free(chosen, m - 1), Free(chosen, m);
      assert f == if m - 1 in chosen then f0 else f0 + [m - 1];
      hide Dot, CauchySum, Free, Pick, Points;
      ParityDotStep(k, r, x, chosen, m, f0, f);
    }
  }

  lemma ParityDotStep(k: nat, r: nat, x: Vec, chosen: set<nat>, m: nat, f0: seq<nat>, f: seq<nat>)
    requires k <= r < 256 && |x| == k && 0 < m <= k
    requires m - 1 in chosen ==> x[m - 1] == 0 && f == f0
    requires m - 1 !in chosen ==> f == f0 + [m - 1]
    requires forall i :: 0 <= i < |f0| ==> f0[i] < m - 1
    requires Dot(GeneratorRow(k, r), x, m - 1) == CauchySum(Pick(x, f0), Points(f0), Point(r), |f0|)
    ensures forall i :: 0 <= i < |f| ==> f[i] < m
    ensures Dot(GeneratorRow(k, r), x, m) == CauchySum(Pick(x, f), Points(f), Point(r), |f|)
  {
    hide GfMul, GfInv, Add, Point;
    var g := GeneratorRow(k, r)[m - 1];
    if m - 1 in chosen {
      MulZero(g);
      AddZero(Dot(GeneratorRow(k, r), x, m - 1));
    } else {
      CauchySumPrefix(Pick(x, f), Points(f), Pick(x, f0), Points(f0), Point(r), |f0|);
      MulComm(x[m - 1], g);
    }
  }

  lemma {:induction false} CauchySumPrefix(xs: Vec, bs: Vec, xs': Vec, bs': Vec, a: Byte, n: nat)
    requires n <= |xs| && n <= |bs| && n <= |xs'| && n <= |bs'|
    requires forall j :: 0 <= j < n ==> xs[j] == xs'[j] && bs[j] == bs'[j]
    ensures CauchySum(xs, bs, a, n) == CauchySum(xs', bs', a, n)
  {
    hide GfMul, GfInv, Add;
    if n != 0 { CauchySumPrefix(xs, bs, xs', bs', a, n - 1); }
  }

  lemma SelectKernel(k: nat, rows: seq<nat>, x: Vec)
    requires |rows| == k <= 256 && Distinct(rows) && forall i :: 0 <= i < k ==> rows[i] < 256
    requires |x| == k && InKernel(Select(k, rows), x)
    ensures x == Zeros(k)
  {
    hide GfMul, GfInv, Add, Dot, CauchySum, Point;
    var d, p := DataRows(rows, k, k), ParityRows(rows, k, k);
    DataMembers(rows, k, k);
    ParityMembers(rows, k, k);
    forall r | r in d ensures x[r] == 0 {
      var i :| 0 <= i < k && rows[i] == r;
      assert Dot(Select(k, rows)[i], x, k) == 0;
      DotUnit(k, r, x, k);
    }
    var f := Free(d, k);
    FreeMembers(d, k);
    FreeCount(d, k);
    RowsSplit(rows, k, k);
    ParityDistinct(rows, k, k);
    PointsDistinct(f);
    PointsDistinct(p);
    forall i, j | 0 <= i < |p| && 0 <= j < |f| ensures Points(p)[i] != Points(f)[j] {
      PointInjective(p[i], f[j]);
    }
    forall i | 0 <= i < |f| ensures CauchySum(Pick(x, f), Points(f), Points(p)[i], |f|) == 0 {
      var t :| 0 <= t < k && rows[t] == p[i];
      assert Dot(Select(k, rows)[t], x, k) == 0;
      ParityDot(k, p[i], x, d, k);
    }
    CauchyInjective(Pick(x, f), Points(f), Points(p), |f|);
    forall j | 0 <= j < k ensures x[j] == 0 {
      if j !in d {
        var t :| 0 <= t < |f| && f[t] == j;
        assert Pick(x, f)[t] == 0;
      }
    }
  }

  // Every choice of k distinct generator rows is invertible.
  lemma AnyRowsInvertible(k: nat, rows: seq<nat>)
    requires |rows| == k <= 256 && Distinct(rows) && forall i :: 0 <= i < k ==> rows[i] < 256
    ensures Invert(Select(k, rows), k).Inverted?
    ensures LeftInverse(Invert(Select(k, rows), k).inverse, Select(k, rows), k)
  {
    hide Invert, InKernel, LeftInverse, GeneratorRow;
    InvertCorrect(Select(k, rows), k);
    if Invert(Select(k, rows), k).NotInvertible? {
      var x: Vec :| |x| == k && x != Zeros(k) && InKernel(Select(k, rows), x);
      SelectKernel(k, rows, x);
    }
  }
}
