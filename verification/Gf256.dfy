// Arithmetic of GF(2^8) as GF256.cpp computes it, by table lookup, and the
// proof that those lookups are multiplication and inversion in a field.

module Gf256 {
  import opened Bytes
  import opened GfTables

  // gfMul. Logarithms are in 1..255 for nonzero bytes (log 1 is 255, not 0), so
  // the reduced index may be 255, which the 256th table entry serves.
  function GfMul(a: Byte, b: Byte): Byte {
    if a == 0 || b == 0 then 0
    else
      LogInverts(a);
      LogInverts(b);
      var tmp := GfLogBase(a) + GfLogBase(b);
      GfBase(if tmp > 254 then tmp - 255 else tmp)
  }

  // The value of a stored byte read back as a signed 8-bit integer.
  function AsInt8(v: int): int {
    if v >= 128 then v - 256 else v
  }

  // gfInv. The logarithm is read signed, and masking with 0xff undoes that.
  function GfInv(a: Byte): Byte {
    if a == 0 then 0 else GfBase((255 - AsInt8(GfLogBase(a))) % 256)
  }

  // Addition in the field, the ^ of the code, under a name of its own so that
  // algebra over it need not look at bits.
  function Add(a: Byte, b: Byte): Byte {
    a ^ b
  }

  // n-fold multiplication by x.
  function TimesX(n: nat, v: Byte): Byte {
    if n == 0 then v else Xtime(TimesX(n - 1, v))
  }

  // ----- TimesX: additive in the exponent and linear over xor

  lemma TimesXStep(n: nat, v: Byte)
    ensures TimesX(0, v) == v
    ensures TimesX(n + 1, v) == Xtime(TimesX(n, v))
  {
    hide Xtime;
  }

  lemma {:induction false} TimesXAdd(m: nat, n: nat, v: Byte)
    ensures TimesX(m + n, v) == TimesX(m, TimesX(n, v))
  {
    hide Xtime;
    if m != 0 { TimesXAdd(m - 1, n, v); }
  }

  lemma ShiftXor(a: Byte, b: Byte)
    ensures (a ^ b) << 1 == (a << 1) ^ (b << 1)
  {}

  lemma TopXor(a: Byte, b: Byte)
    ensures (a ^ b) & 0x80 == (a & 0x80) ^ (b & 0x80)
  {}

  lemma TopBit(a: Byte)
    ensures a & 0x80 == 0 || a & 0x80 == 0x80
  {}

  lemma CarryXor(p: Byte, q: Byte)
    ensures (p ^ 0x1d) ^ q == (p ^ q) ^ 0x1d == p ^ (q ^ 0x1d)
    ensures (p ^ 0x1d) ^ (q ^ 0x1d) == p ^ q
  {}

  lemma XtimeLinear(a: Byte, b: Byte)
    ensures Xtime(Add(a, b)) == Add(Xtime(a), Xtime(b))
  {
    ShiftXor(a, b);
    TopXor(a, b);
    TopBit(a);
    TopBit(b);
    CarryXor(a << 1, b << 1);
  }

  lemma {:induction false} TimesXLinear(n: nat, a: Byte, b: Byte)
    ensures TimesX(n, Add(a, b)) == Add(TimesX(n, a), TimesX(n, b))
  {
    hide *;
    if n == 0 {
      TimesXStep(0, a); TimesXStep(0, b); TimesXStep(0, Add(a, b));
    } else {
      TimesXStep(n - 1, a); TimesXStep(n - 1, b); TimesXStep(n - 1, Add(a, b));
      TimesXLinear(n - 1, a, b);
      XtimeLinear(TimesX(n - 1, a), TimesX(n - 1, b));
    }
  }

  lemma {:induction false} TimesXZero(n: nat)
    ensures TimesX(n, 0) == 0
  {
    if n != 0 { TimesXZero(n - 1); }
  }

  // ----- the tables are the powers of x

  lemma {:induction false} BaseIsPower(i: nat)
    requires i < 256
    ensures GfBase(i) == TimesX(i, 1)
  {
    if i != 0 {
      BaseIsPower(i - 1);
      BaseStep(i - 1);
      hide GfBase, Xtime;
    }
  }

  lemma Period(v: Byte)
    ensures TimesX(255, v) == v
  {
    assert GfBase(255) == 1;
    if v != 0 {
      LogInverts(v);
      hide *;
      var n := GfLogBase(v);
      BaseIsPower(255);
      BaseIsPower(n);
      TimesXAdd(255, n, 1);
      TimesXAdd(n, 255, 1);
    } else {
      TimesXZero(255);
    }
  }

  // ----- what the table product means

  // The product as a shift: multiplying by a is multiplying by x, log a times.
  lemma MulIsShift(a: Byte, b: Byte)
    requires a != 0
    ensures 1 <= GfLogBase(a) <= 255 && a == TimesX(GfLogBase(a), 1)
    ensures GfMul(a, b) == TimesX(GfLogBase(a), b)
  {
    hide *;
    LogInverts(a);
    var m := GfLogBase(a);
    BaseIsPower(m);
    if b == 0 {
      MulZero(a);
      TimesXZero(m);
    } else {
      LogInverts(b);
      var n := GfLogBase(b);
      BaseIsPower(n);
      TimesXAdd(m, n, 1);
      MulLogs(a, b);
      if m + n > 254 {
        BaseIsPower(m + n - 255);
        TimesXAdd(255, m + n - 255, 1);
        Period(TimesX(m + n - 255, 1));
      } else {
        BaseIsPower(m + n);
      }
    }
  }

  lemma MulLogs(a: Byte, b: Byte)
    requires a != 0 && b != 0
    ensures 1 <= GfLogBase(a) <= 255 && 1 <= GfLogBase(b) <= 255
    ensures var tmp := GfLogBase(a) + GfLogBase(b);
            GfMul(a, b) == GfBase(if tmp > 254 then tmp - 255 else tmp)
  {
    hide GfLogBase, GfBase;
    LogInverts(a);
    LogInverts(b);
  }

  // ----- field laws

  lemma AddZero(a: Byte)
    ensures Add(a, 0) == a && Add(0, a) == a && Add(a, a) == 0
  {}

  lemma AddComm(a: Byte, b: Byte)
    ensures Add(a, b) == Add(b, a)
  {}

  lemma AddAssoc(a: Byte, b: Byte, c: Byte)
    ensures Add(Add(a, b), c) == Add(a, Add(b, c))
  {}

  lemma MulZero(a: Byte)
    ensures GfMul(0, a) == 0 && GfMul(a, 0) == 0
  {}

  lemma MulComm(a: Byte, b: Byte)
    ensures GfMul(a, b) == GfMul(b, a)
  {
    hide GfBase, GfLogBase;
  }

  lemma MulOne(a: Byte)
    ensures GfMul(1, a) == a && GfMul(a, 1) == a
  {
    assert GfLogBase(1) == 255;
    MulIsShift(1, a);
    Period(a);
    MulComm(1, a);
  }

  lemma MulNonzero(a: Byte, b: Byte)
    requires a != 0 && b != 0
    ensures GfMul(a, b) != 0
  {
    hide *;
    MulIsShift(a, b);
    ShiftNonzero(GfLogBase(a), b);
  }

  lemma {:induction false} ShiftNonzero(n: nat, b: Byte)
    requires b != 0
    ensures TimesX(n, b) != 0
  {
    if n != 0 {
      ShiftNonzero(n - 1, b);
      XtimeNonzero(TimesX(n - 1, b));
    }
  }

  lemma XtimeNonzero(v: Byte)
    requires v != 0
    ensures Xtime(v) != 0
  {}

  lemma MulAssoc(a: Byte, b: Byte, c: Byte)
    ensures GfMul(GfMul(a, b), c) == GfMul(a, GfMul(b, c))
  {
    if a == 0 || b == 0 || c == 0 {
      MulZero(a); MulZero(b); MulZero(c);
      MulZero(GfMul(a, b)); MulZero(GfMul(b, c));
      hide *;
    } else {
      hide *;
      MulNonzero(a, b);
      MulIsShift(a, b);
      MulIsShift(b, c);
      MulIsShift(a, GfMul(b, c));
      MulIsShift(c, GfMul(a, b));
      MulComm(c, GfMul(a, b));
      var l, m, n := GfLogBase(a), GfLogBase(b), GfLogBase(c);
      TimesXAdd(m, n, 1);
      TimesXAdd(n, m, 1);
      TimesXAdd(l, m + n, 1);
      TimesXAdd(n, l + m, 1);
      TimesXAdd(l, m, 1);
      assert l + (m + n) == n + (l + m);
    }
  }

  lemma MulDistrib(a: Byte, b: Byte, c: Byte)
    ensures GfMul(a, Add(b, c)) == Add(GfMul(a, b), GfMul(a, c))
    ensures GfMul(Add(b, c), a) == Add(GfMul(b, a), GfMul(c, a))
  {
    hide *;
    MulComm(a, Add(b, c)); MulComm(a, b); MulComm(a, c);
    if a == 0 {
      MulZero(b); MulZero(c); MulZero(Add(b, c));
      AddZero(0);
    } else {
      MulIsShift(a, Add(b, c)); MulIsShift(a, b); MulIsShift(a, c);
      TimesXLinear(GfLogBase(a), b, c);
    }
  }

  lemma InvIsPower(a: Byte)
    requires a != 0
    ensures 1 <= GfLogBase(a) <= 255 && GfInv(a) == TimesX(255 - GfLogBase(a), 1)
  {
    hide GfBase, GfLogBase, TimesX;
    LogInverts(a);
    BaseIsPower(255 - GfLogBase(a));
  }

  // gfInv is the multiplicative inverse of every nonzero byte.
  lemma MulInv(a: Byte)
    requires a != 0
    ensures GfInv(a) != 0
    ensures GfMul(a, GfInv(a)) == 1 && GfMul(GfInv(a), a) == 1
  {
    hide *;
    InvIsPower(a);
    MulIsShift(a, GfInv(a));
    TimesXAdd(GfLogBase(a), 255 - GfLogBase(a), 1);
    Period(1);
    ShiftNonzero(255 - GfLogBase(a), 1);
    MulComm(a, GfInv(a));
  }

  lemma MulXtime(a: Byte, b: Byte)
    ensures GfMul(a, Xtime(b)) == Xtime(GfMul(a, b))
  {
    hide *;
    if a == 0 {
      MulZero(b); MulZero(Xtime(b));
      TimesXStep(0, 0); TimesXZero(1); TimesXZero(0);
    } else {
      var n := GfLogBase(a);
      MulIsShift(a, b);
      MulIsShift(a, Xtime(b));
      TimesXAdd(n, 1, b);
      TimesXAdd(1, n, b);
      TimesXStep(0, b);
      TimesXStep(0, TimesX(n, b));
    }
  }

  // ----- reference: schoolbook multiplication of polynomials over GF(2)

  // The single-bit byte x^i.
  function Monomial(i: nat): Byte
    requires i < 8
  {
    if i == 0 then 0x01 else if i == 1 then 0x02 else if i == 2 then 0x04 else if i == 3 then 0x08
    else if i == 4 then 0x10 else if i == 5 then 0x20 else if i == 6 then 0x40 else 0x80
  }

  // The sum of a * x^i over the bits i < n that are set in b, reduced modulo
  // x^8 + x^4 + x^3 + x^2 + 1.
  function PolyMul(a: Byte, b: Byte, n: nat): Byte
    requires n <= 8
  {
    if n == 0 then 0
    else Add(PolyMul(a, b, n - 1), if b & Monomial(n - 1) != 0 then TimesX(n - 1, a) else 0)
  }

  // The part of b below x^n.
  function Low(b: Byte, n: nat): Byte
    requires n <= 8
  {
    if n == 0 then 0 else Add(Low(b, n - 1), b & Monomial(n - 1))
  }

  lemma LowAll(b: Byte)
    ensures Low(b, 8) == b
  {
    assert Low(b, 2) == Low(b, 1) ^ (b & 0x02) == b & 0x03;
    assert Low(b, 4) == Low(b, 3) ^ (b & 0x08) == b & 0x0f;
    assert Low(b, 6) == Low(b, 5) ^ (b & 0x20) == b & 0x3f;
    assert Low(b, 8) == Low(b, 7) ^ (b & 0x80);
  }

  lemma BitOrNothing(b: Byte, i: nat)
    requires i < 8
    ensures b & Monomial(i) == 0 || b & Monomial(i) == Monomial(i)
  {}

  lemma MonomialIsPower(i: nat)
    requires i < 8
    ensures Monomial(i) == TimesX(i, 1)
  {
    BaseIsPower(i);
  }

  lemma MulMonomial(a: Byte, i: nat)
    requires i < 8
    ensures GfMul(a, Monomial(i)) == TimesX(i, a)
  {
    hide *;
    MonomialIsPower(i);
    if a == 0 {
      MulZero(Monomial(i));
      TimesXZero(i);
    } else {
      MulIsShift(a, Monomial(i));
      TimesXAdd(GfLogBase(a), i, 1);
      TimesXAdd(i, GfLogBase(a), 1);
    }
  }

  lemma {:induction false} MulLow(a: Byte, b: Byte, n: nat)
    requires n <= 8
    ensures GfMul(a, Low(b, n)) == PolyMul(a, b, n)
  {
    hide GfMul, TimesX, Monomial, Add;
    MulZero(a);
    if n != 0 {
      MulLow(a, b, n - 1);
      MulDistrib(a, Low(b, n - 1), b & Monomial(n - 1));
      BitOrNothing(b, n - 1);
      MulMonomial(a, n - 1);
    }
  }

  // The table product is the product of polynomials modulo the field polynomial.
  lemma MulIsPolynomialProduct(a: Byte, b: Byte)
    ensures GfMul(a, b) == PolyMul(a, b, 8)
  {
    hide *;
    LowAll(b);
    MulLow(a, b, 8);
  }
}
