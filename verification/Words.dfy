// Eight bytes as one 64-bit word, in the byte order of the machine (little
// endian), and the lane-wise multiply-and-add that RSUtil::encodeData runs on it.

module Words {
  import opened Bytes
  import opened Gf256

  type Word = bv64

  function LowByte(w: Word): Byte {
    (w & 0xff) as Byte
  }

  function Down(w: Word): Word {
    w >> 8
  }

  function Up(w: Word): Word {
    w << 8
  }

  function Or(v: Word, w: Word): Word {
    v | w
  }

  function Xor(v: Word, w: Word): Word {
    v ^ w
  }

  function Widen(b: Byte): Word {
    b as Word
  }

  // Byte i of the word, counted from the low end.
  function Lane(w: Word, i: nat): Byte {
    if i == 0 then LowByte(w) else Lane(Down(w), i - 1)
  }

  // w >> (8 * n).
  function Shifted(w: Word, n: nat): Word {
    if n == 0 then w else Down(Shifted(w, n - 1))
  }

  // w << (8 * n).
  function Raised(w: Word, n: nat): Word {
    if n == 0 then w else Up(Raised(w, n - 1))
  }

  // The word whose low bytes are b, first byte lowest.
  function Load(b: seq<Byte>): Word {
    if b == [] then 0 else Push(b[0], Load(b[1..]))
  }

  // An int8_t operand widened to 64 bits.
  function SignExtend(b: Byte): Word {
    if b & 0x80 != 0 then Or(0xffff_ffff_ffff_ff00, Widen(b)) else Widen(b)
  }

  function Mask(n: nat): Word
    requires n <= 8
  {
    if n == 0 then 0 else if n == 1 then 0xff else if n == 2 then 0xffff else if n == 3 then 0xff_ffff
    else if n == 4 then 0xffff_ffff else if n == 5 then 0xff_ffff_ffff else if n == 6 then 0xffff_ffff_ffff
    else if n == 7 then 0xff_ffff_ffff_ffff else 0xffff_ffff_ffff_ffff
  }

  predicate Fits(w: Word, n: nat)
    requires n <= 8
  {
    w <= Mask(n)
  }

  // x in the low byte, y above it.
  function Push(x: Byte, y: Word): Word {
    Or(Widen(x), Up(y))
  }

  lemma FitsStep(x: Byte, y: Word, n: nat)
    requires n < 8 && Fits(y, n)
    ensures Fits(Push(x, y), n + 1)
  {
    if n == 0 {} else if n == 1 {} else if n == 2 {} else if n == 3 {}
    else if n == 4 {} else if n == 5 {} else if n == 6 {} else {}
  }

  lemma {:induction false} LoadFits(b: seq<Byte>)
    requires |b| <= 8
    ensures Fits(Load(b), |b|)
  {
    if b != [] {
      hide Push, Fits;
      LoadFits(b[1..]);
      FitsStep(b[0], Load(b[1..]), |b| - 1);
    }
  }

  lemma Unpush(x: Byte, y: Word, n: nat)
    requires n <= 7 && Fits(y, n)
    ensures LowByte(Push(x, y)) == x
    ensures Down(Push(x, y)) == y
  {
    assert Mask(n) <= 0xff_ffff_ffff_ffff;
  }

  // Loading eight bytes and looking at lane i gives byte i back.
  lemma {:induction false} LaneOfLoad(b: seq<Byte>, i: nat)
    requires i < |b| <= 8
    ensures Lane(Load(b), i) == b[i]
  {
    hide LowByte, Fits, Push, Down;
    LoadFits(b[1..]);
    Unpush(b[0], Load(b[1..]), |b| - 1);
    if i != 0 { LaneOfLoad(b[1..], i - 1); }
  }

  lemma {:induction false} LaneShifted(w: Word, n: nat)
    ensures Lane(w, n) == LowByte(Shifted(w, n))
    ensures Shifted(w, n + 1) == Shifted(Down(w), n)
    decreases n
  {
    hide LowByte, Down;
    if n != 0 {
      LaneShifted(Down(w), n - 1);
      LaneShifted(w, n - 1);
    }
  }

  lemma {:induction false} LoadSnoc(b: seq<Byte>, x: Byte)
    ensures Load(b + [x]) == Or(Load(b), Raised(Widen(x), |b|))
  {
    hide Up, Or, Widen;
    if b == [] {
      assert (b + [x])[1..] == [];
      OrZero(Widen(x));
    } else {
      LoadSnoc(b[1..], x);
      assert (b + [x])[1..] == b[1..] + [x];
      OrShift(Widen(b[0]), Load(b[1..]), Raised(Widen(x), |b| - 1));
    }
  }

  lemma OrZero(w: Word)
    ensures Or(w, Up(0)) == Or(0, w) == w
  {}

  lemma OrShift(h: Word, y: Word, z: Word)
    ensures Or(h, Up(Or(y, z))) == Or(Or(h, Up(y)), Up(z))
  {
    hide Up, Or;
    UpOr(y, z);
    OrAssoc(h, Up(y), Up(z));
  }

  lemma UpOr(y: Word, z: Word)
    ensures Up(Or(y, z)) == Or(Up(y), Up(z))
  {}

  lemma OrAssoc(u: Word, v: Word, w: Word)
    ensures Or(u, Or(v, w)) == Or(Or(u, v), w)
  {}

  lemma XorLane(t: Word, b: Byte)
    ensures LowByte(Xor(t, SignExtend(b))) == Add(LowByte(t), b)
  {
    hide LowByte, Or, Widen, Xor, Add;
    LowXor(t, SignExtend(b));
    if b & 0x80 != 0 { LowOr(b); } else { LowWiden(b); }
  }

  lemma LowXor(v: Word, w: Word)
    ensures LowByte(Xor(v, w)) == Add(LowByte(v), LowByte(w))
  {}

  lemma LowOr(b: Byte)
    ensures LowByte(Or(0xffff_ffff_ffff_ff00, Widen(b))) == b
  {}

  lemma LowWiden(b: Byte)
    ensures LowByte(Widen(b)) == b
  {}

  // One lane: (unsigned char)(t2 ^ tableLine[0xff & t1]).
  function LaneValue(s: Byte, t1: Word, t2: Word): Byte {
    LowByte(Xor(t2, SignExtend(GfMul(s, LowByte(t1)))))
  }

  // t3 | (x << (8 * k)).
  function PutLane(t3: Word, x: Byte, k: nat): Word {
    Or(t3, Raised(Widen(x), k))
  }

  ghost function Lanes(s: Byte, input: seq<Byte>, output: seq<Byte>): (r: seq<Byte>)
    requires |input| == 8 && |output| == 8
    ensures |r| == 8
  {
    seq(8, i requires 0 <= i < 8 => Add(output[i], GfMul(s, input[i])))
  }

  // The three words after k lanes have been combined.
  ghost predicate Combined(s: Byte, input: seq<Byte>, output: seq<Byte>, k: nat, t1: Word, t2: Word, t3: Word)
    requires |input| == 8 && |output| == 8 && 1 <= k <= 8
  {
    t1 == Shifted(Load(input), k - 1) && t2 == Shifted(Load(output), k - 1) &&
    t3 == Load(Lanes(s, input, output)[..k])
  }

  lemma CombineFirst(s: Byte, input: seq<Byte>, output: seq<Byte>, t1: Word, t2: Word)
    requires |input| == 8 && |output| == 8 && t1 == Load(input) && t2 == Load(output)
    ensures Combined(s, input, output, 1, t1, t2, PutLane(0, LaneValue(s, t1, t2), 0))
  {
    hide Load, LaneValue, PutLane, Shifted, Down, GfMul, Add;
    var r := Lanes(s, input, output);
    ShiftedZero(t1); ShiftedZero(t2);
    LaneStep(s, input, output, t1, t2, 0);
    LoadNext([], r[0], 0);
    assert r[..1] == [] + [r[0]];
  }

  // The word loop's body: t1 holds eight input bytes, t2 eight output bytes, and
  // the result's lane i is output byte i plus s times input byte i.
  method MulAddWord(s: Byte, input: seq<Byte>, output: seq<Byte>) returns (t3: Word)
    requires |input| == 8 && |output| == 8
    ensures forall i :: 0 <= i < 8 ==> Lane(t3, i) == Add(output[i], GfMul(s, input[i]))
  {
    hide *;
    var t1, t2 := Load(input), Load(output);
    t3 := PutLane(0, LaneValue(s, t1, t2), 0);
    CombineFirst(s, input, output, t1, t2);
    for k := 1 to 8
      invariant Combined(s, input, output, k, t1, t2, t3)
    {
      CombineNext(s, input, output, k, t1, t2, t3);
      t1 := Down(t1);
      t2 := Down(t2);
      t3 := PutLane(t3, LaneValue(s, t1, t2), k);
    }
    CombinedLanes(s, input, output, t1, t2, t3);
  }

  lemma LoadNext(b: seq<Byte>, x: Byte, k: nat)
    requires |b| == k
    ensures k == 0 ==> Load(b) == 0
    ensures Load(b + [x]) == PutLane(Load(b), x, k)
  {
    hide Up, Or, Widen;
    LoadSnoc(b, x);
  }

  lemma ShiftedZero(w: Word)
    ensures Shifted(w, 0) == w
  {}

  lemma ShiftedStep(w: Word, n: nat)
    ensures Shifted(w, n + 1) == Down(Shifted(w, n))
  {
    hide Down;
  }

  lemma LaneStep(s: Byte, input: seq<Byte>, output: seq<Byte>, t1: Word, t2: Word, k: nat)
    requires |input| == 8 && |output| == 8 && k < 8
    requires t1 == Shifted(Load(input), k) && t2 == Shifted(Load(output), k)
    ensures LaneValue(s, t1, t2) == Add(output[k], GfMul(s, input[k]))
  {
    hide Load, Lane, GfMul, LowByte, SignExtend, Shifted, Down, Xor, Add;
    LaneShifted(Load(input), k); LaneShifted(Load(output), k);
    LaneOfLoad(input, k); LaneOfLoad(output, k);
    XorLane(t2, GfMul(s, LowByte(t1)));
  }

  lemma CombineNext(s: Byte, input: seq<Byte>, output: seq<Byte>, k: nat, t1: Word, t2: Word, t3: Word)
    requires |input| == 8 && |output| == 8 && 1 <= k < 8 && Combined(s, input, output, k, t1, t2, t3)
    ensures Combined(s, input, output, k + 1, Down(t1), Down(t2),
                     PutLane(t3, LaneValue(s, Down(t1), Down(t2)), k))
  {
    hide Load, LaneValue, PutLane, Shifted, Down, GfMul, Add;
    var r := Lanes(s, input, output);
    ShiftedStep(Load(input), k - 1); ShiftedStep(Load(output), k - 1);
    LaneStep(s, input, output, Down(t1), Down(t2), k);
    LoadNext(r[..k], r[k], k);
    assert r[..k] + [r[k]] == r[..k + 1];
  }

  lemma CombinedLanes(s: Byte, input: seq<Byte>, output: seq<Byte>, t1: Word, t2: Word, t3: Word)
    requires |input| == 8 && |output| == 8 && Combined(s, input, output, 8, t1, t2, t3)
    ensures forall i :: 0 <= i < 8 ==> Lane(t3, i) == Add(output[i], GfMul(s, input[i]))
  {
    hide Load, Lane, Shifted, GfMul, Add;
    var r := Lanes(s, input, output);
    assert r[..8] == r;
    forall i | 0 <= i < 8 ensures Lane(t3, i) == r[i] {
      LaneOfLoad(r, i);
    }
  }
}
