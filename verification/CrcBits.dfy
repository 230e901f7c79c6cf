/** Steps of a 16-bit shift register, forwards and mirrored, and what they do to its bits. */
module CrcBits {

  type Register = bv16

  function Choose<T>(c: bool, a: T, b: T): T {
    if c then a else b
  }

  predicate LowEnd(s: Register) {
    s & 1 == 1
  }

  predicate TopEnd(s: Register) {
    s >> 15 == 1
  }

  /** One bit into the register that shifts right. */
  function Right(s: Register, bit: bool): Register {
    Choose(LowEnd(s) != bit, (s >> 1) ^ 0xA001, s >> 1)
  }

  /** One bit into the register that shifts left. */
  function Left(s: Register, bit: bool): Register {
    Choose(TopEnd(s) != bit, (s << 1) ^ 0x8005, s << 1)
  }

  /** The register with its sixteen bits in reverse. */
  function Reverse(x: Register): Register {
    ((x & 0x0001) << 15) | ((x & 0x0002) << 13) | ((x & 0x0004) << 11) | ((x & 0x0008) << 9)
    | ((x & 0x0010) << 7) | ((x & 0x0020) << 5) | ((x & 0x0040) << 3) | ((x & 0x0080) << 1)
    | ((x & 0x0100) >> 1) | ((x & 0x0200) >> 3) | ((x & 0x0400) >> 5) | ((x & 0x0800) >> 7)
    | ((x & 0x1000) >> 9) | ((x & 0x2000) >> 11) | ((x & 0x4000) >> 13) | ((x & 0x8000) >> 15)
  }

  lemma ReverseTwice(x: Register)
    ensures Reverse(Reverse(x)) == x
  {
  }

  lemma ReverseShift(s: Register)
    ensures Reverse(s << 1) == Reverse(s) >> 1
  {
  }

  lemma ReverseEnds(s: Register)
    ensures LowEnd(Reverse(s)) == TopEnd(s)
  {
  }

  /** A register that has been shifted to the right takes the polynomial or not. */
  function Reduced(c: bool, r: Register): Register {
    Choose(c, r ^ 0xA001, r)
  }

  lemma RightIsReduced(s: Register, bit: bool)
    ensures Right(s, bit) == Reduced(LowEnd(s) != bit, s >> 1)
  {
  }

  function LeftReduced(c: bool, r: Register): Register {
    Choose(c, r ^ 0x8005, r)
  }

  lemma LeftIsReduced(s: Register, bit: bool)
    ensures Left(s, bit) == LeftReduced(TopEnd(s) != bit, s << 1)
  {
  }

  lemma ReversePolynomial(r: Register)
    ensures Reverse(r ^ 0x8005) == Reverse(r) ^ 0xA001
  {
  }

  lemma ReverseReduced(c: bool, r: Register)
    ensures Reverse(LeftReduced(c, r)) == Reduced(c, Reverse(r))
  {
    if c {
      ReversePolynomial(r);
    } else {
    }
  }

  lemma MirrorStep(s: Register, bit: bool)
    ensures Right(Reverse(s), bit) == Reverse(Left(s, bit))
  {
    RightOfReverse(s, bit);
    ReverseOfLeft(s, bit);
  }

  lemma RightOfReverse(s: Register, bit: bool)
    ensures Right(Reverse(s), bit) == Reduced(TopEnd(s) != bit, Reverse(s << 1))
  {
    RightIsReduced(Reverse(s), bit);
    ReverseEnds(s);
    ReverseShift(s);
  }

  lemma ReverseOfLeft(s: Register, bit: bool)
    ensures Reverse(Left(s, bit)) == Reduced(TopEnd(s) != bit, Reverse(s << 1))
  {
    LeftIsReduced(s, bit);
    ReverseReduced(TopEnd(s) != bit, s << 1);
  }

  function Pushed(bit: bool, x: Register): Register {
    Choose(bit, (x << 1) | 1, x << 1)
  }

  function Mixed(s: Register, x: Register): Register {
    s ^ x
  }

  lemma PolynomialMixes(r: Register, x: Register)
    ensures (r ^ 0xA001) ^ x == (r ^ x) ^ 0xA001
  {
  }

  lemma ReducedMixes(c: bool, r: Register, x: Register)
    ensures Mixed(Reduced(c, r), x) == Reduced(c, Mixed(r, x))
  {
    PolynomialMixes(r, x);
  }

  function MixedBack(s: Register, x: Register): Register {
    (s ^ x) >> 1
  }

  function BackMixed(s: Register, x: Register): Register {
    (s >> 1) ^ x
  }

  lemma OneShiftedBack(s: Register, x: Register)
    requires !TopEnd(x)
    ensures MixedBack(s, (x << 1) | 1) == BackMixed(s, x)
  {
  }

  lemma ZeroShiftedBack(s: Register, x: Register)
    requires !TopEnd(x)
    ensures MixedBack(s, x << 1) == BackMixed(s, x)
  {
  }

  lemma PushedBack(s: Register, bit: bool, x: Register)
    requires !TopEnd(x)
    ensures MixedBack(s, Pushed(bit, x)) == BackMixed(s, x)
  {
    if bit {
      OneShiftedBack(s, x);
    } else {
      ZeroShiftedBack(s, x);
    }
  }

  lemma ShiftThenMix(s: Register, x: Register)
    ensures Mixed(s >> 1, x) == BackMixed(s, x)
  {
  }

  lemma PushedEnd(s: Register, bit: bool, x: Register)
    ensures LowEnd(Mixed(s, Pushed(bit, x))) == (LowEnd(s) != bit)
  {
    if bit {
    } else {
    }
  }

  /** Feeding a bit and then mixing in the rest is mixing in all at once and then shifting. */
  lemma FeedIsMix(s: Register, bit: bool, x: Register)
    requires !TopEnd(x)
    ensures Mixed(Right(s, bit), x) == Right(Mixed(s, Pushed(bit, x)), false)
  {
    calc {
      Mixed(Right(s, bit), x);
      { RightIsReduced(s, bit); }
      Mixed(Reduced(LowEnd(s) != bit, s >> 1), x);
      { ReducedMixes(LowEnd(s) != bit, s >> 1, x); }
      Reduced(LowEnd(s) != bit, Mixed(s >> 1, x));
      { ShiftThenMix(s, x); }
      Reduced(LowEnd(s) != bit, BackMixed(s, x));
      { PushedBack(s, bit, x); PushedEnd(s, bit, x); }
      Reduced(LowEnd(Mixed(s, Pushed(bit, x))) != false, MixedBack(s, Pushed(bit, x)));
      { RightIsReduced(Mixed(s, Pushed(bit, x)), false); }
      Right(Mixed(s, Pushed(bit, x)), false);
    }
  }

  /** The m lowest bits. */
  function Ones(m: nat): Register {
    if m == 0 then 0 else Pushed(true, Ones(m - 1))
  }

  /** x has no bits outside ones. */
  predicate Inside(x: Register, ones: Register) {
    x & !ones == 0
  }

  lemma PushedInside(bit: bool, x: Register, ones: Register)
    requires Inside(x, ones)
    ensures Inside(Pushed(bit, x), Pushed(true, ones))
  {
    ShiftInside(x, ones);
  }

  lemma ShiftInside(x: Register, ones: Register)
    requires Inside(x, ones)
    ensures Inside((x << 1) | 1, (ones << 1) | 1) && Inside(x << 1, (ones << 1) | 1)
  {
  }

  /** Fewer than sixteen ones leave the top bit free. */
  lemma OnesBelowTop(m: nat)
    requires m < 16
    ensures !TopEnd(Ones(m))
  {
    assert Ones(1) == 0x1 && Ones(2) == 0x3 && Ones(3) == 0x7 && Ones(4) == 0xf;
    assert Ones(5) == 0x1f && Ones(6) == 0x3f && Ones(7) == 0x7f && Ones(8) == 0xff;
    assert Ones(9) == 0x1ff && Ones(10) == 0x3ff && Ones(11) == 0x7ff && Ones(12) == 0xfff;
    assert Ones(13) == 0x1fff && Ones(14) == 0x3fff && Ones(15) == 0x7fff;
  }

  lemma TopFree(x: Register, ones: Register)
    requires Inside(x, ones) && !TopEnd(ones)
    ensures !TopEnd(x)
  {
  }

  lemma MixNothing(s: Register)
    ensures Mixed(s, 0) == s
  {
  }

  lemma MixInjective(s: Register, x: Register, y: Register)
    requires Mixed(s, x) == Mixed(s, y)
    ensures x == y
  {
  }

  lemma RightInjective(s: Register, t: Register, bit: bool)
    requires Right(s, bit) == Right(t, bit)
    ensures s == t
  {
  }

  lemma PushedInjective(a: bool, x: Register, b: bool, y: Register)
    requires Pushed(a, x) == Pushed(b, y) && !TopEnd(x) && !TopEnd(y)
    ensures a == b && x == y
  {
    if a {
      if b {
      }
    } else {
      if b {
      }
    }
  }

  // Bytes

  function Widened(d: bv8): Register {
    d as bv16
  }

  /** A byte is its lowest bit below the rest of it. */
  lemma LowestBit(d: bv8)
    ensures Widened(d) == Pushed(d & 1 == 1, Widened(d >> 1))
  {
    if d & 1 == 1 {
    } else {
    }
  }

  lemma SevenShifts(d: bv8)
    ensures (d >> 7) >> 1 == 0 && Widened(0) == 0
  {
  }

  function And(a: bv8, b: bv8): bv8 {
    a & b
  }

  lemma AndErased(b: bv8)
    ensures And(0xff, b) == b
  {
  }
}
