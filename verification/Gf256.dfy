/**
 Arithmetic of the AES field GF(2^8): a byte is a polynomial over GF(2) taken modulo x^8 + x^4 + x^3 + x + 1
 (FIPS 197, section 4), and the matrix products of sections 5.1.3 and 5.3.3 on one column.
 */
module Gf256 {

  /** x . a: shift, and when a coefficient of x^8 appears replace it by x^4 + x^3 + x + 1. */
  function XTime(a: bv8): bv8 {
    (a << 1) ^ (a >> 7) ^ ((a >> 7) << 1) ^ ((a >> 7) << 3) ^ ((a >> 7) << 4)
  }

  function Term(chosen: bool, a: bv8): bv8 {
    if chosen then a else 0
  }

  /** The product a . b: the sum of x^i . a over the bits i that are set in b. */
  function Mul(a: bv8, b: bv8): bv8 {
    var a1 := XTime(a);
    var a2 := XTime(a1);
    var a3 := XTime(a2);
    var a4 := XTime(a3);
    var a5 := XTime(a4);
    var a6 := XTime(a5);
    var a7 := XTime(a6);
    Term(b & 0x01 != 0, a) ^ Term(b & 0x02 != 0, a1) ^ Term(b & 0x04 != 0, a2) ^ Term(b & 0x08 != 0, a3)
    ^ Term(b & 0x10 != 0, a4) ^ Term(b & 0x20 != 0, a5) ^ Term(b & 0x40 != 0, a6) ^ Term(b & 0x80 != 0, a7)
  }

  function Sum4(a: bv8, b: bv8, c: bv8, d: bv8): bv8 {
    a ^ b ^ c ^ d
  }

  function Times3(a: bv8): bv8 {
    XTime(a) ^ a
  }

  function Times9(a: bv8): bv8 {
    XTime(XTime(XTime(a))) ^ a
  }

  function TimesB(a: bv8): bv8 {
    XTime(XTime(XTime(a))) ^ XTime(a) ^ a
  }

  function TimesD(a: bv8): bv8 {
    XTime(XTime(XTime(a))) ^ XTime(XTime(a)) ^ a
  }

  function TimesE(a: bv8): bv8 {
    XTime(XTime(XTime(a))) ^ XTime(XTime(a)) ^ XTime(a)
  }

  // The multiplications by constants, which repeat XTime, are products of the field.

  lemma ForwardTimesIsMul(a: bv8)
    ensures XTime(a) == Mul(a, 0x02) && Times3(a) == Mul(a, 0x03)
  {
  }

  lemma InverseTimesIsMul(a: bv8)
    ensures Times9(a) == Mul(a, 0x09) && TimesB(a) == Mul(a, 0x0b)
    ensures TimesD(a) == Mul(a, 0x0d) && TimesE(a) == Mul(a, 0x0e)
  {
  }

  /** One byte of MixColumns; the other three of the column are obtained by rotating the arguments. */
  function MixByte(a: bv8, b: bv8, c: bv8, d: bv8): bv8 {
    Sum4(XTime(a), Times3(b), c, d)
  }

  /** One byte of InvMixColumns. */
  function InvMixByte(a: bv8, b: bv8, c: bv8, d: bv8): bv8 {
    Sum4(TimesE(a), TimesB(b), TimesD(c), Times9(d))
  }

  // The solver settles an equation between sums of bytes only when it sees both sides written out; the
  // expansions below therefore spell multiplication by x out as shifts.

  lemma TimesExpanded(a: bv8)
    ensures
      var a2 := (a << 1) ^ (a >> 7) ^ ((a >> 7) << 1) ^ ((a >> 7) << 3) ^ ((a >> 7) << 4);
      var a4 := (a2 << 1) ^ (a2 >> 7) ^ ((a2 >> 7) << 1) ^ ((a2 >> 7) << 3) ^ ((a2 >> 7) << 4);
      var a8 := (a4 << 1) ^ (a4 >> 7) ^ ((a4 >> 7) << 1) ^ ((a4 >> 7) << 3) ^ ((a4 >> 7) << 4);
      && XTime(a) == a2 && Times3(a) == a2 ^ a
      && Times9(a) == a8 ^ a && TimesB(a) == a8 ^ a2 ^ a && TimesD(a) == a8 ^ a4 ^ a && TimesE(a) == a8 ^ a4 ^ a2
  {
  }

  lemma MixByteExpanded(a: bv8, b: bv8, c: bv8, d: bv8)
    ensures
      var a2 := (a << 1) ^ (a >> 7) ^ ((a >> 7) << 1) ^ ((a >> 7) << 3) ^ ((a >> 7) << 4);
      var b2 := (b << 1) ^ (b >> 7) ^ ((b >> 7) << 1) ^ ((b >> 7) << 3) ^ ((b >> 7) << 4);
      MixByte(a, b, c, d) == a2 ^ (b2 ^ b) ^ c ^ d
  {
    TimesExpanded(a);
    TimesExpanded(b);
  }

  /** InvMixByte with every doubling written out. */
  function InvMixByteExpanded(p: bv8, q: bv8, r: bv8, t: bv8): bv8 {
    var p2 := (p << 1) ^ (p >> 7) ^ ((p >> 7) << 1) ^ ((p >> 7) << 3) ^ ((p >> 7) << 4);
    var p4 := (p2 << 1) ^ (p2 >> 7) ^ ((p2 >> 7) << 1) ^ ((p2 >> 7) << 3) ^ ((p2 >> 7) << 4);
    var p8 := (p4 << 1) ^ (p4 >> 7) ^ ((p4 >> 7) << 1) ^ ((p4 >> 7) << 3) ^ ((p4 >> 7) << 4);
    var q2 := (q << 1) ^ (q >> 7) ^ ((q >> 7) << 1) ^ ((q >> 7) << 3) ^ ((q >> 7) << 4);
    var q4 := (q2 << 1) ^ (q2 >> 7) ^ ((q2 >> 7) << 1) ^ ((q2 >> 7) << 3) ^ ((q2 >> 7) << 4);
    var q8 := (q4 << 1) ^ (q4 >> 7) ^ ((q4 >> 7) << 1) ^ ((q4 >> 7) << 3) ^ ((q4 >> 7) << 4);
    var r2 := (r << 1) ^ (r >> 7) ^ ((r >> 7) << 1) ^ ((r >> 7) << 3) ^ ((r >> 7) << 4);
    var r4 := (r2 << 1) ^ (r2 >> 7) ^ ((r2 >> 7) << 1) ^ ((r2 >> 7) << 3) ^ ((r2 >> 7) << 4);
    var r8 := (r4 << 1) ^ (r4 >> 7) ^ ((r4 >> 7) << 1) ^ ((r4 >> 7) << 3) ^ ((r4 >> 7) << 4);
    var t2 := (t << 1) ^ (t >> 7) ^ ((t >> 7) << 1) ^ ((t >> 7) << 3) ^ ((t >> 7) << 4);
    var t4 := (t2 << 1) ^ (t2 >> 7) ^ ((t2 >> 7) << 1) ^ ((t2 >> 7) << 3) ^ ((t2 >> 7) << 4);
    var t8 := (t4 << 1) ^ (t4 >> 7) ^ ((t4 >> 7) << 1) ^ ((t4 >> 7) << 3) ^ ((t4 >> 7) << 4);
    (p8 ^ p4 ^ p2) ^ (q8 ^ q2 ^ q) ^ (r8 ^ r4 ^ r) ^ (t8 ^ t)
  }

  lemma InvMixByteIsExpanded(p: bv8, q: bv8, r: bv8, t: bv8)
    ensures InvMixByte(p, q, r, t) == InvMixByteExpanded(p, q, r, t)
  {
    TimesExpanded(p);
    TimesExpanded(q);
    TimesExpanded(r);
    TimesExpanded(t);
  }

  lemma ExpandedInverse(a: bv8, b: bv8, c: bv8, d: bv8)
    ensures
      var a2 := (a << 1) ^ (a >> 7) ^ ((a >> 7) << 1) ^ ((a >> 7) << 3) ^ ((a >> 7) << 4);
      var b2 := (b << 1) ^ (b >> 7) ^ ((b >> 7) << 1) ^ ((b >> 7) << 3) ^ ((b >> 7) << 4);
      var c2 := (c << 1) ^ (c >> 7) ^ ((c >> 7) << 1) ^ ((c >> 7) << 3) ^ ((c >> 7) << 4);
      var d2 := (d << 1) ^ (d >> 7) ^ ((d >> 7) << 1) ^ ((d >> 7) << 3) ^ ((d >> 7) << 4);
      a == InvMixByteExpanded(a2 ^ (b2 ^ b) ^ c ^ d, b2 ^ (c2 ^ c) ^ d ^ a, c2 ^ (d2 ^ d) ^ a ^ b,
                              d2 ^ (a2 ^ a) ^ b ^ c)
  {
  }

  /** The InvMixColumns matrix undoes the MixColumns matrix. */
  lemma InvMixByteInverts(a: bv8, b: bv8, c: bv8, d: bv8)
    ensures InvMixByte(MixByte(a, b, c, d), MixByte(b, c, d, a), MixByte(c, d, a, b), MixByte(d, a, b, c)) == a
  {
    MixByteExpanded(a, b, c, d);
    MixByteExpanded(b, c, d, a);
    MixByteExpanded(c, d, a, b);
    MixByteExpanded(d, a, b, c);
    InvMixByteIsExpanded(MixByte(a, b, c, d), MixByte(b, c, d, a), MixByte(c, d, a, b), MixByte(d, a, b, c));
    ExpandedInverse(a, b, c, d);
  }
}
