/** Bytes as eight bits, least significant first, and the two shift registers of AltSoftSerial.cpp. */
module SerialBits {
  import opened LineCode
  import opened Recurrence
  import Octets

  type Byte = Octets.Byte

  predicate LowBit(b: Byte) {
    b & 1 == 1
  }

  function DropBit(b: Byte): Byte {
    b >> 1
  }

  function Shifted(b: Byte, n: nat): Byte {
    if n == 0 then b else DropBit(Shifted(b, n - 1))
  }

  function BitsOf(b: Byte): Bits {
    seq(8, i requires 0 <= i < 8 => LowBit(Shifted(b, i)))
  }

  /** A received bit comes in from the top. */
  function AddBit(b: Byte, high: bool): Byte {
    (b >> 1) | (if high then 0x80 else 0)
  }

  function AddBits(b: Byte, bits: seq<bool>): Byte {
    Fold(AddBit, b, bits)
  }

  lemma EightBits(r: Byte, b0: bool, b1: bool, b2: bool, b3: bool, b4: bool, b5: bool, b6: bool, b7: bool)
    ensures HasBits(AddBit(AddBit(AddBit(AddBit(AddBit(AddBit(AddBit(AddBit(r, b0), b1), b2), b3), b4), b5), b6), b7),
                    b0, b1, b2, b3, b4, b5, b6, b7)
  {
  }

  lemma Shifts(b: Byte)
    ensures Shifted(b, 1) == b >> 1 && Shifted(b, 2) == b >> 2 && Shifted(b, 3) == b >> 3 && Shifted(b, 4) == b >> 4
    ensures Shifted(b, 5) == b >> 5 && Shifted(b, 6) == b >> 6 && Shifted(b, 7) == b >> 7
  {
    assert Shifted(b, 0) == b;
    assert Shifted(b, 1) == DropBit(b);
    assert Shifted(b, 2) == DropBit(b >> 1);
    assert Shifted(b, 3) == DropBit(b >> 2);
    assert Shifted(b, 4) == DropBit(b >> 3);
    assert Shifted(b, 5) == DropBit(b >> 4);
    assert Shifted(b, 6) == DropBit(b >> 5);
    assert Shifted(b, 7) == DropBit(b >> 6);
  }

  /** The bits of a byte one by one. */
  predicate HasBits(b: Byte, b0: bool, b1: bool, b2: bool, b3: bool, b4: bool, b5: bool, b6: bool, b7: bool) {
    && LowBit(b) == b0 && LowBit(b >> 1) == b1 && LowBit(b >> 2) == b2 && LowBit(b >> 3) == b3
    && LowBit(b >> 4) == b4 && LowBit(b >> 5) == b5 && LowBit(b >> 6) == b6 && LowBit(b >> 7) == b7
  }

  lemma BitsAre(b: Byte, s: Bits)
    ensures BitsOf(b) == s <==> HasBits(b, s[0], s[1], s[2], s[3], s[4], s[5], s[6], s[7])
  {
    var c := BitsOf(b);
    Shifts(b);
    assert HasBits(b, c[0], c[1], c[2], c[3], c[4], c[5], c[6], c[7]);
    if HasBits(b, s[0], s[1], s[2], s[3], s[4], s[5], s[6], s[7]) {
      assert c == s;
    }
  }

  /** Eight bits taken in make the byte that consists of them, whatever was there before. */
  lemma BitsOfAddBits(r: Byte, bits: Bits)
    ensures BitsOf(AddBits(r, bits)) == bits
  {
    FoldEight(AddBit, r, bits);
    EightBits(r, bits[0], bits[1], bits[2], bits[3], bits[4], bits[5], bits[6], bits[7]);
    BitsAre(AddBits(r, bits), bits);
  }

  /** Two bytes with the same bits are the same. */
  lemma SameBits(a: Byte, b: Byte)
    requires BitsOf(a) == BitsOf(b)
    ensures a == b
  {
    BitsAre(a, BitsOf(a));
    BitsAre(b, BitsOf(a));
    EqualByBits(a, b);
  }

  lemma EqualByBits(a: Byte, b: Byte)
    requires LowBit(a) == LowBit(b) && LowBit(a >> 1) == LowBit(b >> 1) && LowBit(a >> 2) == LowBit(b >> 2)
    requires LowBit(a >> 3) == LowBit(b >> 3) && LowBit(a >> 4) == LowBit(b >> 4) && LowBit(a >> 5) == LowBit(b >> 5)
    requires LowBit(a >> 6) == LowBit(b >> 6) && LowBit(a >> 7) == LowBit(b >> 7)
    ensures a == b
  {
  }
}
