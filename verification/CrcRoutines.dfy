/** The loops of ATSHA204.cpp and sha204_library.cpp that compute and check the CRC of the crypto chip's packets. */
module CrcRoutines {
  import opened Crc16
  import opened CrcBits
  import opened Recurrence
  import opened SerialBits

  /** shift_register after i turns of the inner loop. */
  function Mask(i: nat): Byte {
    if i == 0 then 1 else DropTop(Mask(i - 1))
  }

  function DropTop(b: Byte): Byte {
    b << 1
  }

  predicate Masked(d: Byte, mask: Byte) {
    d & mask != 0
  }

  lemma Masks()
    ensures Mask(0) == 1 && Mask(1) == 2 && Mask(2) == 4 && Mask(3) == 8 && Mask(4) == 0x10 && Mask(5) == 0x20
    ensures Mask(6) == 0x40 && Mask(7) == 0x80 && Mask(8) == 0
  {
    assert Mask(1) == DropTop(Mask(0)) && Mask(2) == DropTop(Mask(1)) && Mask(3) == DropTop(Mask(2));
    assert Mask(4) == DropTop(Mask(3)) && Mask(5) == DropTop(Mask(4)) && Mask(6) == DropTop(Mask(5));
    assert Mask(7) == DropTop(Mask(6)) && Mask(8) == DropTop(Mask(7));
  }

  lemma MaskedBits(d: Byte)
    ensures Masked(d, 1) == SerialBits.LowBit(d) && Masked(d, 2) == SerialBits.LowBit(d >> 1)
    ensures Masked(d, 4) == SerialBits.LowBit(d >> 2) && Masked(d, 8) == SerialBits.LowBit(d >> 3)
    ensures Masked(d, 0x10) == SerialBits.LowBit(d >> 4) && Masked(d, 0x20) == SerialBits.LowBit(d >> 5)
    ensures Masked(d, 0x40) == SerialBits.LowBit(d >> 6) && Masked(d, 0x80) == SerialBits.LowBit(d >> 7)
  {
  }

  lemma MaskSelects(d: Byte, i: nat)
    requires i < 8
    ensures Mask(i) != 0 && Masked(d, Mask(i)) == BitsOf(d)[i]
  {
    Masks();
    MaskedBits(d);
    BitsAre(d, BitsOf(d));
  }

  /** The inner loop: the bits of one byte. */
  method FeedByte(crc0: Register, d: Byte) returns (crc: Register)
    ensures crc == Fold(Left, crc0, BitsOf(d))
  {
    crc := crc0;
    var shiftRegister: Byte := 1;
    ghost var i := 0;
    ghost var bits := BitsOf(d);
    while shiftRegister != 0
      invariant i <= 8 && shiftRegister == Mask(i) && (shiftRegister == 0 <==> i == 8)
      invariant crc == Fold(Left, crc0, bits[..i])
      decreases 8 - i
    {
      MaskSelects(d, i);
      FoldStep(Left, crc0, bits, i);
      var dataBit := Masked(d, shiftRegister);
      crc := Left(crc, dataBit);
      i := i + 1;
      NextMask(i);
      shiftRegister := DropTop(shiftRegister);
    }
    assert bits[..8] == bits;
  }

  lemma NextMask(i: nat)
    requires i <= 8
    ensures Mask(i) == 0 <==> i == 8
  {
    Masks();
  }

  /** calculateAndUpdateCrc: the CRC goes on from current. */
  method CalculateAndUpdateCrc(data: seq<Byte>, current: Register) returns (crc: Register)
    requires |data| < 0x100
    ensures crc == CrcLeft(current, data)
  {
    crc := current;
    var counter := 0;
    while counter < |data|
      invariant 0 <= counter <= |data| && crc == CrcLeft(current, data[..counter])
    {
      assert data[..counter + 1][..counter] == data[..counter];
      FoldAppend(Left, current, Bits(data[..counter]), BitsOf(data[counter]));
      crc := FeedByte(crc, data[counter]);
      counter := counter + 1;
    }
    assert data[..counter] == data;
  }

  function LowByte(crc: Register): Byte {
    (crc & 0xff) as bv8
  }

  function HighByte(crc: Register): Byte {
    (crc >> 8) as bv8
  }

  lemma RegisterOfBytes(crc: Register)
    ensures ((HighByte(crc) as Register) << 8) | (LowByte(crc) as Register) == crc
  {
  }

  /** sha204c_calculate_crc: seed 0, the low byte first. */
  method CalculateCrc(data: seq<Byte>) returns (crc: seq<Byte>)
    requires |data| < 0x100
    ensures crc == [LowByte(CrcLeft(0, data)), HighByte(CrcLeft(0, data))]
  {
    var register := CalculateAndUpdateCrc(data, 0);
    crc := [LowByte(register), HighByte(register)];
  }

  /** sha204c_check_crc for a packet of count bytes, the last two of which are its CRC. */
  method CheckCrc(response: seq<Byte>, count: nat) returns (ok: bool)
    requires 2 <= count < 0x100 && count <= |response|
    ensures ok <==> response[count - 2..count] == [LowByte(CrcLeft(0, response[..count - 2])),
                                                   HighByte(CrcLeft(0, response[..count - 2]))]
  {
    var crc := CalculateCrc(response[..count - 2]);
    ok := crc[0] == response[count - 2] && crc[1] == response[count - 1];
  }
}
