/** Bytes as numbers, with the arithmetic of an unsigned char. */
module Bytes {
  import Remainders

  type Byte = n: nat | n < 0x100

  function Add(a: Byte, b: Byte): Byte {
    (a + b) % 0x100
  }

  function Total(s: seq<Byte>): nat {
    if s == [] then 0 else Total(s[..|s| - 1]) + s[|s| - 1]
  }

  /** An unsigned char that adds up bytes holds their total modulo 256. */
  lemma RunningSum(s: seq<Byte>, b: Byte)
    ensures Add(Total(s) % 0x100, b) == Total(s + [b]) % 0x100
  {
    assert (s + [b])[..|s|] == s;
    Remainders.ByteSum(Total(s), b);
  }
}
