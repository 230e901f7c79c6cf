/** Sums that are cut to sixteen or to eight bits: it does not matter when. */
module Remainders {

  lemma WordSum(a: nat, b: nat)
    ensures (a % 0x1_0000 + b) % 0x1_0000 == (a + b) % 0x1_0000
  {
    var q := a / 0x1_0000;
    assert a % 0x1_0000 + b == a + b - 0x1_0000 * q;
  }

  lemma ByteSum(a: nat, b: nat)
    ensures (a % 0x100 + b) % 0x100 == (a + b) % 0x100
  {
    var q := a / 0x100;
    assert a % 0x100 + b == a + b - 0x100 * q;
  }
}
