/** Numbers below 256 as bytes. */
module Octets {

  type Byte = bv8

  predicate AreDigits(d: seq<nat>) {
    forall i :: 0 <= i < |d| ==> d[i] < 0x100
  }

  function Octet(n: nat): Byte
    requires n < 0x100
  {
    n as bv8
  }

  function Octets(d: seq<nat>): (b: seq<Byte>)
    requires AreDigits(d)
    ensures |b| == |d|
  {
    seq(|d|, i requires 0 <= i < |d| => Octet(d[i]))
  }

  lemma OctetAsNumber(a: nat)
    requires a < 0x100
    ensures (a as bv8) as int == a
  {
    // Each case decides the four upper bits; that leaves the solver little to convert.
    if a < 16 {
    } else if a < 32 {
    } else if a < 48 {
    } else if a < 64 {
    } else if a < 80 {
    } else if a < 96 {
    } else if a < 112 {
    } else if a < 128 {
    } else if a < 144 {
    } else if a < 160 {
    } else if a < 176 {
    } else if a < 192 {
    } else if a < 208 {
    } else if a < 224 {
    } else if a < 240 {
    }
  }

  lemma OctetInjective(a: nat, b: nat)
    requires a < 0x100 && b < 0x100 && Octet(a) == Octet(b)
    ensures a == b
  {
    OctetAsNumber(a);
    OctetAsNumber(b);
  }

  lemma OctetsInjective(d: seq<nat>, e: seq<nat>)
    requires AreDigits(d) && AreDigits(e) && Octets(d) == Octets(e)
    ensures d == e
  {
    assert |Octets(d)| == |Octets(e)|;
    forall i | 0 <= i < |d|
      ensures d[i] == e[i]
    {
      assert Octets(d)[i] == Octets(e)[i];
      OctetInjective(d[i], e[i]);
    }
  }
}
