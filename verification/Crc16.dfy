/**
 The CRC-16 that the repository computes in two mirrored forms: shifting right with 0xA001 (MyOTAFirmwareUpdate.cpp) and
 shifting left with 0x8005 (ATSHA204.cpp and sha204_library.cpp).  Both take the bits of a byte from the lowest up.
 */
module Crc16 {
  import opened CrcBits
  import opened Recurrence
  import opened SerialBits

  /** The bits of a run of bytes in the order in which they enter the register. */
  function Bits(data: seq<Byte>): (bits: seq<bool>)
    ensures |bits| == 8 * |data|
  {
    if data == [] then [] else Bits(data[..|data| - 1]) + BitsOf(data[|data| - 1])
  }

  function CrcRight(seed: Register, data: seq<Byte>): Register {
    Fold(Right, seed, Bits(data))
  }

  function CrcLeft(seed: Register, data: seq<Byte>): Register {
    Fold(Left, seed, Bits(data))
  }

  /** The two forms agree up to reversal, with reversed seeds. */
  lemma {:induction false} Mirror(s: Register, bits: seq<bool>)
    ensures Fold(Right, Reverse(s), bits) == Reverse(Fold(Left, s, bits))
  {
    if bits == [] {
    } else {
      var n := |bits| - 1;
      Mirror(s, bits[..n]);
      MirrorStep(Fold(Left, s, bits[..n]), bits[n]);
    }
  }

  lemma CrcsMirror(seed: Register, data: seq<Byte>)
    ensures CrcRight(Reverse(seed), data) == Reverse(CrcLeft(seed, data))
    ensures CrcLeft(Reverse(seed), data) == Reverse(CrcRight(seed, data))
  {
    Mirror(seed, Bits(data));
    Mirror(Reverse(seed), Bits(data));
    ReverseTwice(seed);
    ReverseTwice(CrcLeft(Reverse(seed), data));
  }

  // Chaining

  lemma {:induction false} BitsAppend(a: seq<Byte>, b: seq<Byte>)
    ensures Bits(a + b) == Bits(a) + Bits(b)
  {
    if b == [] {
      assert a + b == a;
    } else {
      var n := |b| - 1;
      assert (a + b)[..|a + b| - 1] == a + b[..n];
      BitsAppend(a, b[..n]);
    }
  }

  /** The CRC of a concatenation, computed in two calls of which the second starts from the first's result. */
  lemma CrcChains(seed: Register, a: seq<Byte>, b: seq<Byte>)
    ensures CrcLeft(CrcLeft(seed, a), b) == CrcLeft(seed, a + b)
    ensures CrcRight(CrcRight(seed, a), b) == CrcRight(seed, a + b)
  {
    BitsAppend(a, b);
    FoldAppend(Left, seed, Bits(a), Bits(b));
    FoldAppend(Right, seed, Bits(a), Bits(b));
  }

  // Bursts

  /** Bits as a register, the first at the bottom. */
  function Packed(bits: seq<bool>): Register
    requires |bits| <= 16
  {
    if bits == [] then 0 else Pushed(bits[0], Packed(bits[1..]))
  }

  /** n steps with zero bits. */
  function Turned(s: Register, n: nat): Register
    decreases n
  {
    if n == 0 then s else Turned(Right(s, false), n - 1)
  }

  lemma {:induction false} PackedInside(bits: seq<bool>)
    requires |bits| <= 16
    ensures Inside(Packed(bits), Ones(|bits|))
  {
    if bits == [] {
    } else {
      PackedInside(bits[1..]);
      PushedInside(bits[0], Packed(bits[1..]), Ones(|bits| - 1));
    }
  }

  /** Packed bits leave the top bit free for one more. */
  lemma PackedBelowTop(bits: seq<bool>)
    requires |bits| < 16
    ensures !TopEnd(Packed(bits))
  {
    PackedInside(bits);
    OnesBelowTop(|bits|);
    TopFree(Packed(bits), Ones(|bits|));
  }

  lemma {:induction false} FoldFront<S, B>(f: (S, B) -> S, s: S, b: seq<B>)
    requires b != []
    ensures Fold(f, s, b) == Fold(f, f(s, b[0]), b[1..])
  {
    assert [b[0]] + b[1..] == b && [b[0]][..0] == [];
    FoldAppend(f, s, [b[0]], b[1..]);
    FoldStep(f, s, [b[0]], 0);
  }

  /** Up to sixteen bits fed one by one are bits mixed in at once and then turned through. */
  lemma {:induction false} FeedIsTurn(s: Register, bits: seq<bool>)
    requires |bits| <= 16
    ensures Fold(Right, s, bits) == Turned(Mixed(s, Packed(bits)), |bits|)
    decreases |bits|
  {
    if bits == [] {
      MixNothing(s);
    } else {
      FoldFront(Right, s, bits);
      FeedIsTurn(Right(s, bits[0]), bits[1..]);
      PackedBelowTop(bits[1..]);
      FeedIsMix(s, bits[0], Packed(bits[1..]));
    }
  }

  lemma {:induction false} TurnedInjective(s: Register, t: Register, n: nat)
    requires Turned(s, n) == Turned(t, n)
    ensures s == t
    decreases n
  {
    if n == 0 {
    } else {
      TurnedInjective(Right(s, false), Right(t, false), n - 1);
      RightInjective(s, t, false);
    }
  }

  lemma {:induction false} PackedInjective(a: seq<bool>, b: seq<bool>)
    requires |a| == |b| <= 16 && Packed(a) == Packed(b)
    ensures a == b
  {
    if a == [] {
    } else {
      PackedBelowTop(a[1..]);
      PackedBelowTop(b[1..]);
      PushedInjective(a[0], Packed(a[1..]), b[0], Packed(b[1..]));
      PackedInjective(a[1..], b[1..]);
      assert a == [a[0]] + a[1..] && b == [b[0]] + b[1..];
    }
  }

  /** Different runs of at most sixteen bits lead to different registers. */
  lemma BurstShows(s: Register, a: seq<bool>, b: seq<bool>)
    requires |a| == |b| <= 16 && a != b
    ensures Fold(Right, s, a) != Fold(Right, s, b)
  {
    FeedIsTurn(s, a);
    FeedIsTurn(s, b);
    if Fold(Right, s, a) == Fold(Right, s, b) {
      TurnedInjective(Mixed(s, Packed(a)), Mixed(s, Packed(b)), |a|);
      MixInjective(s, Packed(a), Packed(b));
      PackedInjective(a, b);
    }
  }

  /** A difference once there stays, as long as the bits that follow are the same. */
  lemma {:induction false} DifferenceStays(s: Register, t: Register, bits: seq<bool>)
    requires s != t
    ensures Fold(Right, s, bits) != Fold(Right, t, bits)
  {
    if bits == [] {
    } else {
      var n := |bits| - 1;
      DifferenceStays(s, t, bits[..n]);
      if Fold(Right, s, bits) == Fold(Right, t, bits) {
        RightInjective(Fold(Right, s, bits[..n]), Fold(Right, t, bits[..n]), bits[n]);
      }
    }
  }

  /** a and b differ, and only within sixteen consecutive bits. */
  ghost predicate DifferInBurst(a: seq<bool>, b: seq<bool>, k: nat, n: nat) {
    && |a| == |b| && k + n <= |a| && n <= 16
    && a[..k] == b[..k] && a[k + n..] == b[k + n..] && a[k..k + n] != b[k..k + n]
  }

  /** The CRC tells apart messages of the same length that differ only within sixteen consecutive bits. */
  lemma BurstDetected(seed: Register, a: seq<Byte>, b: seq<Byte>, k: nat, n: nat)
    requires DifferInBurst(Bits(a), Bits(b), k, n)
    ensures CrcRight(seed, a) != CrcRight(seed, b)
    ensures CrcLeft(seed, a) != CrcLeft(seed, b)
  {
    BurstInRight(seed, Bits(a), Bits(b), k, n);
    BurstInRight(Reverse(seed), Bits(a), Bits(b), k, n);
    CrcsMirror(seed, a);
    CrcsMirror(seed, b);
  }

  lemma BurstInRight(s: Register, a: seq<bool>, b: seq<bool>, k: nat, n: nat)
    requires DifferInBurst(a, b, k, n)
    ensures Fold(Right, s, a) != Fold(Right, s, b)
  {
    Split(s, a, k, n);
    Split(s, b, k, n);
    var r := Fold(Right, s, a[..k]);
    BurstShows(r, a[k..k + n], b[k..k + n]);
    DifferenceStays(Fold(Right, r, a[k..k + n]), Fold(Right, r, b[k..k + n]), a[k + n..]);
  }

  lemma Split(s: Register, a: seq<bool>, k: nat, n: nat)
    requires k + n <= |a|
    ensures Fold(Right, s, a) == Fold(Right, Fold(Right, Fold(Right, s, a[..k]), a[k..k + n]), a[k + n..])
  {
    assert a == a[..k] + (a[k..k + n] + a[k + n..]);
    FoldAppend(Right, s, a[..k], a[k..k + n] + a[k + n..]);
    FoldAppend(Right, Fold(Right, s, a[..k]), a[k..k + n], a[k + n..]);
  }

  // Whole bytes at a time, as MyOTAFirmwareUpdate.cpp feeds them

  lemma {:induction false} PackedFrom(d: Byte, i: nat)
    requires i <= 8
    ensures Packed(BitsOf(d)[i..]) == Widened(Shifted(d, i))
    decreases 8 - i
  {
    Shifts(d);
    if i == 8 {
      assert Shifted(d, 8) == DropBit(Shifted(d, 7));
      SevenShifts(d);
    } else {
      PackedFrom(d, i + 1);
      assert BitsOf(d)[i..][1..] == BitsOf(d)[i + 1..];
      LowestBit(Shifted(d, i));
    }
  }

  /** A byte mixed into the register and turned through eight times. */
  lemma ByteIsMixed(crc: Register, d: Byte)
    ensures Turned(Mixed(crc, Widened(d)), 8) == Fold(Right, crc, BitsOf(d))
  {
    PackedFrom(d, 0);
    assert BitsOf(d)[0..] == BitsOf(d);
    FeedIsTurn(crc, BitsOf(d));
  }

  lemma {:induction false} TurnedOnce(s: Register, n: nat)
    ensures Turned(s, n + 1) == Right(Turned(s, n), false)
    decreases n
  {
    if n == 0 {
    } else {
      TurnedOnce(Right(s, false), n - 1);
    }
  }
}
