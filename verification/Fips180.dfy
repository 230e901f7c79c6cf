/**
 SHA-256 as FIPS 180-4 defines it (sections 4.1.2, 4.2.2, 5.1.1, 5.2.1, 5.3.3 and 6.2.2) and HMAC as FIPS 198-1
 defines it (section 4).  Messages are sequences of bytes.
 */
module Fips180 {
  import opened Lanes
  import opened Octets
  import opened Recurrence
  import opened RootConstants

  type Word = bv32

  // Functions on words

  function Ch(x: Word, y: Word, z: Word): Word {
    (x & y) ^ (!x & z)
  }

  function Maj(x: Word, y: Word, z: Word): Word {
    (x & y) ^ (x & z) ^ (y & z)
  }

  function BigSigma0(x: Word): Word {
    x.RotateRight(2) ^ x.RotateRight(13) ^ x.RotateRight(22)
  }

  function BigSigma1(x: Word): Word {
    x.RotateRight(6) ^ x.RotateRight(11) ^ x.RotateRight(25)
  }

  function SmallSigma0(x: Word): Word {
    x.RotateRight(7) ^ x.RotateRight(18) ^ (x >> 3)
  }

  function SmallSigma1(x: Word): Word {
    x.RotateRight(17) ^ x.RotateRight(19) ^ (x >> 10)
  }

  // The compression function (section 6.2.2)

  // Sums modulo 2^32

  function Sum2(a: Word, b: Word): Word {
    a + b
  }

  function Sum4(a: Word, b: Word, c: Word, d: Word): Word {
    a + b + c + d
  }

  function Sum5(a: Word, b: Word, c: Word, d: Word, e: Word): Word {
    a + b + c + d + e
  }

  /** W(t) from W(t - 16), W(t - 15), W(t - 7) and W(t - 2). */
  function Expand(w16: Word, w15: Word, w7: Word, w2: Word): Word {
    Sum4(SmallSigma1(w2), w7, SmallSigma0(w15), w16)
  }

  /** The eight working variables, and also the hash value H(0), ..., H(7). */
  datatype State = State(a: Word, b: Word, c: Word, d: Word, e: Word, f: Word, g: Word, h: Word)

  function Round(s: State, k: Word, w: Word): State {
    var t1 := Sum5(s.h, BigSigma1(s.e), Ch(s.e, s.f, s.g), k, w);
    var t2 := Sum2(BigSigma0(s.a), Maj(s.a, s.b, s.c));
    State(Sum2(t1, t2), s.a, s.b, s.c, Sum2(s.d, t1), s.e, s.f, s.g)
  }

  function RoundAt(s: State, t: nat, w: Word): State {
    if t < 64 then Round(s, K(t), w) else s
  }

  function AddState(s: State, t: State): State {
    State(Sum2(s.a, t.a), Sum2(s.b, t.b), Sum2(s.c, t.c), Sum2(s.d, t.d),
      Sum2(s.e, t.e), Sum2(s.f, t.f), Sum2(s.g, t.g), Sum2(s.h, t.h))
  }

  /** One block of sixteen words: 64 rounds on the 64 entries of its schedule, then the feed-forward. */
  function Compress(h: State, block: seq<Word>): State
    requires |block| == 16
  {
    AddState(h, Run(RoundAt, h, Schedule(Expand, block, 48))[64])
  }

  // Bytes and words, most significant byte first

  type Chunk = s: seq<Byte> | |s| == 64 witness seq(64, i => 0)

  function BigEndian(b0: Byte, b1: Byte, b2: Byte, b3: Byte): Word {
    ((b0 as bv32) << 24) | ((b1 as bv32) << 16) | ((b2 as bv32) << 8) | (b3 as bv32)
  }

  function WordBytes(w: Word): (b: seq<Byte>)
    ensures |b| == 4
  {
    [(w >> 24) as bv8, ((w >> 16) & 0xff) as bv8, ((w >> 8) & 0xff) as bv8, (w & 0xff) as bv8]
  }

  function CompressChunk(h: State, c: Chunk): State {
    Compress(h, BlockWords(BigEndian, c))
  }

  function StateBytes(s: State): (b: seq<Byte>)
    ensures |b| == 32
  {
    WordBytes(s.a) + WordBytes(s.b) + WordBytes(s.c) + WordBytes(s.d)
    + WordBytes(s.e) + WordBytes(s.f) + WordBytes(s.g) + WordBytes(s.h)
  }

  // Whole messages

  /** Section 5.3.3. */
  const INITIAL :=
    State(INITIAL_WORDS[0], INITIAL_WORDS[1], INITIAL_WORDS[2], INITIAL_WORDS[3],
      INITIAL_WORDS[4], INITIAL_WORDS[5], INITIAL_WORDS[6], INITIAL_WORDS[7])

  /** The words of the initial hash value begin the fractional parts of the square roots of the first eight primes. */
  lemma InitialIsRoots(i: nat)
    requires i < 8
    ensures IsSquareRootWord(i, Value([INITIAL.a, INITIAL.b, INITIAL.c, INITIAL.d,
                                       INITIAL.e, INITIAL.f, INITIAL.g, INITIAL.h][i]))
  {
    InitialConstant(i);
    assert i == 0 || i == 1 || i == 2 || i == 3 || i == 4 || i == 5 || i == 6 || i == 7;
  }

  function Chunks(m: seq<Byte>): (c: seq<Chunk>)
    requires |m| % 64 == 0
    ensures |c| == |m| / 64
  {
    if m == [] then [] else Chunks(m[..|m| - 64]) + [m[|m| - 64..]]
  }

  /** The hash value after all chunks of m. */
  function HashValue(m: seq<Byte>): State
    requires |m| % 64 == 0
  {
    Fold(CompressChunk, INITIAL, Chunks(m))
  }

  /** Names a message for which the predicate below is to be used. */
  ghost predicate AtMessage(m: seq<Byte>) {
    true
  }

  /** hash is HashValue on whole blocks. */
  ghost predicate IsHashValue(hash: seq<Byte> -> State) {
    forall m {:trigger AtMessage(m)} :: AtMessage(m) && |m| % 64 == 0 ==> hash(m) == HashValue(m)
  }

  /** One more chunk is one more application of the compression function. */
  lemma HashValueStep(m: seq<Byte>, c: Chunk)
    requires |m| % 64 == 0
    ensures HashValue(m + c) == CompressChunk(HashValue(m), c)
  {
    assert (m + c)[..|m + c| - 64] == m && (m + c)[|m + c| - 64..] == c;
    var chunks := Chunks(m + c);
    assert chunks[..|chunks| - 1] == Chunks(m) && chunks[|chunks| - 1] == c;
  }

  /** Section 5.1.1: the number of zero bytes between the byte 0x80 and the length field. */
  function ZeroCount(n: nat): (k: nat)
    ensures (n + 1 + k) % 64 == 56 && k < 64
    ensures (n + 9 + k) % 64 == 0
  {
    (55 + 64 - n % 64) % 64
  }

  /** A number below 2^64 in base 256, eight digits, the most significant first. */
  function LengthDigits(bits: nat): (d: seq<nat>)
    ensures |d| == 8 && AreDigits(d)
  {
    [bits / 0x100_0000_0000_0000 % 0x100, bits / 0x1_0000_0000_0000 % 0x100, bits / 0x100_0000_0000 % 0x100,
     bits / 0x1_0000_0000 % 0x100, bits / 0x100_0000 % 0x100, bits / 0x1_0000 % 0x100, bits / 0x100 % 0x100,
     bits % 0x100]
  }

  /** A number below 2^64 as eight bytes. */
  function LengthField(bits: nat): (b: seq<Byte>)
    ensures |b| == 8
  {
    Octets.Octets(LengthDigits(bits))
  }

  function Zeros(n: nat): (b: seq<Byte>)
    ensures |b| == n
  {
    seq(n, i => 0)
  }

  /** The padding of a message of n bytes. */
  function Padding(n: nat): (p: seq<Byte>)
    ensures |p| == ZeroCount(n) + 9
  {
    [0x80] + Zeros(ZeroCount(n)) + LengthField(8 * n)
  }

  function Sha256(m: seq<Byte>): (digest: seq<Byte>)
    ensures |digest| == 32
  {
    StateBytes(HashValue(m + Padding(|m|)))
  }

  // HMAC (FIPS 198-1, section 4)

  /** Steps 1 to 3: the key brought to the block length. */
  function BlockKey(key: seq<Byte>): (k0: seq<Byte>)
    ensures |k0| == 64
  {
    if |key| > 64 then Sha256(key) + Zeros(32) else key + Zeros(64 - |key|)
  }

  function Masked(b: Byte, mask: Byte): Byte {
    b ^ mask
  }

  function XorAll(s: seq<Byte>, b: Byte): (t: seq<Byte>)
    ensures |t| == |s|
  {
    seq(|s|, i requires 0 <= i < |s| => Masked(s[i], b))
  }

  function Hmac(key: seq<Byte>, text: seq<Byte>): (mac: seq<Byte>)
    ensures |mac| == 32
  {
    var k0 := BlockKey(key);
    Sha256(XorAll(k0, 0x5c) + Sha256(XorAll(k0, 0x36) + text))
  }
}
