/**
 The class Sha256Class of sha256.cpp: a streaming SHA-256 over a 64-byte buffer whose bytes are stored in the lanes
 of little-endian words, with the message schedule computed in place in that buffer; and HMAC on top of it.
 */
module Sha256 {
  import opened Fips180
  import opened Lanes
  import opened Octets
  import opened Recurrence
  import opened RootConstants

  const HASH_LENGTH := 32

  lemma BytesOfWord(w: Word)
    ensures
      var b := WordBytes(w);
      BigEndian(b[0], b[1], b[2], b[3]) == w
  {
  }

  /** The choice function as hashBlock computes it. */
  lemma ChoiceForms(e: Word, f: Word, g: Word)
    ensures g ^ (e & (g ^ f)) == Ch(e, f, g)
  {
  }

  lemma MajorityForms(a: Word, b: Word, c: Word)
    ensures (b & c) | (a & (b | c)) == Maj(a, b, c)
  {
  }

  /** The rotations with ror32, which shifts to both sides. */
  lemma SigmaForms(x: Word)
    ensures ((x << 30) | (x >> 2)) ^ ((x << 19) | (x >> 13)) ^ ((x << 10) | (x >> 22)) == BigSigma0(x)
    ensures ((x << 26) | (x >> 6)) ^ ((x << 21) | (x >> 11)) ^ ((x << 7) | (x >> 25)) == BigSigma1(x)
    ensures ((x << 25) | (x >> 7)) ^ ((x << 14) | (x >> 18)) ^ (x >> 3) == SmallSigma0(x)
    ensures ((x << 15) | (x >> 17)) ^ ((x << 13) | (x >> 19)) ^ (x >> 10) == SmallSigma1(x)
  {
  }

  method RotateA(a: Word) returns (sigma0: Word)
    ensures sigma0 == BigSigma0(a)
  {
    sigma0 := ((a << 30) | (a >> 2)) ^ ((a << 19) | (a >> 13)) ^ ((a << 10) | (a >> 22));
    SigmaForms(a);
  }

  method RotateE(e: Word) returns (sigma1: Word)
    ensures sigma1 == BigSigma1(e)
  {
    sigma1 := ((e << 26) | (e >> 6)) ^ ((e << 21) | (e >> 11)) ^ ((e << 7) | (e >> 25));
    SigmaForms(e);
  }

  lemma RoundSums(h: Word, s1: Word, ch: Word, k: Word, w: Word, s0: Word, maj: Word, d: Word, t1: Word, t2: Word)
    ensures h + s1 + ch + k + w == Sum5(h, s1, ch, k, w)
    ensures s0 + maj == Sum2(s0, maj)
    ensures t1 + t2 == Sum2(t1, t2) && d + t1 == Sum2(d, t1)
  {
  }

  /** The loop body of hashBlock from the line "t1 = h" on. */
  method RoundStep(s: State, k: Word, w: Word) returns (s': State)
    ensures s' == Round(s, k, w)
  {
    var sigma1 := RotateE(s.e);
    var sigma0 := RotateA(s.a);
    var ch, maj := s.g ^ (s.e & (s.g ^ s.f)), (s.b & s.c) | (s.a & (s.b | s.c));
    var t1 := s.h + sigma1 + ch + k + w;
    var t2 := sigma0 + maj;
    s' := State(t1 + t2, s.a, s.b, s.c, s.d + t1, s.e, s.f, s.g);
    ChoiceForms(s.e, s.f, s.g);
    MajorityForms(s.a, s.b, s.c);
    RoundSums(s.h, sigma1, ch, k, w, sigma0, maj, s.d, t1, t2);
  }

  lemma SumOrder(a: Word, b: Word, c: Word, d: Word)
    ensures d + b + a + c == Sum4(a, b, c, d)
  {
  }

  /** The new schedule entry, with the terms in the code's order. */
  method NewEntry(w16: Word, w15: Word, w7: Word, w2: Word) returns (t1: Word)
    ensures t1 == Expand(w16, w15, w7, w2)
  {
    var sigma1 := ((w2 << 15) | (w2 >> 17)) ^ ((w2 << 13) | (w2 >> 19)) ^ (w2 >> 10);
    var sigma0 := ((w15 << 25) | (w15 >> 7)) ^ ((w15 << 14) | (w15 >> 18)) ^ (w15 >> 3);
    SigmaForms(w2);
    SigmaForms(w15);
    t1 := w16 + w7 + sigma1 + sigma0;
    SumOrder(sigma1, w7, sigma0, w16);
  }

  method Mask(b: Byte, mask: Byte) returns (masked: Byte)
    ensures masked == Masked(b, mask)
  {
    masked := b ^ mask;
  }

  // Inside the loop of hashBlock the functions of FIPS 180-4 are known only as step, f and join; the predicates say
  // what they are where it matters

  ghost predicate At(s: State, t: nat, w: Word) {
    true
  }

  ghost predicate AtWords(w16: Word, w15: Word, w7: Word, w2: Word) {
    true
  }

  ghost predicate IsRoundAt(step: (State, nat, Word) -> State) {
    forall s, t, w {:trigger At(s, t, w)} :: At(s, t, w) ==> step(s, t, w) == RoundAt(s, t, w)
  }

  ghost predicate IsExpand(f: (Word, Word, Word, Word) -> Word) {
    forall a, b, c, d {:trigger AtWords(a, b, c, d)} :: AtWords(a, b, c, d) ==> f(a, b, c, d) == Expand(a, b, c, d)
  }

  method Turn(s: State, i: nat, w: Word, ghost step: (State, nat, Word) -> State) returns (s': State)
    requires i < 64 && IsRoundAt(step)
    ensures s' == step(s, i, w)
  {
    assert At(s, i, w);
    s' := RoundStep(s, K(i), w);
  }

  method NextEntry(w16: Word, w15: Word, w7: Word, w2: Word, ghost f: (Word, Word, Word, Word) -> Word)
    returns (t1: Word)
    requires IsExpand(f)
    ensures t1 == f(w16, w15, w7, w2)
  {
    assert AtWords(w16, w15, w7, w2);
    t1 := NewEntry(w16, w15, w7, w2);
  }

  /** The words of the union _state. */
  function Registers(s: seq<Word>): State
    requires |s| == 8
  {
    State(s[0], s[1], s[2], s[3], s[4], s[5], s[6], s[7])
  }

  /** The bytes of a word in memory, least significant first. */
  function MemoryBytes(w: Word): (b: seq<Byte>)
    ensures |b| == 4
  {
    [(w & 0xff) as bv8, ((w >> 8) & 0xff) as bv8, ((w >> 16) & 0xff) as bv8, (w >> 24) as bv8]
  }

  /** The loop body of result. */
  function SwapBytes(a: Word): Word {
    (a << 24) | ((a << 8) & 0x00ff0000) | ((a >> 8) & 0x0000ff00) | (a >> 24)
  }

  lemma SwapBytesReverses(a: Word)
    ensures MemoryBytes(SwapBytes(a)) == WordBytes(a)
  {
  }

  /** The bytes of the union _state. */
  function StateMemory(s: seq<Word>): (b: seq<Byte>)
    requires |s| == 8
    ensures |b| == 32
  {
    MemoryBytes(s[0]) + MemoryBytes(s[1]) + MemoryBytes(s[2]) + MemoryBytes(s[3])
    + MemoryBytes(s[4]) + MemoryBytes(s[5]) + MemoryBytes(s[6]) + MemoryBytes(s[7])
  }

  lemma SwappedState(s: seq<Word>, t: seq<Word>)
    requires |s| == |t| == 8 && forall i :: 0 <= i < 8 ==> t[i] == SwapBytes(s[i])
    ensures StateMemory(t) == StateBytes(Registers(s))
  {
    forall i | 0 <= i < 8
      ensures MemoryBytes(t[i]) == WordBytes(s[i])
    {
      SwapBytesReverses(s[i]);
    }
  }

  lemma HashKnown(h: seq<Byte> -> State, m: seq<Byte>)
    requires IsHashValue(h) && |m| % 64 == 0
    ensures h(m) == HashValue(m)
  {
    assert AtMessage(m);
  }

  lemma Remainder(h: nat, t: nat)
    requires h % 64 == 0 && t < 64
    ensures (h + t) % 64 == t
  {
  }

  /** memcpy and memset into a buffer. */
  method Overwrite<T>(a: array<T>, data: seq<T>)
    requires |data| <= a.Length
    modifies a
    ensures a[..] == data + old(a[|data|..])
  {
    forall i | 0 <= i < |data| {
      a[i] := data[i];
    }
  }

  // Lengths

  lemma CountStep(n: nat)
    ensures (n + 1) % COUNT_LIMIT == (n % COUNT_LIMIT + 1) % COUNT_LIMIT
  {
  }

  const COUNT_LIMIT := 0x1_0000_0000

  /** The bytes that pad writes from a 32-bit count of bytes: shifts right by 29, 21, 13 and 5, and left by 3. */
  function CountDigits(count: nat): (d: seq<nat>)
    ensures |d| == 8 && AreDigits(d)
  {
    [0, 0, 0, count / 0x2000_0000 % 0x100, count / 0x20_0000 % 0x100, count / 0x2000 % 0x100, count / 0x20 % 0x100,
     count * 8 % COUNT_LIMIT % 0x100]
  }

  function CountField(count: nat): (b: seq<Byte>)
    ensures |b| == 8
  {
    Octets.Octets(CountDigits(count))
  }

  /** The bytes that pad appends to n bytes when the counter stands at count. */
  function PadBytes(n: nat, count: nat): (p: seq<Byte>)
    ensures |p| == ZeroCount(n) + 9
  {
    [0x80] + Zeros(ZeroCount(n)) + CountField(count)
  }

  lemma PaddedBehind(m: seq<Byte>, count: nat)
    ensures m + [0x80] + Zeros(ZeroCount(|m|)) + CountField(count) == m + PadBytes(|m|, count)
  {
  }

  lemma Ends(m: seq<Byte>)
    ensures |m + [0x80]| - 1 == |m| && (m + [0x80])[|m|] == 0x80
  {
  }

  lemma FedOneMore<T>(before: seq<T>, s: seq<T>, i: nat)
    requires i < |s|
    ensures before + s[..i] + [s[i]] == before + s[..i + 1]
  {
  }

  /** What result returns for the bytes m when the counter stands at count. */
  function Finish(m: seq<Byte>, count: nat): (digest: seq<Byte>)
    ensures |digest| == 32
  {
    StateBytes(HashValue(m + PadBytes(|m|, count)))
  }

  lemma ShiftedCount(n: nat)
    ensures 8 * n / 0x1_0000_0000 == n / 0x2000_0000 && 8 * n / 0x100_0000 == n / 0x20_0000
    ensures 8 * n / 0x1_0000 == n / 0x2000 && 8 * n / 0x100 == n / 0x20
  {
  }

  lemma CountDigitsInRange(n: nat)
    requires n < COUNT_LIMIT
    ensures CountDigits(n) == LengthDigits(8 * n)
  {
    ShiftedCount(n);
    TopDigits(n);
    LowDigit(8 * n);
  }

  lemma TopDigits(n: nat)
    requires n < COUNT_LIMIT
    ensures 8 * n / 0x100_0000_0000_0000 == 0 && 8 * n / 0x1_0000_0000_0000 == 0 && 8 * n / 0x100_0000_0000 == 0
  {
  }

  lemma LowDigit(b: nat)
    ensures b % COUNT_LIMIT % 0x100 == b % 0x100
  {
  }

  /** A length of 2^32 bytes or more shows in the first four digits of the standard's field. */
  lemma CountDigitsOutOfRange(n: nat)
    requires COUNT_LIMIT <= n < 0x2000_0000_0000_0000
    ensures CountDigits(n % COUNT_LIMIT) != LengthDigits(8 * n)
  {
    HighDigits(8 * n);
    LowCount(n % COUNT_LIMIT);
    var c, d := CountDigits(n % COUNT_LIMIT), LengthDigits(8 * n);
    assert c[0] == 0 && c[1] == 0 && c[2] == 0 && c[3] < 8;
  }

  lemma HighDigits(bits: nat)
    requires 8 * COUNT_LIMIT <= bits < 0x1_0000_0000_0000_0000
    ensures bits / 0x100_0000_0000_0000 % 0x100 != 0 || bits / 0x1_0000_0000_0000 % 0x100 != 0
      || bits / 0x100_0000_0000 % 0x100 != 0 || bits / 0x1_0000_0000 % 0x100 >= 8
  {
  }

  lemma LowCount(count: nat)
    requires count < COUNT_LIMIT
    ensures count / 0x2000_0000 < 8
  {
  }

  /** The padding is that of the standard exactly for messages below 2^32 bytes; above, the counter has wrapped. */
  lemma PaddingIsStandard(n: nat)
    requires n < 0x2000_0000_0000_0000
    ensures PadBytes(n, n % COUNT_LIMIT) == Padding(n) <==> n < COUNT_LIMIT
  {
    if n < COUNT_LIMIT {
      SmallCount(n);
    } else {
      WrappedCount(n);
    }
  }

  lemma WrappedCount(n: nat)
    requires COUNT_LIMIT <= n < 0x2000_0000_0000_0000
    ensures PadBytes(n, n % COUNT_LIMIT) != Padding(n)
  {
    var head, c, d := [0x80] + Zeros(ZeroCount(n)), CountDigits(n % COUNT_LIMIT), LengthDigits(8 * n);
    CountDigitsOutOfRange(n);
    if head + Octets.Octets(c) == head + Octets.Octets(d) {
      SameDigits(head, c, d);
    }
  }

  lemma SameDigits(head: seq<Byte>, c: seq<nat>, d: seq<nat>)
    requires AreDigits(c) && AreDigits(d) && head + Octets.Octets(c) == head + Octets.Octets(d)
    ensures c == d
  {
    SameTail(head, Octets.Octets(c), Octets.Octets(d));
    OctetsInjective(c, d);
  }

  lemma SameTail<T>(head: seq<T>, c: seq<T>, d: seq<T>)
    requires head + c == head + d
    ensures c == d
  {
    assert (head + c)[|head|..] == c && (head + d)[|head|..] == d;
  }

  /** Streaming is hashing: the digest is that of FIPS 180-4 below 2^32 bytes. */
  lemma FinishIsSha256(m: seq<Byte>, count: nat)
    requires |m| < COUNT_LIMIT && count == |m| % COUNT_LIMIT
    ensures Finish(m, count) == Sha256(m)
  {
    SmallCount(|m|);
    assert PadBytes(|m|, count) == Padding(|m|);
  }

  lemma SmallCount(n: nat)
    requires n < COUNT_LIMIT
    ensures n % COUNT_LIMIT == n && CountDigits(n) == LengthDigits(8 * n)
  {
    CountDigitsInRange(n);
  }

  lemma ZerosTail(n: nat, k: nat)
    requires k <= n
    ensures Zeros(n)[k..] == Zeros(n - k)
  {
  }

  lemma ZeroCountReached(n: nat, k: nat)
    requires k <= ZeroCount(n)
    ensures (n + 1 + k) % 64 == 56 <==> k == ZeroCount(n)
  {
    var z := ZeroCount(n);
    if (n + 1 + k) % 64 == 56 {
      assert ((n + 1 + z) - (n + 1 + k)) % 64 == 0;
    }
  }

  lemma HmacOf(key: seq<Byte>, k0: seq<Byte>, text: seq<Byte>, inner: seq<Byte>, outer: seq<Byte>)
    requires k0 == BlockKey(key) && inner == XorAll(k0, 0x36) + text && outer == XorAll(k0, 0x5c) + Sha256(inner)
    ensures Sha256(outer) == Hmac(key, text)
  {
  }

  class Sha256Class {
    const buffer: array<Byte>
    var bufferOffset: nat
    const state: array<Word>
    var byteCount: nat
    const keyBuffer: array<Byte>
    const innerHash: array<Byte>
    /** The bytes given to addUncounted since init: those already hashed and those still in the buffer. */
    ghost var hashed: seq<Byte>
    ghost var tail: seq<Byte>
    /** HashValue, under a name that says nothing about how it is computed. */
    ghost const hash: seq<Byte> -> State

    constructor ()
      ensures buffer.Length == keyBuffer.Length == BLOCK_LENGTH && state.Length == 8 && innerHash.Length == HASH_LENGTH
      ensures fresh(buffer) && fresh(state) && fresh(keyBuffer) && fresh(innerHash) && IsHashValue(hash)
    {
      hash := (m: seq<Byte>) => if |m| % 64 == 0 then HashValue(m) else INITIAL;
      buffer := new Byte[BLOCK_LENGTH];
      state := new Word[8];
      keyBuffer := new Byte[BLOCK_LENGTH];
      innerHash := new Byte[HASH_LENGTH];
    }

    /** Replaces word i of the buffer by the schedule entry that belongs there. */
    method ExpandInRing(i: nat, ghost w: seq<Word>, ghost block: seq<Word>, ghost f: (Word, Word, Word, Word) -> Word,
                        ghost join: (Byte, Byte, Byte, Byte) -> Word)
      requires buffer.Length == BLOCK_LENGTH && 16 <= i < 64 == |w| && IsSchedule(w, block, f) && IsExpand(f)
      requires join == BigEndian && Rolling(Words(join, buffer[..]), w, i)
      modifies buffer
      ensures Rolling(Words(join, buffer[..]), w, i + 1)
    {
      var ring := Words(BigEndian, buffer[..]);
      RollingReads(ring, w, i, block, f);
      RollingWrite(ring, w, i);
      var t1 := NextEntry(ring[i % 16], ring[(i - 15) % 16], ring[(i - 7) % 16], ring[(i - 2) % 16], f);
      BytesOfWord(t1);
      PutWord(buffer, i % 16, WordBytes(t1), join);
    }

    /** The loop of hashBlock; states are the working variables that it passes through. */
    method HashRounds(ghost w: seq<Word>, ghost block: seq<Word>, ghost states: seq<State>,
                      ghost step: (State, nat, Word) -> State, ghost f: (Word, Word, Word, Word) -> Word,
                      ghost join: (Byte, Byte, Byte, Byte) -> Word)
      returns (s: State)
      requires buffer.Length == BLOCK_LENGTH && state.Length == 8
      requires |w| == 64 && IsSchedule(w, block, f) && IsExpand(f) && IsRoundAt(step)
      requires IsRun(states, step, Registers(state[..]), w)
      requires join == BigEndian && block == Words(join, buffer[..])
      modifies buffer
      ensures s == states[64]
    {
      s := Registers(state[..]);
      var i := 0;
      while i < 64
        invariant 0 <= i <= 64
        invariant s == states[i]
        invariant Rolling(Words(join, buffer[..]), w, if i < 16 then 16 else i)
      {
        if i >= 16 {
          ExpandInRing(i, w, block, f, join);
        }
        var ring := Words(BigEndian, buffer[..]);
        s := Turn(s, i, ring[i % 16], step);
        i := i + 1;
      }
    }

    /** hashBlock: the compression function on the words of the buffer, which are used up. */
    method HashBlock()
      requires buffer.Length == BLOCK_LENGTH && state.Length == 8
      modifies buffer, state
      ensures Registers(state[..]) == Compress(old(Registers(state[..])), old(Words(BigEndian, buffer[..])))
    {
      ghost var block := Words(BigEndian, buffer[..]);
      ghost var w := Schedule(Expand, block, 48);
      var s := HashRounds(w, block, Run(RoundAt, Registers(state[..]), w), RoundAt, Expand, BigEndian);
      FeedForward(s);
    }

    method FeedForward(s: State)
      requires state.Length == 8
      modifies state
      ensures Registers(state[..]) == AddState(old(Registers(state[..])), s)
    {
      state[0], state[1], state[2] := Sum2(state[0], s.a), Sum2(state[1], s.b), Sum2(state[2], s.c);
      state[3], state[4], state[5] := Sum2(state[3], s.d), Sum2(state[4], s.e), Sum2(state[5], s.f);
      state[6], state[7] := Sum2(state[6], s.g), Sum2(state[7], s.h);
    }

    /** hashed has gone through the compression function and tail waits in the lanes of the buffer. */
    ghost predicate Valid()
      reads this, buffer, state
    {
      && Separate() && IsHashValue(hash)
      && |hashed| % 64 == 0 && bufferOffset == |tail| < BLOCK_LENGTH && byteCount < 0x1_0000_0000
      && Filled(buffer[..], tail)
      && Registers(state[..]) == hash(hashed)
    }

    ghost predicate Separate() {
      && buffer.Length == keyBuffer.Length == BLOCK_LENGTH && state.Length == 8 && innerHash.Length == HASH_LENGTH
      && buffer != keyBuffer && buffer != innerHash && keyBuffer != innerHash
    }

    /** All bytes given to addUncounted since init. */
    ghost function Fed(): seq<Byte>
      reads this
    {
      hashed + tail
    }

    /** init. */
    method Init()
      requires Separate() && IsHashValue(hash)
      modifies this`bufferOffset, this`hashed, this`tail, this`byteCount, state
      ensures Valid() && Counted() && Fed() == [] && byteCount == 0
    {
      InitialState();
      byteCount := 0;
      bufferOffset := 0;
      hashed, tail := [], [];
      assert AtMessage([]);
    }

    /** The bytes of sha256InitState are those of the words of section 5.3.3, little-endian. */
    method InitialState()
      requires state.Length == 8
      modifies state
      ensures Registers(state[..]) == INITIAL
    {
      state[0], state[1] := BigEndian(0x6a, 0x09, 0xe6, 0x67), BigEndian(0xbb, 0x67, 0xae, 0x85);
      state[2], state[3] := BigEndian(0x3c, 0x6e, 0xf3, 0x72), BigEndian(0xa5, 0x4f, 0xf5, 0x3a);
      state[4], state[5] := BigEndian(0x51, 0x0e, 0x52, 0x7f), BigEndian(0x9b, 0x05, 0x68, 0x8c);
      state[6], state[7] := BigEndian(0x1f, 0x83, 0xd9, 0xab), BigEndian(0x5b, 0xe0, 0xcd, 0x19);
    }

    /** addUncounted: one more byte, and one more block when the buffer is full. */
    method AddUncounted(data: Byte)
      requires Valid()
      modifies this`bufferOffset, this`hashed, this`tail, buffer, state
      ensures Valid() && Fed() == old(Fed()) + [data]
    {
      Store(buffer, bufferOffset, data, tail);
      bufferOffset := bufferOffset + 1;
      tail := tail + [data];
      if bufferOffset == BLOCK_LENGTH {
        HashTail(hash);
        bufferOffset := 0;
        hashed, tail := hashed + tail, [];
      }
    }

    /** hashBlock on a buffer that holds all of tail. */
    method HashTail(ghost h: seq<Byte> -> State)
      requires Separate() && IsHashValue(h) && |hashed| % 64 == 0 && |tail| == BLOCK_LENGTH
      requires Filled(buffer[..], tail) && Registers(state[..]) == h(hashed)
      modifies buffer, state
      ensures Registers(state[..]) == h(hashed + tail)
    {
      assert AtMessage(hashed) && AtMessage(hashed + tail);
      FullBuffer(BigEndian, buffer[..], tail);
      HashValueStep(hashed, tail);
      HashBlock();
    }

    /** write. */
    method Write(data: Byte)
      requires Valid()
      modifies this`bufferOffset, this`hashed, this`tail, this`byteCount, buffer, state
      ensures Valid() && Fed() == old(Fed()) + [data] && byteCount == (old(byteCount) + 1) % 0x1_0000_0000
      ensures old(Counted()) ==> Counted()
    {
      CountStep(|Fed()|);
      byteCount := (byteCount + 1) % 0x1_0000_0000;
      AddUncounted(data);
    }

    /** The counter is the number of bytes modulo 2^32; every write keeps it so. */
    ghost predicate Counted()
      reads this
    {
      byteCount == |Fed()| % COUNT_LIMIT
    }

    /** The zero bytes up to offset 56. */
    method PadZeros()
      requires Valid() && Fed() != [] && Fed()[|Fed()| - 1] == 0x80
      modifies this`bufferOffset, this`hashed, this`tail, buffer, state
      ensures Valid() && Fed() == old(Fed()) + Zeros(ZeroCount(|old(Fed())| - 1))
    {
      ghost var start, k := Fed(), 0;
      ghost var n := |start| - 1;
      ZeroCountReached(n, k);
      Remainder(|hashed|, |tail|);
      while bufferOffset != 56
        invariant Valid() && k <= ZeroCount(n) && Fed() == start + Zeros(k)
        invariant bufferOffset == 56 <==> k == ZeroCount(n)
        decreases ZeroCount(n) - k
      {
        AddUncounted(0);
        k := k + 1;
        ZeroCountReached(n, k);
        Remainder(|hashed|, |tail|);
      }
    }

    /** Calls of addUncounted one after the other. */
    method AddAll(bytes: seq<Byte>)
      requires Valid()
      modifies this`bufferOffset, this`hashed, this`tail, buffer, state
      ensures Valid() && Fed() == old(Fed()) + bytes
    {
      var i := 0;
      while i < |bytes|
        invariant 0 <= i <= |bytes|
        invariant Valid() && Fed() == old(Fed()) + bytes[..i]
      {
        AddUncounted(bytes[i]);
        i := i + 1;
      }
    }

    /** pad. */
    method Pad()
      requires Valid()
      modifies this`bufferOffset, this`hashed, this`tail, buffer, state
      ensures Valid() && Fed() == old(Fed()) + PadBytes(|old(Fed())|, byteCount)
    {
      PaddedBehind(Fed(), byteCount);
      PadWith(CountField(byteCount));
    }

    method PadWith(field: seq<Byte>)
      requires Valid()
      modifies this`bufferOffset, this`hashed, this`tail, buffer, state
      ensures Valid() && Fed() == old(Fed()) + [0x80] + Zeros(ZeroCount(|old(Fed())|)) + field
    {
      Ends(Fed());
      AddUncounted(0x80);
      PadZeros();
      AddAll(field);
    }

    /** The loop of result. */
    method SwapBack()
      requires state.Length == 8
      modifies state
      ensures StateMemory(state[..]) == StateBytes(old(Registers(state[..])))
    {
      var i := 0;
      while i < 8
        invariant 0 <= i <= 8
        invariant forall k :: 0 <= k < i ==> state[k] == SwapBytes(old(state[k]))
        invariant forall k :: i <= k < 8 ==> state[k] == old(state[k])
      {
        state[i] := SwapBytes(state[i]);
        i := i + 1;
      }
      SwappedState(old(state[..]), state[..]);
    }

    /** result: the digest of everything fed since init.  The next use of the object begins with init. */
    method Result() returns (digest: seq<Byte>)
      requires Valid()
      modifies this`bufferOffset, this`hashed, this`tail, buffer, state
      ensures digest == Finish(old(Fed()), byteCount)
    {
      ghost var m := Fed();
      Pad();
      Remainder(|hashed|, |tail|);
      assert hashed == m + PadBytes(|m|, byteCount);
      ghost var h := hash;
      SwapBack();
      HashKnown(h, hashed);
      digest := StateMemory(state[..]);
    }

    /** result, when fewer than 2^32 bytes were written. */
    method Digest() returns (digest: seq<Byte>)
      requires Valid() && Counted() && |Fed()| < COUNT_LIMIT
      modifies this`bufferOffset, this`hashed, this`tail, buffer, state
      ensures digest == Sha256(old(Fed()))
    {
      FinishIsSha256(Fed(), byteCount);
      digest := Result();
    }

    /** Writing a run of bytes. */
    method WriteAll(bytes: seq<Byte>)
      requires Valid() && Counted()
      modifies this`bufferOffset, this`hashed, this`tail, this`byteCount, buffer, state
      ensures Valid() && Counted() && Fed() == old(Fed()) + bytes
    {
      var i := 0;
      while i < |bytes|
        invariant 0 <= i <= |bytes|
        invariant Valid() && Counted() && Fed() == old(Fed()) + bytes[..i]
      {
        Write(bytes[i]);
        i := i + 1;
      }
    }

    /** The digest of a key that is longer than a block. */
    method HashKey(key: array<Byte>, keyLength: nat) returns (digest: seq<Byte>)
      requires Separate() && IsHashValue(hash) && keyLength <= key.Length && keyLength < 0x8000_0000
      requires key != buffer
      modifies this`bufferOffset, this`hashed, this`tail, this`byteCount, buffer, state
      ensures digest == Sha256(old(key[..keyLength]))
    {
      Init();
      var k := 0;
      while k < keyLength
        invariant 0 <= k <= keyLength
        invariant Valid() && Counted() && Fed() == key[..k]
      {
        Write(key[k]);
        k := k + 1;
      }
      digest := Digest();
    }

    /** The first half of initHmac: the key brought to the block length, in keyBuffer. */
    method LoadKey(key: array<Byte>, keyLength: nat)
      requires Separate() && IsHashValue(hash) && keyLength <= key.Length && keyLength < 0x8000_0000
      requires key != buffer && key != keyBuffer
      modifies this`bufferOffset, this`hashed, this`tail, this`byteCount, buffer, state, keyBuffer
      ensures keyBuffer[..] == BlockKey(old(key[..keyLength]))
    {
      Overwrite(keyBuffer, Zeros(BLOCK_LENGTH));
      assert keyBuffer[..] == Zeros(BLOCK_LENGTH);
      var head := key[..keyLength];
      if keyLength > BLOCK_LENGTH {
        head := HashKey(key, keyLength);
      }
      Overwrite(keyBuffer, head);
      ZerosTail(BLOCK_LENGTH, |head|);
    }

    /** initHmac: the key is in keyBuffer and the inner hash has consumed it, masked. */
    method InitHmac(key: array<Byte>, keyLength: nat)
      requires Separate() && IsHashValue(hash) && keyLength <= key.Length && keyLength < 0x8000_0000
      requires key != buffer && key != keyBuffer
      modifies this`bufferOffset, this`hashed, this`tail, this`byteCount, buffer, state, keyBuffer
      ensures Valid() && Counted() && keyBuffer[..] == BlockKey(old(key[..keyLength]))
      ensures Fed() == XorAll(keyBuffer[..], 0x36)
    {
      LoadKey(key, keyLength);
      Init();
      WriteMasked(0x36);
    }

    /** The loop that writes the masked key. */
    method WriteMasked(mask: Byte)
      requires Valid() && Counted()
      modifies this`bufferOffset, this`hashed, this`tail, this`byteCount, buffer, state
      ensures Valid() && Counted() && Fed() == old(Fed()) + XorAll(keyBuffer[..], mask)
    {
      ghost var before, masked := Fed(), XorAll(keyBuffer[..], mask);
      var i := 0;
      while i < BLOCK_LENGTH
        invariant 0 <= i <= BLOCK_LENGTH
        invariant Valid() && Counted() && Fed() == before + masked[..i]
      {
        FedOneMore(before, masked, i);
        var b := Mask(keyBuffer[i], mask);
        Write(b);
        i := i + 1;
      }
      assert masked[..i] == masked;
    }

    /** resultHmac, after initHmac with key and the writing of text. */
    method ResultHmac(ghost key: seq<Byte>, ghost text: seq<Byte>) returns (mac: seq<Byte>)
      requires Valid() && Counted() && keyBuffer[..] == BlockKey(key)
      requires Fed() == XorAll(keyBuffer[..], 0x36) + text && |text| < COUNT_LIMIT - BLOCK_LENGTH
      modifies this`bufferOffset, this`hashed, this`tail, this`byteCount, buffer, state, innerHash
      ensures mac == Hmac(key, text)
    {
      ghost var k0, inner := keyBuffer[..], Fed();
      var digest := Digest();
      Overwrite(innerHash, digest);
      assert innerHash[..] == digest == Sha256(inner);
      Init();
      WriteMasked(0x5c);
      assert Fed() == XorAll(k0, 0x5c);
      WriteAll(innerHash[..]);
      ghost var outer := Fed();
      mac := Digest();
      HmacOf(key, k0, text, inner, outer);
    }
  }
}
