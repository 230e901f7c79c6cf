/**
 The AES cipher and its inverse as FIPS 197 defines them (sections 3.4, 5.1, 5.2 and 5.3), independent of the
 way AES.cpp computes them.  A state is its 16 bytes in input order: row r, column c is byte r + 4c.
 */
module Fips197 {
  import opened Gf256
  import opened SBoxes
  import opened StateLayout

  type Block = s: seq<bv8> | |s| == 16 witness seq(16, i => 0)
  type Word = s: seq<bv8> | |s| == 4 witness seq(4, i => 0)

  function Xor(a: bv8, b: bv8): bv8 {
    a ^ b
  }

  function XorBlock(s: Block, k: Block): Block {
    Zip(Xor, s, k)
  }

  function XorWord(s: Word, k: Word): Word {
    [Xor(s[0], k[0]), Xor(s[1], k[1]), Xor(s[2], k[2]), Xor(s[3], k[3])]
  }

  // The transformations of sections 5.1 and 5.3; ShiftRows and InvShiftRows are those of the layout

  function SubBytes(s: Block): Block {
    Map(SBox, s)
  }

  function InvSubBytes(s: Block): Block {
    Map(IsBox, s)
  }

  function MixColumns(s: Block): Block {
    MapColumns(MixByte, s)
  }

  function InvMixColumns(s: Block): Block {
    MapColumns(InvMixByte, s)
  }

  // The key expansion of section 5.2

  predicate KeyLength(n: int) {
    n == 16 || n == 24 || n == 32
  }

  function RotWord(w: Word): Word {
    [w[1], w[2], w[3], w[0]]
  }

  function SubWord(w: Word): Word {
    [SBox(w[0]), SBox(w[1]), SBox(w[2]), SBox(w[3])]
  }

  /** w plus a round constant, of which only the first byte is not zero. */
  function AddRcon(w: Word, rc: bv8): Word {
    [Xor(w[0], rc), w[1], w[2], w[3]]
  }

  /** x to the power i - 1, the non-zero byte of Rcon[i]. */
  function Rcon(i: nat): bv8
    requires i >= 1
  {
    if i == 1 then 1 else XTime(Rcon(i - 1))
  }

  /** What is added to word i - Nk to give word i. */
  function Temp(nk: nat, i: nat, previous: Word): Word
    requires nk >= 1 && i >= nk
  {
    if i % nk == 0 then AddRcon(SubWord(RotWord(previous)), Rcon(i / nk))
    else if nk > 6 && i % nk == 4 then SubWord(previous)
    else previous
  }

  function Rounds(keyLength: nat): nat
    requires KeyLength(keyLength)
  {
    keyLength / 4 + 6
  }

  /** Word i is what the key expansion makes it. */
  ghost predicate IsWordAt(words: seq<Word>, key: seq<bv8>, i: nat)
    requires KeyLength(|key|) && i < |words|
  {
    var nk := |key| / 4;
    if i < nk then words[i] == key[4 * i..4 * i + 4]
    else words[i] == XorWord(words[i - nk], Temp(nk, i, words[i - 1]))
  }

  /** The words are those of the key expansion, as far as they go. */
  ghost predicate IsExpansion(words: seq<Word>, key: seq<bv8>)
    requires KeyLength(|key|)
  {
    forall i :: 0 <= i < |words| ==> IsWordAt(words, key, i)
  }

  /** The word that follows the given ones. */
  function WordAfter(words: seq<Word>, key: seq<bv8>): Word
    requires KeyLength(|key|)
  {
    var nk, i := |key| / 4, |words|;
    if i < nk then key[4 * i..4 * i + 4] else XorWord(words[i - nk], Temp(nk, i, words[i - 1]))
  }

  /** The first n words of the expanded key. */
  function ExpandedKey(key: seq<bv8>, n: nat): (words: seq<Word>)
    requires KeyLength(|key|)
    ensures |words| == n
  {
    Unfold((words: seq<Word>) => WordAfter(words, key), n)
  }

  lemma WordAfterPrefix(words: seq<Word>, key: seq<bv8>, i: nat)
    requires KeyLength(|key|) && i < |words| && words[i] == WordAfter(words[..i], key)
    ensures IsWordAt(words, key, i)
  {
  }

  lemma ExpandedKeyIsExpansion(key: seq<bv8>, n: nat)
    requires KeyLength(|key|)
    ensures IsExpansion(ExpandedKey(key, n), key)
  {
    forall i | 0 <= i < n
      ensures IsWordAt(ExpandedKey(key, n), key, i)
    {
      assert ExpandedKey(key, n)[i] == WordAfter(ExpandedKey(key, n)[..i], key);
      WordAfterPrefix(ExpandedKey(key, n), key, i);
    }
  }

  /** ks holds the key expansion for the number of rounds that goes with the key. */
  ghost predicate IsSchedule(ks: seq<bv8>, key: seq<bv8>) {
    && KeyLength(|key|)
    && 16 * (Rounds(|key|) + 1) <= |ks|
    && HasWords(ks, ExpandedKey(key, 4 * (Rounds(|key|) + 1)), 4 * (Rounds(|key|) + 1))
  }

  /** n q, as a sum. */
  ghost function Multiple(n: nat, q: nat): nat {
    if q == 0 then 0 else n + Multiple(n, q - 1)
  }

  lemma {:induction false} MultipleIsProduct(n: nat, q: nat)
    ensures Multiple(n, q) == n * q
  {
    if q == 0 {
    } else {
      MultipleIsProduct(n, q - 1);
      assert n * q == n + n * (q - 1);
    }
  }

  lemma DivMod(n: nat, cc: nat, q: nat, phase: nat)
    requires KeyLength(n) && cc == Multiple(n, q) + 4 * phase && 4 * phase < n
    ensures cc / 4 / (n / 4) == q && cc / 4 % (n / 4) == phase
  {
    MultipleIsProduct(n, q);
    if n == 16 {
      assert cc / 4 == 4 * q + phase;
    } else if n == 24 {
      assert cc / 4 == 6 * q + phase;
    } else {
      assert cc / 4 == 8 * q + phase;
    }
  }

  /** Temp, given the phase i % Nk and the round constant. */
  function TempAt(n: nat, phase: nat, rc: bv8, previous: Word): Word {
    if phase == 0 then AddRcon(SubWord(RotWord(previous)), rc)
    else if n == 32 && phase == 4 then SubWord(previous)
    else previous
  }

  lemma SameTemp(n: nat, w: nat, q: nat, phase: nat, rc: bv8, previous: Word)
    requires KeyLength(n) && n / 4 <= w && w / (n / 4) == q && w % (n / 4) == phase
    requires q >= 1 && (phase == 0 ==> rc == Rcon(q))
    ensures Temp(n / 4, w, previous) == TempAt(n, phase, rc, previous)
  {
  }

  /** Word w of the expanded key from the word before it and the one Nk before; 4w = |key| q + 4 phase. */
  lemma NextWord(words: seq<Word>, key: seq<bv8>, w: nat, q: nat, phase: nat, rc: bv8)
    requires KeyLength(|key|) && IsExpansion(words, key) && |key| / 4 <= w < |words|
    requires 4 * w == Multiple(|key|, q) + 4 * phase && 4 * phase < |key|
    requires q >= 1 && (phase == 0 ==> rc == Rcon(q))
    ensures words[w] == XorWord(words[w - |key| / 4], TempAt(|key|, phase, rc, words[w - 1]))
  {
    assert IsWordAt(words, key, w);
    DivMod(|key|, 4 * w, q, phase);
    SameTemp(|key|, w, q, phase, rc, words[w - 1]);
  }

  // The cipher of section 5.1 and the inverse cipher of section 5.3

  function RoundKey(ks: seq<bv8>, r: nat): Block
    requires |ks| >= 16 * (r + 1)
  {
    ks[16 * r..16 * (r + 1)]
  }

  function MiddleRound(s: Block, k: Block): Block {
    XorBlock(MixColumns(ShiftRows(SubBytes(s))), k)
  }

  /** The state after the initial key addition and rounds 1 to r. */
  function AfterRound(ks: seq<bv8>, r: nat, plain: Block): Block
    requires |ks| >= 16 * (r + 1)
  {
    if r == 0 then XorBlock(plain, RoundKey(ks, 0))
    else MiddleRound(AfterRound(ks, r - 1, plain), RoundKey(ks, r))
  }

  /** The states after rounds 0 to nr - 1. */
  ghost predicate IsTrace(states: seq<Block>, ks: seq<bv8>, nr: nat)
    requires |ks| >= 16 * nr
  {
    |states| == nr && forall r :: 1 <= r < nr ==> states[r] == MiddleRound(states[r - 1], RoundKey(ks, r))
  }

  ghost function Trace(ks: seq<bv8>, nr: nat, plain: Block): (states: seq<Block>)
    requires nr >= 1 && |ks| >= 16 * nr
    ensures IsTrace(states, ks, nr)
    ensures states[0] == AfterRound(ks, 0, plain) && states[nr - 1] == AfterRound(ks, nr - 1, plain)
  {
    if nr == 1 then [AfterRound(ks, 0, plain)] else Trace(ks, nr - 1, plain) + [AfterRound(ks, nr - 1, plain)]
  }

  function Cipher(ks: seq<bv8>, nr: nat, plain: Block): Block
    requires nr >= 1 && |ks| >= 16 * (nr + 1)
  {
    XorBlock(ShiftRows(SubBytes(AfterRound(ks, nr - 1, plain))), RoundKey(ks, nr))
  }

  type Schedule = s: seq<bv8> | |s| == 240 witness seq(240, i => 0)
  type RoundCount = n: nat | n == 10 || n == 12 || n == 14 witness 10

  function Enciphering(ks: Schedule, nr: RoundCount): Block -> Block {
    b => Cipher(ks, nr, b)
  }

  function Deciphering(ks: Schedule, nr: RoundCount): Block -> Block {
    b => InvCipher(ks, nr, b)
  }

  /** Names a block for which the two predicates below are to be used; they are silent about all others. */
  ghost predicate At(b: Block) {
    true
  }

  /** e is the cipher under the round keys ks. */
  ghost predicate Enciphers(e: Block -> Block, ks: seq<bv8>, nr: nat) {
    nr >= 1 && |ks| >= 16 * (nr + 1) && forall b: Block {:trigger At(b)} :: At(b) ==> e(b) == Cipher(ks, nr, b)
  }

  /** d is the inverse cipher under the round keys ks. */
  ghost predicate Deciphers(d: Block -> Block, ks: seq<bv8>, nr: nat) {
    nr >= 1 && |ks| >= 16 * (nr + 1) && forall b: Block {:trigger At(b)} :: At(b) ==> d(b) == InvCipher(ks, nr, b)
  }

  function InvMiddleRound(s: Block, k: Block): Block {
    InvSubBytes(InvShiftRows(InvMixColumns(XorBlock(s, k))))
  }

  /** The state before rounds r, r - 1, ..., 1 are undone is s; this undoes them and the initial key addition. */
  function UndoRounds(ks: seq<bv8>, r: nat, s: Block): Block
    requires |ks| >= 16 * (r + 1)
  {
    if r == 0 then XorBlock(s, RoundKey(ks, 0))
    else UndoRounds(ks, r - 1, InvMiddleRound(s, RoundKey(ks, r)))
  }

  function InvCipher(ks: seq<bv8>, nr: nat, cipher: Block): Block
    requires nr >= 1 && |ks| >= 16 * (nr + 1)
  {
    UndoRounds(ks, nr - 1, InvSubBytes(InvShiftRows(XorBlock(cipher, RoundKey(ks, nr)))))
  }

  // Every transformation is undone by its inverse

  lemma XorBlockTwice(s: Block, k: Block)
    ensures XorBlock(XorBlock(s, k), k) == s
  {
    ZipInverse(Xor, s, k);
  }

  lemma SubBytesInverse(s: Block)
    ensures InvSubBytes(SubBytes(s)) == s
  {
    forall x: bv8
      ensures IsBox(SBox(x)) == x
    {
      IsBoxInvertsSBox(x);
    }
    MapInverse(SBox, IsBox, s);
  }

  lemma MixColumnsInverse(s: Block)
    ensures InvMixColumns(MixColumns(s)) == s
  {
    forall a: bv8, b: bv8, c: bv8, d: bv8
      ensures InvMixByte(MixByte(a, b, c, d), MixByte(b, c, d, a), MixByte(c, d, a, b), MixByte(d, a, b, c)) == a
    {
      InvMixByteInverts(a, b, c, d);
    }
    MapColumnsInverse(MixByte, InvMixByte, s);
  }

  lemma MiddleRoundInverse(s: Block, k: Block)
    ensures InvMiddleRound(MiddleRound(s, k), k) == s
  {
    XorBlockTwice(MixColumns(ShiftRows(SubBytes(s))), k);
    MixColumnsInverse(ShiftRows(SubBytes(s)));
    ShiftRowsInverse(SubBytes(s));
    SubBytesInverse(s);
  }

  lemma {:induction false} RoundsInverse(ks: seq<bv8>, r: nat, plain: Block)
    requires |ks| >= 16 * (r + 1)
    ensures UndoRounds(ks, r, AfterRound(ks, r, plain)) == plain
  {
    if r == 0 {
      XorBlockTwice(plain, RoundKey(ks, 0));
    } else {
      MiddleRoundInverse(AfterRound(ks, r - 1, plain), RoundKey(ks, r));
      RoundsInverse(ks, r - 1, plain);
    }
  }

  /** The inverse cipher undoes the cipher, whatever the round keys. */
  lemma InvCipherInverts(ks: seq<bv8>, nr: nat, plain: Block)
    requires nr >= 1 && |ks| >= 16 * (nr + 1)
    ensures InvCipher(ks, nr, Cipher(ks, nr, plain)) == plain
  {
    var s := AfterRound(ks, nr - 1, plain);
    XorBlockTwice(ShiftRows(SubBytes(s)), RoundKey(ks, nr));
    ShiftRowsInverse(SubBytes(s));
    SubBytesInverse(s);
    RoundsInverse(ks, nr - 1, plain);
  }
}
