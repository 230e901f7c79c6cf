/**
 The AES class of AES.cpp: key schedule, block cipher and cipher block chaining, working in place on byte
 buffers as the C++ does.  A C++ pointer is modelled as an array and an offset into it.
 */
module Aes {
  import opened Gf256
  import opened SBoxes
  import opened StateLayout
  import opened Fips197
  import opened InPlace
  import Cbc

  const AES_SUCCESS: bv8 := 0
  const AES_FAILURE: bv8 := 0xff
  const N_BLOCK := 16
  const N_COL := 4
  const KEY_SCHEDULE_BYTES := 240

  /** The macro f2. */
  function F2(a: bv8): bv8 {
    if a & 0x80 != 0 then (a << 1) ^ 0x1b else a << 1
  }

  lemma F2Expanded(a: bv8)
    ensures F2(a) == (a << 1) ^ (a >> 7) ^ ((a >> 7) << 1) ^ ((a >> 7) << 3) ^ ((a >> 7) << 4)
  {
  }

  lemma F2IsXTime(a: bv8)
    ensures F2(a) == XTime(a)
  {
  }

  function Sum5(a: bv8, b: bv8, c: bv8, d: bv8, e: bv8): bv8 {
    a ^ b ^ c ^ d ^ e
  }

  /** The first sum of mix_sub_columns. */
  lemma MixSum(a: bv8, b: bv8, c: bv8, d: bv8)
    ensures Sum5(F2(a), F2(b), b, c, d) == MixByte(a, b, c, d)
  {
    F2Expanded(a);
    F2Expanded(b);
    MixByteExpanded(a, b, c, d);
  }

  lemma Sum5Orders(a: bv8, b: bv8, c: bv8, d: bv8, e: bv8)
    ensures a ^ b ^ c ^ d ^ e == Sum5(a, b, c, d, e)
    ensures e ^ a ^ b ^ c ^ d == Sum5(a, b, c, d, e)
    ensures d ^ e ^ a ^ b ^ c == Sum5(a, b, c, d, e)
    ensures b ^ c ^ d ^ e ^ a == Sum5(a, b, c, d, e)
  {
  }

  function InvSum(a1: bv8, a2: bv8, a4: bv8, a8: bv8, b1: bv8, b2: bv8, b8: bv8,
                  c1: bv8, c4: bv8, c8: bv8, d1: bv8, d8: bv8): bv8 {
    (a8 ^ a4 ^ a2) ^ (b8 ^ b1 ^ b2) ^ (c8 ^ c4 ^ c1) ^ (d8 ^ d1)
  }

  lemma InvSumExpanded(p: bv8, q: bv8, r: bv8, t: bv8)
    ensures
      var p2 := (p << 1) ^ (p >> 7) ^ ((p >> 7) << 1) ^ ((p >> 7) << 3) ^ ((p >> 7) << 4);
      var p4 := (p2 << 1) ^ (p2 >> 7) ^ ((p2 >> 7) << 1) ^ ((p2 >> 7) << 3) ^ ((p2 >> 7) << 4);
      var p8 := (p4 << 1) ^ (p4 >> 7) ^ ((p4 >> 7) << 1) ^ ((p4 >> 7) << 3) ^ ((p4 >> 7) << 4);
      var q2 := (q << 1) ^ (q >> 7) ^ ((q >> 7) << 1) ^ ((q >> 7) << 3) ^ ((q >> 7) << 4);
      var q4 := (q2 << 1) ^ (q2 >> 7) ^ ((q2 >> 7) << 1) ^ ((q2 >> 7) << 3) ^ ((q2 >> 7) << 4);
      var q8 := (q4 << 1) ^ (q4 >> 7) ^ ((q4 >> 7) << 1) ^ ((q4 >> 7) << 3) ^ ((q4 >> 7) << 4);
      var r2 := (r << 1) ^ (r >> 7) ^ ((r >> 7) << 1) ^ ((r >> 7) << 3) ^ ((r >> 7) << 4);
      var r4 := (r2 << 1) ^ (r2 >> 7) ^ ((r2 >> 7) << 1) ^ ((r2 >> 7) << 3) ^ ((r2 >> 7) << 4);
      var r8 := (r4 << 1) ^ (r4 >> 7) ^ ((r4 >> 7) << 1) ^ ((r4 >> 7) << 3) ^ ((r4 >> 7) << 4);
      var t2 := (t << 1) ^ (t >> 7) ^ ((t >> 7) << 1) ^ ((t >> 7) << 3) ^ ((t >> 7) << 4);
      var t4 := (t2 << 1) ^ (t2 >> 7) ^ ((t2 >> 7) << 1) ^ ((t2 >> 7) << 3) ^ ((t2 >> 7) << 4);
      var t8 := (t4 << 1) ^ (t4 >> 7) ^ ((t4 >> 7) << 1) ^ ((t4 >> 7) << 3) ^ ((t4 >> 7) << 4);
      InvSum(p, p2, p4, p8, q, q2, q8, r, r4, r8, t, t8) == InvMixByteExpanded(p, q, r, t)
  {
  }

  lemma F2Thrice(a: bv8)
    ensures
      var a2 := (a << 1) ^ (a >> 7) ^ ((a >> 7) << 1) ^ ((a >> 7) << 3) ^ ((a >> 7) << 4);
      var a4 := (a2 << 1) ^ (a2 >> 7) ^ ((a2 >> 7) << 1) ^ ((a2 >> 7) << 3) ^ ((a2 >> 7) << 4);
      var a8 := (a4 << 1) ^ (a4 >> 7) ^ ((a4 >> 7) << 1) ^ ((a4 >> 7) << 3) ^ ((a4 >> 7) << 4);
      F2(a) == a2 && F2(F2(a)) == a4 && F2(F2(F2(a))) == a8
  {
  }

  lemma InvMixSum(p: bv8, q: bv8, r: bv8, t: bv8)
    ensures InvSum(p, F2(p), F2(F2(p)), F2(F2(F2(p))), q, F2(q), F2(F2(F2(q))),
                   r, F2(F2(r)), F2(F2(F2(r))), t, F2(F2(F2(t)))) == InvMixByte(p, q, r, t)
  {
    InvSumExpanded(p, q, r, t);
    InvMixByteIsExpanded(p, q, r, t);
    F2Thrice(p);
    F2Thrice(q);
    F2Thrice(r);
    F2Thrice(t);
  }

  /** The four sums of inv_mix_sub_columns, in the order in which the code adds the terms. */
  lemma InvSumOrders(a1: bv8, a2: bv8, a4: bv8, a8: bv8, b1: bv8, b2: bv8, b8: bv8,
                     c1: bv8, c4: bv8, c8: bv8, d1: bv8, d8: bv8)
    ensures (a8 ^ a4) ^ a2 ^ (b8 ^ b1) ^ b2 ^ (c8 ^ c4) ^ c1 ^ (d8 ^ d1)
         == InvSum(a1, a2, a4, a8, b1, b2, b8, c1, c4, c8, d1, d8)
    ensures (d8 ^ d1) ^ (a8 ^ a4) ^ a2 ^ (b8 ^ b1) ^ b2 ^ (c8 ^ c4) ^ c1
         == InvSum(a1, a2, a4, a8, b1, b2, b8, c1, c4, c8, d1, d8)
    ensures (c8 ^ c4) ^ c1 ^ (d8 ^ d1) ^ (a8 ^ a4) ^ a2 ^ (b8 ^ b1) ^ b2
         == InvSum(a1, a2, a4, a8, b1, b2, b8, c1, c4, c8, d1, d8)
    ensures (b8 ^ b1) ^ b2 ^ (c8 ^ c4) ^ c1 ^ (d8 ^ d1) ^ (a8 ^ a4) ^ a2
         == InvSum(a1, a2, a4, a8, b1, b2, b8, c1, c4, c8, d1, d8)
  {
  }

  /** The loop body of inv_mix_sub_columns without the table look-up and the scatter. */
  method InvMixSums(a1: bv8, b1: bv8, c1: bv8, d1: bv8) returns (p: bv8, q: bv8, r: bv8, t: bv8)
    ensures p == InvMixByte(a1, b1, c1, d1)
    ensures q == InvMixByte(b1, c1, d1, a1)
    ensures r == InvMixByte(c1, d1, a1, b1)
    ensures t == InvMixByte(d1, a1, b1, c1)
  {
    var a2, b2, c2, d2 := F2(a1), F2(b1), F2(c1), F2(d1);
    var a4, b4, c4, d4 := F2(a2), F2(b2), F2(c2), F2(d2);
    var a8, b8, c8, d8 := F2(a4), F2(b4), F2(c4), F2(d4);
    p := (a8 ^ a4) ^ a2 ^ (b8 ^ b1) ^ b2 ^ (c8 ^ c4) ^ c1 ^ (d8 ^ d1);
    q := (a8 ^ a1) ^ (b8 ^ b4) ^ b2 ^ (c8 ^ c1) ^ c2 ^ (d8 ^ d4) ^ d1;
    r := (a8 ^ a4) ^ a1 ^ (b8 ^ b1) ^ (c8 ^ c4) ^ c2 ^ (d8 ^ d1) ^ d2;
    t := (a8 ^ a1) ^ a2 ^ (b8 ^ b4) ^ b1 ^ (c8 ^ c1) ^ (d8 ^ d4) ^ d2;
    InvSumOrders(a1, a2, a4, a8, b1, b2, b8, c1, c4, c8, d1, d8);
    InvSumOrders(b1, b2, b4, b8, c1, c2, c8, d1, d4, d8, a1, a8);
    InvSumOrders(c1, c2, c4, c8, d1, d2, d8, a1, a4, a8, b1, b8);
    InvSumOrders(d1, d2, d4, d8, a1, a2, a8, b1, b4, b8, c1, c8);
    InvMixSum(a1, b1, c1, d1);
    InvMixSum(b1, c1, d1, a1);
    InvMixSum(c1, d1, a1, b1);
    InvMixSum(d1, a1, b1, c1);
  }

  /** The loop body of mix_sub_columns after the table look-ups. */
  method MixSums(a1: bv8, b1: bv8, c1: bv8, d1: bv8) returns (p: bv8, q: bv8, r: bv8, t: bv8)
    ensures p == MixByte(a1, b1, c1, d1)
    ensures q == MixByte(b1, c1, d1, a1)
    ensures r == MixByte(c1, d1, a1, b1)
    ensures t == MixByte(d1, a1, b1, c1)
  {
    var a2, b2, c2, d2 := F2(a1), F2(b1), F2(c1), F2(d1);
    p := a2 ^ b2 ^ b1 ^ c1 ^ d1;
    q := a1 ^ b2 ^ c2 ^ c1 ^ d1;
    r := a1 ^ b1 ^ c2 ^ d2 ^ d1;
    t := a2 ^ a1 ^ b1 ^ c1 ^ d2;
    Sum5Orders(a2, b2, b1, c1, d1);
    Sum5Orders(b2, c2, c1, d1, a1);
    Sum5Orders(c2, d2, d1, a1, b1);
    Sum5Orders(d2, a2, a1, b1, c1);
    MixSum(a1, b1, c1, d1);
    MixSum(b1, c1, d1, a1);
    MixSum(c1, d1, a1, b1);
    MixSum(d1, a1, b1, c1);
  }

  // The state transformations

  /** The right-hand sides in the loop of mix_sub_columns; u is the state that the whole loop builds. */
  method MixSubColumn(st: array<bv8>, i: nat, j: nat, k: nat, l: nat, ghost u: Block)
    returns (p: bv8, q: bv8, r: bv8, t: bv8)
    requires st.Length == N_BLOCK && i < N_BLOCK && i % 4 == 0
    requires j == Wrap(i + 5) && k == Wrap(i + 10) && l == Wrap(i + 15)
    requires u == MixColumns(ShiftRows(SubBytes(st[..])))
    ensures u[i] == p && u[i + 1] == q && u[i + 2] == r && u[i + 3] == t
  {
    p, q, r, t := MixSums(SBox(st[i]), SBox(st[j]), SBox(st[k]), SBox(st[l]));
    FusedColumn(SBox, MixByte, st[..], i);
  }

  /** mix_sub_columns: the three transformations of a middle round in one pass over the state. */
  method MixSubColumns(dt: array<bv8>, st: array<bv8>)
    requires dt.Length == N_BLOCK && st.Length == N_BLOCK && dt != st
    modifies dt
    ensures dt[..] == MixColumns(ShiftRows(SubBytes(st[..])))
  {
    ghost var u := MixColumns(ShiftRows(SubBytes(st[..])));
    var i, j, k, l := 0, 5, 10, 15;
    while i < N_BLOCK
      invariant i == 0 || i == 4 || i == 8 || i == 12 || i == 16
      invariant i < N_BLOCK ==> j == Wrap(i + 5) && k == Wrap(i + 10) && l == Wrap(i + 15)
      invariant dt[..i] == u[..i]
      decreases N_BLOCK - i
    {
      var p, q, r, t := MixSubColumn(st, i, j, k, l, u);
      PutColumn(dt, i, p, q, r, t, u);
      if i < 12 {
        WrapStep(i, 5);
        WrapStep(i, 10);
        WrapStep(i, 15);
      }
      i, j, k, l := i + N_COL, (j + N_COL) % 16, (k + N_COL) % 16, (l + N_COL) % 16;
    }
  }

  /** The right-hand sides in the loop of inv_mix_sub_columns, and where they go. */
  method InvMixSubColumn(st: array<bv8>, i: nat, ghost u: Block) returns (p: bv8, q: bv8, r: bv8, t: bv8)
    requires st.Length == N_BLOCK && i < N_BLOCK && i % 4 == 0
    requires u == InvSubBytes(InvShiftRows(InvMixColumns(st[..])))
    ensures u[i] == p && u[Wrap(i + 5)] == q && u[Wrap(i + 10)] == r && u[Wrap(i + 15)] == t
  {
    p, q, r, t := InvMixSums(st[i], st[i + 1], st[i + 2], st[i + 3]);
    p, q, r, t := IsBox(p), IsBox(q), IsBox(r), IsBox(t);
    ScatteredColumn(IsBox, InvMixByte, st[..], i);
  }

  /** inv_mix_sub_columns: each column is mixed, then its bytes are looked up and scattered. */
  method InvMixSubColumns(dt: array<bv8>, st: array<bv8>)
    requires dt.Length == N_BLOCK && st.Length == N_BLOCK && dt != st
    modifies dt
    ensures dt[..] == InvSubBytes(InvShiftRows(InvMixColumns(st[..])))
  {
    ghost var u := InvSubBytes(InvShiftRows(InvMixColumns(st[..])));
    var i := 0;
    while i < N_BLOCK
      invariant i == 0 || i == 4 || i == 8 || i == 12 || i == 16
      invariant ScatteredBefore(dt[..], i, u)
      decreases N_BLOCK - i
    {
      var p, q, r, t := InvMixSubColumn(st, i, u);
      ScatterColumn(dt, i, p, q, r, t, u);
      i := i + N_COL;
    }
    AllScattered(dt[..], u);
  }

  /** The multiple of the key length that the loop of set_key is heading for, before it is cut to a byte. */
  ghost function Target(n: nat, q: nat, phase: nat): nat {
    if phase == 0 then Multiple(n, q) else Multiple(n, q + 1)
  }

  /** How the counters of set_key's loop follow w = cc / 4, the index of the word to come: w is q Nk + phase. */
  ghost predicate Counters(n: nat, cc: nat, next: nat, rc: bv8, q: nat, phase: nat) {
    && KeyLength(n) && q >= 1 && 4 * phase < n
    && cc == Multiple(n, q) + 4 * phase
    && next == (if Target(n, q, phase) == 256 then 0 else Target(n, q, phase))
    && rc == Rcon(if phase == 0 then q else q + 1)
  }

  /** The target stays within a byte, except that it reaches 256 at the end of the longest schedule. */
  lemma TargetBound(n: nat, q: nat, phase: nat)
    requires KeyLength(n) && 4 * phase < n && Multiple(n, q) + 4 * phase < 16 * (Rounds(n) + 1)
    ensures Target(n, q, phase) <= 256
    ensures phase == 0 ==> Target(n, q, phase) < 256 && Multiple(n, q + 1) <= 256
  {
    MultipleIsProduct(n, q);
    MultipleIsProduct(n, q + 1);
    if n == 16 {
      assert Target(n, q, phase) == 16 * (if phase == 0 then q else q + 1);
    } else if n == 24 {
      assert Target(n, q, phase) == 24 * (if phase == 0 then q else q + 1);
    } else {
      assert Target(n, q, phase) == 32 * (if phase == 0 then q else q + 1);
    }
  }

  /** The byte-sized next meets cc exactly at the multiples of the key length, although it wraps around. */
  lemma NextTest(n: nat, cc: nat, next: nat, rc: bv8, q: nat, phase: nat)
    requires Counters(n, cc, next, rc, q, phase) && cc < 16 * (Rounds(n) + 1)
    ensures cc == next <==> phase == 0
    ensures n == 32 ==> (cc % 32 == 16 <==> phase == 4)
  {
    TargetBound(n, q, phase);
    if n == 32 {
      MultipleIsProduct(n, q);
      assert cc == 32 * q + 4 * phase;
    }
  }

  lemma FirstCounters(n: nat)
    requires KeyLength(n)
    ensures Counters(n, n, n, 1, 1, 0) && n == 4 * (n / 4)
  {
  }

  lemma CountersStep(n: nat, cc: nat, next: nat, rc: bv8, q: nat, phase: nat)
    requires Counters(n, cc, next, rc, q, phase) && cc < 16 * (Rounds(n) + 1)
    ensures
      var last := 4 * (phase + 1) == n;
      Counters(n, cc + 4, if phase == 0 then (next + n) % 256 else next, if phase == 0 then XTime(rc) else rc,
        if last then q + 1 else q, if last then 0 else phase + 1)
  {
    TargetBound(n, q, phase);
  }

  /** What set_key does to the previous word before adding it. */
  method Transform(t0: Word, n: nat, cc: nat, next: nat, rc: bv8, ghost phase: nat)
    returns (t: Word, next': nat, rc': bv8)
    requires cc == next <==> phase == 0
    requires KeyLength(n) && 4 * phase < n && (n == 32 ==> (cc % 32 == 16 <==> phase == 4))
    ensures t == TempAt(n, phase, rc, t0)
    ensures next' == if phase == 0 then (next + n) % 256 else next
    ensures rc' == if phase == 0 then XTime(rc) else rc
  {
    t, next', rc' := t0, next, rc;
    if cc == next {
      next' := (next + n) % 256;
      t := [SBox(t0[1]) ^ rc, SBox(t0[2]), SBox(t0[3]), SBox(t0[0])];
      rc' := F2(rc);
      F2IsXTime(rc);
    } else if n == 32 && cc % 32 == 16 {
      t := [SBox(t0[0]), SBox(t0[1]), SBox(t0[2]), SBox(t0[3])];
    }
  }

  /** The sum that set_key writes, read off the schedule so far, is the next word of the expansion. */
  lemma NextSum(ks: seq<bv8>, words: seq<Word>, key: seq<bv8>, w: nat, cc: nat, rc: bv8, q: nat, phase: nat)
    requires KeyLength(|key|) && IsExpansion(words, key) && |key| / 4 <= w < |words|
    requires cc == 4 * w && cc + 4 <= |ks| && HasWords(ks, words, w)
    requires cc == Multiple(|key|, q) + 4 * phase && 4 * phase < |key| && q >= 1 && (phase == 0 ==> rc == Rcon(q))
    ensures XorWord(ks[cc - |key|..cc - |key| + 4], TempAt(|key|, phase, rc, ks[cc - 4..cc - 4 + 4])) == words[w]
  {
    var nk := |key| / 4;
    FirstCounters(|key|);
    WordsBefore(ks, words, w, cc, nk, |key|);
    NextWord(words, key, w, q, phase, rc);
  }

  lemma InitialWords(key: seq<bv8>, words: seq<Word>)
    requires KeyLength(|key|) && IsExpansion(words, key) && |key| / 4 <= |words|
    ensures HasWords(key, words, |key| / 4)
  {
    forall i | 0 <= i < |key| / 4
      ensures key[4 * i..4 * i + 4] == words[i]
    {
      assert IsWordAt(words, key, i);
    }
  }

  /** The object of class AES.  A C++ pointer argument is an array and an offset. */
  class AES {
    const keySched: array<bv8>
    var round: nat

    constructor ()
      ensures fresh(keySched) && keySched.Length == KEY_SCHEDULE_BYTES && round == 0
    {
      keySched := new bv8[KEY_SCHEDULE_BYTES];
      round := 0;
    }

    /** The number of rounds is one that set_key installs, or 0 while there is no key. */
    ghost predicate Valid()
      reads this
    {
      keySched.Length == KEY_SCHEDULE_BYTES && (round == 0 || round == 10 || round == 12 || round == 14)
    }

    /** The key length in bytes that set_key reads from its argument, which may count bytes or bits. */
    static function KeyBytes(keylen: int): (n: nat)
      ensures n == 0 || KeyLength(n)
    {
      if keylen == 16 || keylen == 128 then 16
      else if keylen == 24 || keylen == 192 then 24
      else if keylen == 32 || keylen == 256 then 32
      else 0
    }

    /** set_key: installs the key expansion, or no key at all when the length is not one of AES. */
    method SetKey(key: array<bv8>, keylen: int) returns (status: bv8)
      requires Valid() && key != keySched && KeyBytes(keylen) <= key.Length
      modifies this`round, keySched
      ensures Valid()
      ensures KeyBytes(keylen) == 0 ==> status == AES_FAILURE && round == 0 && keySched[..] == old(keySched[..])
      ensures KeyBytes(keylen) != 0 ==> status == AES_SUCCESS && round == Rounds(KeyBytes(keylen))
      ensures KeyBytes(keylen) != 0 ==> IsSchedule(keySched[..], key[..KeyBytes(keylen)])
    {
      var n := KeyBytes(keylen);
      if n == 0 {
        round := 0;
        return AES_FAILURE;
      }
      round := n / 4 + 6;
      ghost var k := key[..n];
      CopyBytes(keySched, 0, key, 0, n);
      ghost var words := ExpandedKey(k, 4 * (Rounds(n) + 1));
      ExpandedKeyIsExpansion(k, |words|);
      InitialWords(k, words);
      WordsOfPrefix(keySched[..], k, words, n / 4);
      ExpandKey(n, k, words);
      return AES_SUCCESS;
    }

    /** The loop of set_key; w is the index of the word to come. */
    method ExpandKey(n: nat, ghost k: seq<bv8>, ghost words: seq<Word>)
      requires Valid() && KeyLength(n) && |k| == n && round == Rounds(n)
      requires |words| == 4 * (Rounds(n) + 1) && IsExpansion(words, k) && HasWords(keySched[..], words, n / 4)
      modifies keySched
      ensures HasWords(keySched[..], words, |words|)
    {
      var next, cc, rc: bv8 := n, n, 1;
      var hi := 16 * (round + 1);
      ghost var w, q, phase := n / 4, 1, 0;
      FirstCounters(n);
      assert hi == 4 * |words|;
      while cc < hi
        invariant cc == 4 * w && n <= cc <= hi
        invariant Counters(n, cc, next, rc, q, phase)
        invariant HasWords(keySched[..], words, w)
      {
        next, rc, q, phase := ExpandStep(n, cc, next, rc, k, words, w, q, phase);
        cc, w := cc + N_COL, w + 1;
      }
    }

    /** The loop body of set_key. */
    method ExpandWord(n: nat, cc: nat, next: nat, rc: bv8, ghost phase: nat) returns (next': nat, rc': bv8)
      requires Valid() && KeyLength(n) && n <= cc && cc + 4 <= KEY_SCHEDULE_BYTES && 4 * phase < n
      requires (cc == next <==> phase == 0) && (n == 32 ==> (cc % 32 == 16 <==> phase == 4))
      modifies keySched
      ensures keySched[..] == Splice(old(keySched[..]), cc,
        XorWord(old(keySched[cc - n..cc - n + 4]), TempAt(n, phase, rc, old(keySched[cc - 4..cc - 4 + 4]))))
      ensures next' == if phase == 0 then (next + n) % 256 else next
      ensures rc' == if phase == 0 then XTime(rc) else rc
    {
      var t;
      t, next', rc' := Transform(keySched[cc - 4..cc - 4 + 4], n, cc, next, rc, phase);
      var tt := cc - n;
      PutFour(keySched, cc, XorWord(keySched[tt..tt + 4], t));
    }

    /** The loop body of set_key, together with the counters' invariant. */
    method ExpandStep(n: nat, cc: nat, next: nat, rc: bv8,
                      ghost k: seq<bv8>, ghost words: seq<Word>, ghost w: nat, ghost q: nat, ghost phase: nat)
      returns (next': nat, rc': bv8, ghost q': nat, ghost phase': nat)
      requires Valid() && KeyLength(n) && |k| == n && |words| == 4 * (Rounds(n) + 1) && IsExpansion(words, k)
      requires n <= cc == 4 * w && w < |words| && HasWords(keySched[..], words, w)
      requires Counters(n, cc, next, rc, q, phase)
      modifies keySched
      ensures HasWords(keySched[..], words, w + 1)
      ensures Counters(n, cc + 4, next', rc', q', phase')
    {
      NextTest(n, cc, next, rc, q, phase);
      CountersStep(n, cc, next, rc, q, phase);
      ghost var before := keySched[..];
      NextSum(before, words, k, w, cc, rc, q, phase);
      AddWord(before, words, w, cc);
      assert before[cc - n..cc - n + 4] == keySched[cc - n..cc - n + 4];
      assert before[cc - 4..cc - 4 + 4] == keySched[cc - 4..cc - 4 + 4];
      next', rc' := ExpandWord(n, cc, next, rc, phase);
      assert keySched[..] == Splice(before, cc, words[w]);
      q', phase' := if 4 * (phase + 1) == n then q + 1 else q, if 4 * (phase + 1) == n then 0 else phase + 1;
    }

    /** copy_and_key with key k of the schedule. */
    method CopyAndKey(d: array<bv8>, dOff: nat, s: array<bv8>, sOff: nat, k: nat)
      requires Valid() && k <= 14
      requires dOff + N_BLOCK <= d.Length && sOff + N_BLOCK <= s.Length
      requires d != keySched && (d == s ==> dOff == sOff)
      modifies d
      ensures d[..] ==
        Splice(old(d[..]), dOff, XorBlock(old(s[sOff..sOff + N_BLOCK]), RoundKey(keySched[..], k)))
    {
      ZipInto(Xor, d, dOff, s, sOff, keySched, k * N_BLOCK);
      assert keySched[k * N_BLOCK..k * N_BLOCK + N_BLOCK] == RoundKey(keySched[..], k);
    }

    /** copy_and_key from and to a local block. */
    method KeyBlock(d: array<bv8>, s: array<bv8>, k: nat)
      requires Valid() && k <= 14
      requires d.Length == N_BLOCK && s.Length == N_BLOCK && d != keySched
      modifies d
      ensures d[..] == XorBlock(old(s[..]), RoundKey(keySched[..], k))
    {
      assert s[0..N_BLOCK] == s[..];
      CopyAndKey(d, 0, s, 0, k);
    }

    /** The loop body of encrypt. */
    method EncryptRound(s1: array<bv8>, r: nat)
      requires Valid() && 1 <= r <= 14 && s1.Length == N_BLOCK && s1 != keySched
      modifies s1
      ensures s1[..] == MiddleRound(old(s1[..]), RoundKey(keySched[..], r))
    {
      var s2 := new bv8[N_BLOCK];
      MixSubColumns(s2, s1);
      KeyBlock(s1, s2, r);
    }

    /** The loop of encrypt. */
    method MiddleRounds(s1: array<bv8>, ghost states: seq<Block>)
      requires Valid() && round != 0 && s1.Length == N_BLOCK && s1 != keySched
      requires IsTrace(states, keySched[..], round) && s1[..] == states[0]
      modifies s1
      ensures s1[..] == states[round - 1]
    {
      var r := 1;
      while r < round
        invariant 1 <= r <= round
        invariant s1[..] == states[r - 1]
      {
        EncryptRound(s1, r);
        r := r + 1;
      }
    }

    /** The loop body of decrypt. */
    method DecryptRound(s1: array<bv8>, r: nat)
      requires Valid() && 1 <= r <= 14 && s1.Length == N_BLOCK && s1 != keySched
      modifies s1
      ensures s1[..] == InvMiddleRound(old(s1[..]), RoundKey(keySched[..], r))
    {
      var s2 := new bv8[N_BLOCK];
      KeyBlock(s2, s1, r);
      InvMixSubColumns(s1, s2);
    }

    /** encrypt: the FIPS 197 cipher under the installed round keys; plain and cipher may be the same block. */
    method Encrypt(plain: array<bv8>, pOff: nat, cipher: array<bv8>, cOff: nat) returns (status: bv8)
      requires Valid()
      requires pOff + N_BLOCK <= plain.Length && cOff + N_BLOCK <= cipher.Length
      requires cipher != keySched && plain != keySched
      modifies cipher
      ensures status == if round == 0 then AES_FAILURE else AES_SUCCESS
      ensures round == 0 ==> cipher[..] == old(cipher[..])
      ensures round != 0 ==> cipher[..] == Splice(old(cipher[..]), cOff,
        Cipher(keySched[..], round, old(plain[pOff..pOff + N_BLOCK])))
    {
      if round != 0 {
        var s1 := new bv8[N_BLOCK];
        ghost var p := plain[pOff..pOff + N_BLOCK];
        CopyAndKey(s1, 0, plain, pOff, 0);
        assert s1[..] == XorBlock(p, RoundKey(keySched[..], 0));
        MiddleRounds(s1, Trace(keySched[..], round, p));
        ShiftMapRows(s1, SBox);
        assert s1[0..N_BLOCK] == s1[..];
        CopyAndKey(cipher, cOff, s1, 0, round);
      } else {
        return AES_FAILURE;
      }
      return AES_SUCCESS;
    }

    /** decrypt: the FIPS 197 inverse cipher. */
    method Decrypt(plain: array<bv8>, pOff: nat, cipher: array<bv8>, cOff: nat) returns (status: bv8)
      requires Valid()
      requires pOff + N_BLOCK <= plain.Length && cOff + N_BLOCK <= cipher.Length
      requires cipher != keySched && plain != keySched
      modifies cipher
      ensures status == if round == 0 then AES_FAILURE else AES_SUCCESS
      ensures round == 0 ==> cipher[..] == old(cipher[..])
      ensures round != 0 ==> cipher[..] == Splice(old(cipher[..]), cOff,
        InvCipher(keySched[..], round, old(plain[pOff..pOff + N_BLOCK])))
    {
      if round != 0 {
        ghost var p := plain[pOff..pOff + N_BLOCK];
        var s1 := new bv8[N_BLOCK];
        CopyAndKey(s1, 0, plain, pOff, round);
        assert s1[..] == XorBlock(p, RoundKey(keySched[..], round));
        InvShiftMapRows(s1, IsBox);
        var r := round - 1;
        while r != 0
          invariant 0 <= r < round
          invariant UndoRounds(keySched[..], r, s1[..]) == InvCipher(keySched[..], round, p)
          invariant cipher[..] == old(cipher[..])
        {
          DecryptRound(s1, r);
          r := r - 1;
        }
        assert s1[0..N_BLOCK] == s1[..];
        CopyAndKey(cipher, cOff, s1, 0, 0);
      } else {
        return AES_FAILURE;
      }
      return AES_SUCCESS;
    }

    /** encrypt from a block to itself, for a cipher known only as e. */
    method EncryptInPlace(b: array<bv8>, ghost e: Block -> Block) returns (status: bv8)
      requires Valid() && b.Length == N_BLOCK && b != keySched
      requires round != 0 ==> Enciphers(e, keySched[..], round)
      modifies b
      ensures status == if round == 0 then AES_FAILURE else AES_SUCCESS
      ensures b[..] == if round == 0 then old(b[..]) else e(old(b[..]))
    {
      assert At(b[..]);
      assert b[0..N_BLOCK] == b[..];
      status := Encrypt(b, 0, b, 0);
    }

    /** decrypt at an offset, for an inverse cipher known only as d. */
    method DecryptAt(cipher: array<bv8>, plain: array<bv8>, off: nat, ghost d: Block -> Block) returns (status: bv8)
      requires Valid() && off + N_BLOCK <= plain.Length && off + N_BLOCK <= cipher.Length
      requires plain != keySched && cipher != keySched
      requires round != 0 ==> Deciphers(d, keySched[..], round)
      modifies plain
      ensures status == if round == 0 then AES_FAILURE else AES_SUCCESS
      ensures round == 0 ==> plain[..] == old(plain[..])
      ensures round != 0 ==> plain[..] == Splice(old(plain[..]), off, d(old(cipher[off..off + N_BLOCK])))
    {
      assert At(cipher[off..off + N_BLOCK]);
      status := Decrypt(cipher, off, plain, off);
    }

    /** The loop body of cbc_encrypt, for the block at off. */
    method CbcEncryptBlock(plain: array<bv8>, cipher: array<bv8>, off: nat, iv: array<bv8>, ghost e: Block -> Block)
      returns (status: bv8)
      requires Valid() && off + N_BLOCK <= plain.Length && off + N_BLOCK <= cipher.Length && iv.Length == N_BLOCK
      requires plain != keySched && cipher != keySched && iv != keySched && iv != plain && iv != cipher
      requires round != 0 ==> Enciphers(e, keySched[..], round)
      modifies cipher, iv
      ensures status == if round == 0 then AES_FAILURE else AES_SUCCESS
      ensures round == 0 ==> cipher[..] == old(cipher[..])
      ensures round == 0 ==> iv[..] == XorBlock(old(iv[..]), old(plain[off..off + N_BLOCK]))
      ensures round != 0 ==> iv[..] == e(XorBlock(old(iv[..]), old(plain[off..off + N_BLOCK])))
      ensures round != 0 ==> cipher[..] == Splice(old(cipher[..]), off, iv[..])
    {
      assert iv[0..N_BLOCK] == iv[..];
      XorInto(iv, 0, plain, off);
      status := EncryptInPlace(iv, e);
      if status != AES_SUCCESS {
        return AES_FAILURE;
      }
      assert iv[0..N_BLOCK] == iv[..];
      CopyBytes(cipher, off, iv, 0, N_BLOCK);
    }

    /** The loop body of cbc_decrypt, for the block at off. */
    method CbcDecryptBlock(cipher: array<bv8>, plain: array<bv8>, off: nat, iv: array<bv8>, ghost d: Block -> Block)
      returns (status: bv8)
      requires Valid() && off + N_BLOCK <= plain.Length && off + N_BLOCK <= cipher.Length && iv.Length == N_BLOCK
      requires plain != keySched && cipher != keySched && iv != keySched && iv != plain && iv != cipher
      requires round != 0 ==> Deciphers(d, keySched[..], round)
      modifies plain, iv
      ensures status == if round == 0 then AES_FAILURE else AES_SUCCESS
      ensures round == 0 ==> plain[..] == old(plain[..]) && iv[..] == old(iv[..])
      ensures round != 0 ==> iv[..] == old(cipher[off..off + N_BLOCK])
      ensures round != 0 ==> plain[..] == Splice(old(plain[..]), off,
        XorBlock(d(old(cipher[off..off + N_BLOCK])), old(iv[..])))
    {
      ghost var o, x, v := plain[..], cipher[off..off + N_BLOCK], iv[..];
      var tmp := new bv8[N_BLOCK];
      SpliceAll(tmp[..], x);
      CopyBytes(tmp, 0, cipher, off, N_BLOCK);
      assert tmp[0..N_BLOCK] == tmp[..] == x;
      status := DecryptAt(cipher, plain, off, d);
      if status != AES_SUCCESS {
        return AES_FAILURE;
      }
      assert iv[0..N_BLOCK] == iv[..] == v;
      SpliceTwice(o, off, d(x), XorBlock(d(x), v));
      XorInto(plain, off, iv, 0);
      SpliceAll(v, x);
      CopyBytes(iv, 0, tmp, 0, N_BLOCK);
    }

    /** cbc_encrypt, from plain to cipher or in place; without a key it fails at the first block. */
    method CbcEncrypt(plain: array<bv8>, cipher: array<bv8>, nBlock: nat, iv: array<bv8>) returns (status: bv8)
      requires Valid() && N_BLOCK * nBlock <= plain.Length && N_BLOCK * nBlock <= cipher.Length && iv.Length == N_BLOCK
      requires plain != keySched && cipher != keySched && iv != keySched && iv != plain && iv != cipher
      modifies cipher, iv
      ensures status == if round == 0 && nBlock > 0 then AES_FAILURE else AES_SUCCESS
      ensures round == 0 ==> cipher[..] == old(cipher[..])
      ensures round == 0 && nBlock > 0 ==> iv[..] == XorBlock(old(iv[..]), old(plain[..N_BLOCK]))
      ensures round != 0 ==> cipher[N_BLOCK * nBlock..] == old(cipher[N_BLOCK * nBlock..])
      ensures round != 0 ==>
        var e := Enciphering(keySched[..], round);
        var c := Cbc.Encrypt<Block>(e, XorBlock, old(iv[..]), Blocks(old(plain[..]), nBlock));
        Blocks(cipher[..], nBlock) == c && iv[..] == Cbc.Chained<Block>(old(iv[..]), c)
    {
      ghost var e := if round == 0 then (b: Block) => b else Enciphering(keySched[..], round);
      status := CbcEncryptLoop(plain, cipher, nBlock, iv, e);
    }

    /** The loop body of cbc_encrypt, for block i of p: v is the first vector, before the old contents of cipher. */
    method CbcEncryptTurn(plain: array<bv8>, cipher: array<bv8>, off: nat, iv: array<bv8>, ghost e: Block -> Block,
                          ghost v: Block, ghost p: seq<Block>, ghost before: seq<bv8>, ghost i: nat)
      returns (status: bv8)
      requires Valid() && off + N_BLOCK <= plain.Length && off + N_BLOCK <= cipher.Length && iv.Length == N_BLOCK
      requires plain != keySched && cipher != keySched && iv != keySched && iv != plain && iv != cipher
      requires round != 0 ==> Enciphers(e, keySched[..], round)
      requires i < |p| && off == N_BLOCK * i && plain[off..off + N_BLOCK] == p[i]
      requires N_BLOCK * |p| <= |before| == cipher.Length
      requires iv[..] == Cbc.Chained<Block>(v, Cbc.Encrypt<Block>(e, XorBlock, v, p)[..i])
      requires Overwritten(cipher[..], before, Cbc.Encrypt<Block>(e, XorBlock, v, p), i)
      modifies cipher, iv
      ensures status == if round == 0 then AES_FAILURE else AES_SUCCESS
      ensures round == 0 ==> cipher[..] == old(cipher[..]) && iv[..] == XorBlock(old(iv[..]), p[i])
      ensures round != 0 ==> iv[..] == Cbc.Chained<Block>(v, Cbc.Encrypt<Block>(e, XorBlock, v, p)[..i + 1])
      ensures round != 0 ==> Overwritten(cipher[..], before, Cbc.Encrypt<Block>(e, XorBlock, v, p), i + 1)
    {
      Cbc.EncryptedBlock<Block>(e, XorBlock, v, p, i);
      OverwriteBlock(cipher[..], before, Cbc.Encrypt<Block>(e, XorBlock, v, p), i, off);
      status := CbcEncryptBlock(plain, cipher, off, iv, e);
    }

    /** The loop of cbc_encrypt, for a cipher known only as e. */
    method CbcEncryptLoop(plain: array<bv8>, cipher: array<bv8>, nBlock: nat, iv: array<bv8>, ghost e: Block -> Block)
      returns (status: bv8)
      requires Valid() && N_BLOCK * nBlock <= plain.Length && N_BLOCK * nBlock <= cipher.Length && iv.Length == N_BLOCK
      requires plain != keySched && cipher != keySched && iv != keySched && iv != plain && iv != cipher
      requires round != 0 ==> Enciphers(e, keySched[..], round)
      modifies cipher, iv
      ensures status == if round == 0 && nBlock > 0 then AES_FAILURE else AES_SUCCESS
      ensures round == 0 ==> cipher[..] == old(cipher[..])
      ensures round == 0 && nBlock > 0 ==> iv[..] == XorBlock(old(iv[..]), old(plain[..N_BLOCK]))
      ensures round != 0 ==> cipher[N_BLOCK * nBlock..] == old(cipher[N_BLOCK * nBlock..])
      ensures round != 0 ==>
        var c := Cbc.Encrypt<Block>(e, XorBlock, old(iv[..]), Blocks(old(plain[..]), nBlock));
        Blocks(cipher[..], nBlock) == c && iv[..] == Cbc.Chained<Block>(old(iv[..]), c)
    {
      ghost var p: seq<Block> := Blocks(plain[..], nBlock);
      ghost var c := Cbc.Encrypt<Block>(e, XorBlock, iv[..], p);
      ghost var i := 0;
      var left, off := nBlock, 0;
      while left > 0
        invariant i + left == nBlock && off == N_BLOCK * i
        invariant i > 0 ==> round != 0
        invariant iv[..] == Cbc.Chained<Block>(old(iv[..]), c[..i])
        invariant Overwritten(cipher[..], old(cipher[..]), c, i)
        invariant plain == cipher || plain[..] == old(plain[..])
      {
        if plain == cipher {
          NotYet(cipher[..], old(cipher[..]), c, i, off);
        }
        assert plain[off..off + N_BLOCK] == p[i];
        status := CbcEncryptTurn(plain, cipher, off, iv, e, old(iv[..]), p, old(cipher[..]), i);
        if status != AES_SUCCESS {
          return AES_FAILURE;
        }
        off, left, i := off + N_BLOCK, left - 1, i + 1;
      }
      assert c[..i] == c;
      AllOverwritten(cipher[..], old(cipher[..]), c);
      return AES_SUCCESS;
    }

    /** cbc_decrypt, from cipher to plain or in place. */
    method CbcDecrypt(cipher: array<bv8>, plain: array<bv8>, nBlock: nat, iv: array<bv8>) returns (status: bv8)
      requires Valid() && N_BLOCK * nBlock <= plain.Length && N_BLOCK * nBlock <= cipher.Length && iv.Length == N_BLOCK
      requires plain != keySched && cipher != keySched && iv != keySched && iv != plain && iv != cipher
      modifies plain, iv
      ensures status == if round == 0 && nBlock > 0 then AES_FAILURE else AES_SUCCESS
      ensures round == 0 ==> plain[..] == old(plain[..]) && iv[..] == old(iv[..])
      ensures round != 0 ==> plain[N_BLOCK * nBlock..] == old(plain[N_BLOCK * nBlock..])
      ensures round != 0 ==>
        var c := Blocks(old(cipher[..]), nBlock);
        && Blocks(plain[..], nBlock)
           == Cbc.Decrypt<Block>(Deciphering(keySched[..], round), XorBlock, old(iv[..]), c)
        && iv[..] == Cbc.Chained<Block>(old(iv[..]), c)
    {
      ghost var d := if round == 0 then (b: Block) => b else Deciphering(keySched[..], round);
      status := CbcDecryptLoop(cipher, plain, nBlock, iv, d);
    }

    /** The loop body of cbc_decrypt, for block i of c. */
    method CbcDecryptTurn(cipher: array<bv8>, plain: array<bv8>, off: nat, iv: array<bv8>, ghost d: Block -> Block,
                          ghost v: Block, ghost c: seq<Block>, ghost before: seq<bv8>, ghost i: nat)
      returns (status: bv8)
      requires Valid() && off + N_BLOCK <= plain.Length && off + N_BLOCK <= cipher.Length && iv.Length == N_BLOCK
      requires plain != keySched && cipher != keySched && iv != keySched && iv != plain && iv != cipher
      requires round != 0 ==> Deciphers(d, keySched[..], round)
      requires i < |c| && off == N_BLOCK * i && cipher[off..off + N_BLOCK] == c[i]
      requires N_BLOCK * |c| <= |before| == plain.Length
      requires iv[..] == Cbc.Chained<Block>(v, c[..i])
      requires Overwritten(plain[..], before, Cbc.Decrypt<Block>(d, XorBlock, v, c), i)
      modifies plain, iv
      ensures status == if round == 0 then AES_FAILURE else AES_SUCCESS
      ensures round == 0 ==> plain[..] == old(plain[..]) && iv[..] == old(iv[..])
      ensures round != 0 ==> iv[..] == Cbc.Chained<Block>(v, c[..i + 1])
      ensures round != 0 ==> Overwritten(plain[..], before, Cbc.Decrypt<Block>(d, XorBlock, v, c), i + 1)
    {
      Cbc.DecryptedBlock<Block>(d, XorBlock, v, c, i);
      OverwriteBlock(plain[..], before, Cbc.Decrypt<Block>(d, XorBlock, v, c), i, off);
      status := CbcDecryptBlock(cipher, plain, off, iv, d);
    }

    /** The loop of cbc_decrypt, for an inverse cipher known only as d. */
    method CbcDecryptLoop(cipher: array<bv8>, plain: array<bv8>, nBlock: nat, iv: array<bv8>, ghost d: Block -> Block)
      returns (status: bv8)
      requires Valid() && N_BLOCK * nBlock <= plain.Length && N_BLOCK * nBlock <= cipher.Length && iv.Length == N_BLOCK
      requires plain != keySched && cipher != keySched && iv != keySched && iv != plain && iv != cipher
      requires round != 0 ==> Deciphers(d, keySched[..], round)
      modifies plain, iv
      ensures status == if round == 0 && nBlock > 0 then AES_FAILURE else AES_SUCCESS
      ensures round == 0 ==> plain[..] == old(plain[..]) && iv[..] == old(iv[..])
      ensures round != 0 ==> plain[N_BLOCK * nBlock..] == old(plain[N_BLOCK * nBlock..])
      ensures round != 0 ==>
        var c := Blocks(old(cipher[..]), nBlock);
        && Blocks(plain[..], nBlock) == Cbc.Decrypt<Block>(d, XorBlock, old(iv[..]), c)
        && iv[..] == Cbc.Chained<Block>(old(iv[..]), c)
    {
      ghost var c: seq<Block> := Blocks(cipher[..], nBlock);
      ghost var p := Cbc.Decrypt<Block>(d, XorBlock, iv[..], c);
      ghost var i := 0;
      var left, off := nBlock, 0;
      while left > 0
        invariant i + left == nBlock && off == N_BLOCK * i
        invariant i > 0 ==> round != 0
        invariant iv[..] == Cbc.Chained<Block>(old(iv[..]), c[..i])
        invariant Overwritten(plain[..], old(plain[..]), p, i)
        invariant plain == cipher || cipher[..] == old(cipher[..])
      {
        if plain == cipher {
          NotYet(plain[..], old(plain[..]), p, i, off);
        }
        assert cipher[off..off + N_BLOCK] == c[i];
        status := CbcDecryptTurn(cipher, plain, off, iv, d, old(iv[..]), c, old(plain[..]), i);
        if status != AES_SUCCESS {
          return AES_FAILURE;
        }
        off, left, i := off + N_BLOCK, left - 1, i + 1;
      }
      assert c[..i] == c;
      AllOverwritten(plain[..], old(plain[..]), p);
      return AES_SUCCESS;
    }
  }

  /** xor_block. */
  method XorInto(d: array<bv8>, dOff: nat, s: array<bv8>, sOff: nat)
    requires d != s && dOff + N_BLOCK <= d.Length && sOff + N_BLOCK <= s.Length
    modifies d
    ensures d[..] == Splice(old(d[..]), dOff, XorBlock(old(d[dOff..dOff + N_BLOCK]), s[sOff..sOff + N_BLOCK]))
  {
    ZipInto(Xor, d, dOff, d, dOff, s, sOff);
  }

  // The laws of the class, for any key that set_key accepts

  /** decrypt undoes encrypt, block by block and in chaining mode, whatever the round keys. */
  lemma DecipheringInverts(ks: Schedule, nr: RoundCount, b: Block)
    ensures Deciphering(ks, nr)(Enciphering(ks, nr)(b)) == b
  {
    InvCipherInverts(ks, nr, b);
  }

  lemma XorBlockCancels(x: Block, y: Block)
    ensures XorBlock(XorBlock(x, y), x) == y
  {
    forall i | 0 <= i < 16
      ensures XorBlock(XorBlock(x, y), x)[i] == y[i]
    {
      XorCancels(x[i], y[i]);
    }
  }

  lemma XorCancels(a: bv8, b: bv8)
    ensures Xor(Xor(a, b), a) == b
  {
  }

  /** cbc_decrypt undoes cbc_encrypt, and both leave the same initialisation vector. */
  lemma CbcRoundTrip(ks: Schedule, nr: RoundCount, iv: Block, plain: seq<Block>)
    ensures
      var c := Cbc.Encrypt<Block>(Enciphering(ks, nr), XorBlock, iv, plain);
      Cbc.Decrypt<Block>(Deciphering(ks, nr), XorBlock, iv, c) == plain
  {
    forall b: Block
      ensures Deciphering(ks, nr)(Enciphering(ks, nr)(b)) == b
    {
      DecipheringInverts(ks, nr, b);
    }
    forall x: Block, y: Block
      ensures XorBlock(XorBlock(x, y), x) == y
    {
      XorBlockCancels(x, y);
    }
    Cbc.RoundTrip<Block>(Enciphering(ks, nr), Deciphering(ks, nr), XorBlock, iv, plain);
  }
}
