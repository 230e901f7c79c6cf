/** The key expansions of Appendix A of FIPS 197, until each rule of section 5.2 has been used. */
module KeyExamples {
  import opened Fips197

  /** Section A.1, a key of 16 bytes: word 4 comes from a word that is rotated and substituted. */
  const SHORT: seq<Word> :=
    [[0x2b, 0x7e, 0x15, 0x16], [0x28, 0xae, 0xd2, 0xa6], [0xab, 0xf7, 0x15, 0x88], [0x09, 0xcf, 0x4f, 0x3c],
     [0xa0, 0xfa, 0xfe, 0x17], [0x88, 0x54, 0x2c, 0xb1], [0x23, 0xa3, 0x39, 0x39], [0x2a, 0x6c, 0x76, 0x05]]

  /** Section A.3, a key of 32 bytes: word 12 comes from a word that is only substituted. */
  const LONG: seq<Word> :=
    [[0x60, 0x3d, 0xeb, 0x10], [0x15, 0xca, 0x71, 0xbe], [0x2b, 0x73, 0xae, 0xf0], [0x85, 0x7d, 0x77, 0x81],
     [0x1f, 0x35, 0x2c, 0x07], [0x3b, 0x61, 0x08, 0xd7], [0x2d, 0x98, 0x10, 0xa3], [0x09, 0x14, 0xdf, 0xf4],
     [0x9b, 0xa3, 0x54, 0x11], [0x8e, 0x69, 0x25, 0xaf], [0xa5, 0x1a, 0x8b, 0x5f], [0x20, 0x67, 0xfc, 0xde],
     [0xa8, 0xb0, 0x9c, 0x1a]]

  /** The key is in the first words. */
  ghost predicate IsKeyOf(key: seq<bv8>, words: seq<Word>) {
    KeyLength(|key|) && |key| / 4 <= |words| && forall i :: 0 <= i < |key| / 4 ==> key[4 * i..4 * i + 4] == words[i]
  }

  /** The key expansion has no choice. */
  lemma {:induction false} OneExpansion(a: seq<Word>, b: seq<Word>, key: seq<bv8>)
    requires KeyLength(|key|) && |a| == |b| && IsExpansion(a, key) && IsExpansion(b, key)
    ensures a == b
  {
    if a == [] {
    } else {
      var n := |a| - 1;
      Shorter(a, key);
      Shorter(b, key);
      OneExpansion(a[..n], b[..n], key);
      assert IsWordAt(a, key, n) && IsWordAt(b, key, n);
      assert forall i :: 0 <= i < n ==> a[i] == a[..n][i] && b[i] == b[..n][i];
      assert a == a[..n] + [a[n]] && b == b[..n] + [b[n]];
    }
  }

  lemma Shorter(a: seq<Word>, key: seq<bv8>)
    requires KeyLength(|key|) && a != [] && IsExpansion(a, key)
    ensures IsExpansion(a[..|a| - 1], key)
  {
    var b := a[..|a| - 1];
    forall i | 0 <= i < |b|
      ensures IsWordAt(b, key, i)
    {
      assert IsWordAt(a, key, i);
    }
  }

  /** Word i comes from those before it, for a key of nk words. */
  predicate Comes(words: seq<Word>, nk: nat, i: nat)
    requires 1 <= nk <= i < |words|
  {
    words[i] == XorWord(words[i - nk], Temp(nk, i, words[i - 1]))
  }

  lemma ComesIsWord(words: seq<Word>, key: seq<bv8>, i: nat)
    requires IsKeyOf(key, words) && |key| / 4 <= i < |words| && Comes(words, |key| / 4, i)
    ensures IsWordAt(words, key, i)
  {
  }

  /** Words that come from a key and one another are its expansion. */
  lemma Expands(words: seq<Word>, key: seq<bv8>)
    requires IsKeyOf(key, words) && forall i :: |key| / 4 <= i < |words| ==> IsWordAt(words, key, i)
    ensures ExpandedKey(key, |words|) == words
  {
    forall i | 0 <= i < |words|
      ensures IsWordAt(words, key, i)
    {
    }
    ExpandedKeyIsExpansion(key, |words|);
    OneExpansion(ExpandedKey(key, |words|), words, key);
  }

  lemma ShortExpands(words: seq<Word>, key: seq<bv8>)
    requires |key| == 16 && |words| == 8 && IsKeyOf(key, words)
    requires Comes(words, 4, 4) && Comes(words, 4, 5) && Comes(words, 4, 6) && Comes(words, 4, 7)
    ensures ExpandedKey(key, |words|) == words
  {
    forall i | 4 <= i < |words|
      ensures IsWordAt(words, key, i)
    {
      assert i == 4 || i == 5 || i == 6 || i == 7;
      ComesIsWord(words, key, i);
    }
    Expands(words, key);
  }

  lemma LongExpands(words: seq<Word>, key: seq<bv8>)
    requires |key| == 32 && |words| == 13 && IsKeyOf(key, words)
    requires Comes(words, 8, 8) && Comes(words, 8, 9) && Comes(words, 8, 10) && Comes(words, 8, 11)
    requires Comes(words, 8, 12)
    ensures ExpandedKey(key, |words|) == words
  {
    forall i | 8 <= i < |words|
      ensures IsWordAt(words, key, i)
    {
      assert i == 8 || i == 9 || i == 10 || i == 11 || i == 12;
      ComesIsWord(words, key, i);
    }
    Expands(words, key);
  }

  lemma ShortComes()
    ensures Comes(SHORT, 4, 4) && Comes(SHORT, 4, 5) && Comes(SHORT, 4, 6) && Comes(SHORT, 4, 7)
  {
  }

  lemma LongComes()
    ensures Comes(LONG, 8, 8) && Comes(LONG, 8, 9) && Comes(LONG, 8, 10) && Comes(LONG, 8, 11) && Comes(LONG, 8, 12)
  {
  }

  lemma ShortExample(key: seq<bv8>)
    requires |key| == 16 && IsKeyOf(key, SHORT)
    ensures ExpandedKey(key, |SHORT|) == SHORT
  {
    ShortComes();
    ShortExpands(SHORT, key);
  }

  lemma LongExample(key: seq<bv8>)
    requires |key| == 32 && IsKeyOf(key, LONG)
    ensures ExpandedKey(key, |LONG|) == LONG
  {
    LongComes();
    LongExpands(LONG, key);
  }
}
