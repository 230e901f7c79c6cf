/**
 Cipher block chaining (NIST SP 800-38A, section 6.2) for any block cipher: B is the type of blocks, e and d are
 the cipher and its inverse under one key, and add combines two blocks.
 */
module Cbc {

  function Encrypt<B>(e: B -> B, add: (B, B) -> B, iv: B, plain: seq<B>): (cipher: seq<B>)
    ensures |cipher| == |plain|
  {
    if plain == [] then []
    else
      var c := e(add(iv, plain[0]));
      [c] + Encrypt(e, add, c, plain[1..])
  }

  function Decrypt<B>(d: B -> B, add: (B, B) -> B, iv: B, cipher: seq<B>): (plain: seq<B>)
    ensures |plain| == |cipher|
  {
    if cipher == [] then [] else [add(d(cipher[0]), iv)] + Decrypt(d, add, cipher[0], cipher[1..])
  }

  /** The initialisation vector that both directions leave behind: the last ciphertext block. */
  function Chained<B>(iv: B, cipher: seq<B>): B {
    if cipher == [] then iv else cipher[|cipher| - 1]
  }

  /** Decryption undoes encryption, for every number of blocks and every initialisation vector. */
  lemma {:induction false} RoundTrip<B(!new)>(e: B -> B, d: B -> B, add: (B, B) -> B, iv: B, plain: seq<B>)
    requires forall x :: d(e(x)) == x
    requires forall x, y :: add(add(x, y), x) == y
    ensures Decrypt(d, add, iv, Encrypt(e, add, iv, plain)) == plain
  {
    if plain == [] {
    } else {
      var c := e(add(iv, plain[0]));
      RoundTrip(e, d, add, c, plain[1..]);
      assert Encrypt(e, add, iv, plain)[1..] == Encrypt(e, add, c, plain[1..]);
    }
  }

  /** Two encryptions in a row, the second with the vector left by the first, equal one on the concatenation. */
  lemma {:induction false} EncryptInTwoCalls<B>(e: B -> B, add: (B, B) -> B, iv: B, p: seq<B>, q: seq<B>)
    ensures
      var c := Encrypt(e, add, iv, p);
      var c' := Encrypt(e, add, Chained(iv, c), q);
      Encrypt(e, add, iv, p + q) == c + c' && Chained(iv, c + c') == Chained(Chained(iv, c), c')
  {
    if p == [] {
      assert p + q == q;
    } else {
      var c1 := e(add(iv, p[0]));
      var c := Encrypt(e, add, c1, p[1..]);
      EncryptInTwoCalls(e, add, c1, p[1..], q);
      assert (p + q)[1..] == p[1..] + q;
      ChainedBehind(iv, c1, c, Encrypt(e, add, Chained(c1, c), q));
    }
  }

  /** The first block of a ciphertext with more behind it does not matter to what follows. */
  lemma ChainedBehind<B>(iv: B, c1: B, c: seq<B>, c': seq<B>)
    ensures Chained(iv, [c1] + c) == Chained(c1, c) && [c1] + (c + c') == [c1] + c + c'
    ensures Chained(iv, [c1] + c + c') == Chained(Chained(iv, [c1] + c), c')
  {
  }

  lemma {:induction false} DecryptInTwoCalls<B>(d: B -> B, add: (B, B) -> B, iv: B, c: seq<B>, c': seq<B>)
    ensures Decrypt(d, add, iv, c + c') == Decrypt(d, add, iv, c) + Decrypt(d, add, Chained(iv, c), c')
  {
    if c == [] {
      assert c + c' == c';
    } else {
      DecryptInTwoCalls(d, add, c[0], c[1..], c');
      assert (c + c')[1..] == c[1..] + c';
    }
  }

  /** What one pass of the encryption loop computes. */
  lemma {:induction false} EncryptedBlock<B>(e: B -> B, add: (B, B) -> B, iv: B, plain: seq<B>, i: nat)
    requires i < |plain|
    ensures
      var c := Encrypt(e, add, iv, plain);
      c[i] == e(add(Chained(iv, c[..i]), plain[i]))
  {
    if i == 0 {
    } else {
      var c1 := e(add(iv, plain[0]));
      EncryptedBlock(e, add, c1, plain[1..], i - 1);
      var c, rest := Encrypt(e, add, iv, plain), Encrypt(e, add, c1, plain[1..]);
      assert c[..i] == [c1] + rest[..i - 1];
    }
  }

  /** What one pass of the decryption loop computes. */
  lemma {:induction false} DecryptedBlock<B>(d: B -> B, add: (B, B) -> B, iv: B, cipher: seq<B>, i: nat)
    requires i < |cipher|
    ensures Decrypt(d, add, iv, cipher)[i] == add(d(cipher[i]), Chained(iv, cipher[..i]))
  {
    if i == 0 {
    } else {
      DecryptedBlock(d, add, cipher[0], cipher[1..], i - 1);
      assert cipher[..i] == [cipher[0]] + cipher[1..][..i - 1];
    }
  }
}
