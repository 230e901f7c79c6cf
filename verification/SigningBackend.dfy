/** The hashes of SigningDigest as the backend of SigningSession: signatures that the SHA-256 class computes. */
module SigningBackend {
  import Bytes
  import MyMessages
  import O = Octets
  import opened Options
  import SigningDigest
  import SigningSession
  import opened Sha256
  import Fips180

  function Numbers(s: seq<O.Byte>): (n: seq<Bytes.Byte>)
    ensures |n| == |s|
  {
    seq(|s|, i requires 0 <= i < |s| => s[i] as int)
  }

  /** Bytes written as numbers and back are the same bytes. */
  lemma OctetsOfNumbers(s: seq<O.Byte>)
    ensures O.Octets(Numbers(s)) == s
  {
    forall i | 0 <= i < |s|
      ensures O.Octets(Numbers(s))[i] == s[i]
    {
      SameOctet(s[i]);
    }
  }

  lemma SameOctet(b: O.Byte)
    ensures (b as int) as bv8 == b
  {
  }

  /** The keyed hash and the salting hash of a node with a key. */
  function Hashed(key: seq<O.Byte>): SigningSession.Backend {
    SigningSession.Backend(
      (message, nonce) => Numbers(SigningDigest.Mac(key, O.Octets(message), O.Octets(nonce))),
      (digest, sender, serial) => Numbers(SigningDigest.Salted(O.Octets(digest), O.Octet(sender), O.Octets(serial))))
  }

  /** What signerCalculateSignature leaves in hmac, computed with the SHA-256 class. */
  method Sign(sha: Sha256Class, key: array<O.Byte>, m: MyMessages.Message, nonce: SigningSession.Block,
              serial: Option<SigningSession.Serial>)
    returns (signature: SigningSession.Block)
    requires sha.Separate() && Fips180.IsHashValue(sha.hash) && m.Length() <= MyMessages.MAX_PAYLOAD
    requires key.Length == 32 && key != sha.buffer && key != sha.keyBuffer && key != sha.innerHash
    modifies sha, sha.buffer, sha.state, sha.keyBuffer, sha.innerHash
    ensures signature == SigningSession.Signature(Hashed(old(key[..])), m, nonce, serial)
  {
    var message := SigningSession.Padded(SigningSession.Covered(m));
    ghost var k := key[..];
    ghost var b := Hashed(k);
    var hmac := SigningDigest.Calculate(sha, key, O.Octets(message), O.Octets(nonce));
    assert Numbers(hmac) == SigningSession.Digest(b, m, nonce);
    signature := Finish(sha, hmac, m.sender, serial, k);
  }

  /** The salting, if there is a serial, and the identifier. */
  method Finish(sha: Sha256Class, hmac: SigningDigest.Block, sender: Bytes.Byte, serial: Option<SigningSession.Serial>,
                ghost key: seq<O.Byte>)
    returns (signature: SigningSession.Block)
    requires sha.Separate() && Fips180.IsHashValue(sha.hash)
    modifies sha, sha.buffer, sha.state
    ensures signature == SigningSession.Identified(SigningSession.Salted(Hashed(key), Numbers(hmac), sender, serial))
  {
    if serial.Some? {
      OctetsOfNumbers(hmac);
      var salted := SigningDigest.Salt(sha, hmac, O.Octet(sender), O.Octets(serial.value));
      signature := SigningSession.Identified(Numbers(salted));
    } else {
      signature := SigningSession.Identified(Numbers(hmac));
    }
  }
}
