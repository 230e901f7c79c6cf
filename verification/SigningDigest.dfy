/**
 The keyed hash of MySigningAtsha204Soft.cpp, computed with the SHA-256 class: what an ATSHA204 computes with its
 Nonce and HMAC commands.
 */
module SigningDigest {
  import opened Octets
  import Fips180
  import opened Sha256

  type Block = s: seq<Byte> | |s| == 32 witness seq(32, i => 0)

  /** What the chip puts between message and nonce: opcode, parameters, the fixed bytes of its serial, and zeros. */
  function NonceFields(): (s: seq<Byte>)
    ensures |s| == 32
  {
    [0x15, 0x02, 0x08, 0x00, 0xEE, 0x01, 0x23] + Fips180.Zeros(25)
  }

  /** What the chip puts behind the digest: opcode, mode, slot, and the fixed bytes of its serial among zeros. */
  function MacFields(): (s: seq<Byte>)
    ensures |s| == 24
  {
    [0x11, 0x04, 0x00, 0x00] + Fips180.Zeros(11) + [0xEE] + Fips180.Zeros(4) + [0x01, 0x23] + Fips180.Zeros(2)
  }

  /** The digest of a message and a nonce. */
  function MessageDigest(message: Block, nonce: Block): Block {
    Fips180.Sha256(message + NonceFields() + nonce)
  }

  function MacText(digest: Block): (s: seq<Byte>)
    ensures |s| == 88
  {
    Fips180.Zeros(32) + digest + MacFields()
  }

  /** The bytes that the chip hashes for its Nonce and HMAC commands, place by place. */
  lemma TextsByPlace(message: Block, digest: Block, nonce: Block, i: nat)
    requires i < 96
    ensures
      var text := message + NonceFields() + nonce;
      text[i] ==
        if i < 32 then message[i] else if i >= 64 then nonce[i - 64]
        else if i == 32 then 0x15 else if i == 33 then 0x02 else if i == 34 then 0x08 else if i == 36 then 0xEE
        else if i == 37 then 0x01 else if i == 38 then 0x23 else 0
    ensures i < 88 ==>
      MacText(digest)[i] ==
        if 32 <= i < 64 then digest[i - 32]
        else if i == 64 then 0x11 else if i == 65 then 0x04 else if i == 79 then 0xEE
        else if i == 84 then 0x01 else if i == 85 then 0x23 else 0
  {
  }

  function Mac(key: seq<Byte>, message: Block, nonce: Block): (mac: seq<Byte>)
    ensures |mac| == 32
  {
    Fips180.Hmac(key, MacText(MessageDigest(message, nonce)))
  }

  /** The first half of signerCalculateSignature. */
  method HashMessage(sha: Sha256Class, message: Block, nonce: Block) returns (digest: Block)
    requires sha.Separate() && Fips180.IsHashValue(sha.hash)
    modifies sha, sha.buffer, sha.state
    ensures digest == MessageDigest(message, nonce)
  {
    sha.Init();
    var text := message + NonceFields() + nonce;
    sha.WriteAll(text);
    assert sha.Fed() == text;
    digest := sha.Digest();
  }

  /** The second half of signerCalculateSignature. */
  method HashDigest(sha: Sha256Class, key: array<Byte>, digest: Block) returns (mac: seq<Byte>)
    requires sha.Separate() && Fips180.IsHashValue(sha.hash)
    requires key.Length == 32 && key != sha.buffer && key != sha.keyBuffer && key != sha.innerHash
    modifies sha, sha.buffer, sha.state, sha.keyBuffer, sha.innerHash
    ensures mac == Fips180.Hmac(old(key[..]), MacText(digest))
  {
    ghost var k := key[..];
    assert key[..32] == k;
    sha.InitHmac(key, 32);
    sha.WriteAll(MacText(digest));
    mac := sha.ResultHmac(k, MacText(digest));
  }

  /** signerCalculateSignature, from the padded message on. */
  method Calculate(sha: Sha256Class, key: array<Byte>, message: Block, nonce: Block) returns (mac: seq<Byte>)
    requires sha.Separate() && Fips180.IsHashValue(sha.hash)
    requires key.Length == 32 && key != sha.buffer && key != sha.keyBuffer && key != sha.innerHash
    modifies sha, sha.buffer, sha.state, sha.keyBuffer, sha.innerHash
    ensures mac == Mac(old(key[..]), message, nonce)
  {
    ghost var k := key[..];
    var digest := HashMessage(sha, message, nonce);
    assert key[..] == k;
    mac := HashDigest(sha, key, digest);
  }

  function Salted(hmac: Block, sender: Byte, serial: seq<Byte>): (s: seq<Byte>)
    ensures |s| == 32
  {
    Fips180.Sha256(hmac + [sender] + serial)
  }

  /** The salting of a digest with a node and its serial. */
  method Salt(sha: Sha256Class, hmac: Block, sender: Byte, serial: seq<Byte>) returns (salted: Block)
    requires sha.Separate() && Fips180.IsHashValue(sha.hash) && |serial| == 9
    modifies sha, sha.buffer, sha.state
    ensures salted == Salted(hmac, sender, serial)
  {
    sha.Init();
    var text := hmac + [sender] + serial;
    sha.WriteAll(text);
    assert sha.Fed() == text;
    salted := sha.Digest();
  }
}
