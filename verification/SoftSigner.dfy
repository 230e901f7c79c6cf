/** MySigningAtsha204Soft.cpp: the signer that emulates the ATSHA204, as a machine that refines SigningSession. */
module SoftSigner {
  import opened Bytes
  import opened Clocks
  import opened MyMessages
  import opened Options
  import opened SigningSession

  /** signerMemcmp. */
  method Compare(a: seq<Byte>, b: seq<Byte>, size: nat) returns (result: int)
    requires size <= |a| && size <= |b|
    ensures result == 0 <==> a[..size] == b[..size]
  {
    var done := 0;
    var i := 0;
    while i < size
      invariant 0 <= i <= size && done >= 0
      invariant done == 0 <==> a[..i] == b[..i]
    {
      assert a[..i + 1] == a[..i] + [a[i]] && b[..i + 1] == b[..i] + [b[i]];
      if a[i] == b[i] {
        done := if done > 0 then 1 else 0;
      } else {
        done := if done > 0 then 2 else 3;
      }
      i := i + 1;
    }
    result := if done > 0 then -1 else 0;
  }

  /** The search of the whitelist. */
  method FindSerial(list: seq<Entry>, node: Byte) returns (serial: Option<Serial>)
    ensures serial == Lookup(list, node)
  {
    var j := 0;
    while j < |list|
      invariant 0 <= j <= |list| && Lookup(list, node) == Lookup(list[j..], node)
    {
      if list[j].node == node {
        return Some(list[j].serial);
      }
      j := j + 1;
    }
    serial := None;
  }

  lemma SignedInto(b: Backend, m: Message, nonce: Block, serial: Option<Serial>, signature: Block, signed: Message)
    requires m.Length() <= MAX_SIGNED && signature == Signature(b, m.WithSigned(true), nonce, serial)
    requires var n := m.WithSigned(true);
      n.Length() == m.Length()
      && signed == n.(data := n.Payload() + signature[..MAX_PAYLOAD - n.Length()] + n.data[MAX_PAYLOAD..])
    ensures signed == SignedMessage(b, m, nonce, serial)
  {
  }

  class SoftSigner {
    const backend: Backend
    const serial: Serial
    /** MY_SIGNING_NODE_WHITELISTING. */
    const whitelist: Option<seq<Entry>>
    const verifyingNonce: array<Byte>
    const signingNonce: array<Byte>
    const tempMessage: array<Byte>
    const hmac: array<Byte>
    var timestamp: Clock
    var ongoing: bool

    constructor (backend: Backend, serial: Serial, whitelist: Option<seq<Entry>>)
      ensures Valid() && State() == Start()
      ensures this.backend == backend && this.serial == serial && this.whitelist == whitelist
      ensures fresh(verifyingNonce) && fresh(signingNonce) && fresh(tempMessage) && fresh(hmac)
    {
      this.backend, this.serial, this.whitelist := backend, serial, whitelist;
      verifyingNonce := new Byte[32](i => 0);
      signingNonce := new Byte[32](i => 0);
      tempMessage := new Byte[32](i => 0);
      hmac := new Byte[32](i => 0);
      timestamp, ongoing := 0, false;
      new;
      assert verifyingNonce[..] == Start().nonce;
    }

    ghost predicate Valid() {
      && verifyingNonce.Length == signingNonce.Length == tempMessage.Length == hmac.Length == 32
      && verifyingNonce != signingNonce && verifyingNonce != tempMessage && verifyingNonce != hmac
      && signingNonce != tempMessage && signingNonce != hmac && tempMessage != hmac
    }

    ghost predicate Apart(msg: MyMessage) {
      && msg.Valid() && msg.data != verifyingNonce && msg.data != signingNonce
      && msg.data != tempMessage && msg.data != hmac
    }

    ghost function State(): Session
      requires Valid()
      reads this, verifyingNonce
    {
      Session(ongoing, timestamp, verifyingNonce[..])
    }

    /** signerAtsha204SoftCheckTimer. */
    method CheckTimer(now: Clock) returns (ok: bool)
      requires Valid()
      modifies this`ongoing, verifyingNonce, signingNonce
      ensures State() == Checked(old(State()), now) && timestamp == old(timestamp)
      ensures ok <==> (old(ongoing) ==> InTime(old(timestamp), now))
      ensures ok ==> ongoing == old(ongoing)
      ensures signingNonce[..] == if ok then old(signingNonce[..]) else PurgedBlock()
    {
      if ongoing {
        if now < timestamp || now > (timestamp + MY_VERIFICATION_TIMEOUT_MS) % CLOCK_RANGE {
          Fill(signingNonce, 0, PURGED);
          Fill(verifyingNonce, 0, PURGED);
          ongoing := false;
          return false;
        }
      }
      return true;
    }

    /** signerAtsha204SoftGetNonce; random is the digest of the random bytes. */
    method GetNonce(now: Clock, random: Block, msg: MyMessage)
      requires Valid() && Apart(msg)
      modifies this`timestamp, this`ongoing, verifyingNonce, msg`versionLength, msg`commandAckPayload, msg.data
      ensures State() == SigningSession.After(old(State()), Issue(now, NonceOf(random[..MAX_PAYLOAD])))
      ensures msg.Value() == CustomSet(old(msg.Value()), random[..MAX_PAYLOAD])
    {
      Copy(verifyingNonce, 0, random[..MAX_PAYLOAD]);
      Fill(verifyingNonce, MAX_PAYLOAD, PURGED);
      assert verifyingNonce[..] == NonceOf(random[..MAX_PAYLOAD]);
      assert verifyingNonce[..MAX_PAYLOAD] == random[..MAX_PAYLOAD];
      msg.SetCustom(verifyingNonce[..MAX_PAYLOAD]);
      ongoing := true;
      timestamp := now;
      if (timestamp + MY_VERIFICATION_TIMEOUT_MS) % CLOCK_RANGE < now {
        timestamp := 0;
      }
    }

    /** signerAtsha204SoftPutNonce, given the data of the message. */
    method PutNonce(data: Data)
      requires Valid()
      modifies signingNonce
      ensures signingNonce[..] == NonceOf(data[..MAX_PAYLOAD])
    {
      Copy(signingNonce, 0, data[..MAX_PAYLOAD]);
      Fill(signingNonce, MAX_PAYLOAD, PURGED);
      assert signingNonce[..] == NonceOf(data[..MAX_PAYLOAD]);
    }

    /** The bytes to be signed go into tempMessage, in front of zeros. */
    method LoadMessage(msg: MyMessage)
      requires Valid() && Apart(msg) && msg.Value().Length() <= MAX_PAYLOAD
      modifies tempMessage
      ensures tempMessage[..] == Padded(Covered(msg.Value()))
    {
      ghost var covered := Covered(msg.Value());
      Fill(tempMessage, 0, 0);
      var header := [msg.sender, msg.destination, msg.versionLength, msg.commandAckPayload, msg.mtype, msg.sensor];
      Copy(tempMessage, 0, header + msg.data[..msg.Length()]);
      assert header + msg.data[..msg.Length()] == covered;
    }

    /** signerCalculateSignature, which uses up the nonce. */
    method CalculateSignature(msg: MyMessage, nonce: array<Byte>)
      requires Valid() && Apart(msg) && msg.Value().Length() <= MAX_PAYLOAD
      requires nonce == signingNonce || nonce == verifyingNonce
      modifies tempMessage, hmac, nonce
      ensures hmac[..] == Digest(backend, msg.Value(), old(nonce[..])) && nonce[..] == PurgedBlock()
    {
      LoadMessage(msg);
      var digest := backend.mac(tempMessage[..], nonce[..]);
      Fill(nonce, 0, PURGED);
      Copy(hmac, 0, digest);
      assert nonce[..] == PurgedBlock() && hmac[..] == digest;
    }

    /** The digest in hmac is salted if there is a serial, and gets the identifier in front. */
    method Finish(sender: Byte, serial: Option<Serial>)
      requires Valid()
      modifies hmac
      ensures hmac[..] == Identified(Salted(backend, old(hmac[..]), sender, serial))
    {
      if serial.Some? {
        var digest := backend.salted(hmac[..], sender, serial.value);
        Copy(hmac, 0, digest);
        assert hmac[..] == digest;
      }
      hmac[0] := SIGNING_IDENTIFIER;
    }

    /** signerAtsha204SoftSignMsg; salted says whether the destination is marked as one that requires whitelisting. */
    method SignMsg(msg: MyMessage, salted: bool) returns (ok: bool)
      requires Valid() && Apart(msg)
      modifies msg`versionLength, msg.data, signingNonce, tempMessage, hmac
      ensures ok <==> old(msg.Value()).Length() <= MAX_SIGNED
      ensures if ok then
          && msg.Value() == SignedMessage(backend, old(msg.Value()), old(signingNonce[..]),
                                          if salted then Some(serial) else None)
          && signingNonce[..] == PurgedBlock()
        else msg.Value() == old(msg.Value()) && signingNonce[..] == old(signingNonce[..])
    {
      if msg.Length() > MAX_PAYLOAD - 2 {
        return false;
      }
      ghost var m := msg.Value();
      VersionLengthFields(m.Version(), true, m.Length());
      msg.SetSigned(true);
      CalculateSignature(msg, signingNonce);
      Finish(msg.sender, if salted then Some(serial) else None);
      ghost var salt := if salted then Some(serial) else None;
      assert hmac[..] == Signature(backend, m.WithSigned(true), old(signingNonce[..]), salt);
      PutSignature(msg);
      SignedInto(backend, m, old(signingNonce[..]), salt, hmac[..], msg.Value());
      return true;
    }

    /** As much of the signature in hmac as there is room for, behind the payload. */
    method PutSignature(msg: MyMessage)
      requires Valid() && Apart(msg) && msg.Value().Length() <= MAX_PAYLOAD
      modifies msg.data
      ensures var m := old(msg.Value());
        msg.Value() == m.(data := m.Payload() + hmac[..][..MAX_PAYLOAD - m.Length()] + m.data[MAX_PAYLOAD..])
    {
      var n := msg.Length();
      ghost var d := msg.data[..];
      var part := hmac[..MAX_PAYLOAD - n];
      assert part == hmac[..][..MAX_PAYLOAD - n];
      assert msg.data[..n] == d[..n] && msg.data[MAX_PAYLOAD..] == d[MAX_PAYLOAD..];
      Copy(msg.data, n, part);
    }

    /** signerAtsha204SoftVerifyMsg. */
    method VerifyMsg(msg: MyMessage, now: Clock) returns (ok: bool)
      requires Valid() && Apart(msg) && msg.Value().Length() <= MAX_PAYLOAD
      modifies this`ongoing, verifyingNonce, signingNonce, tempMessage, hmac
      ensures State() == SigningSession.After(old(State()), Verify(now, msg.Value()))
      ensures ok <==> Accepts(backend, whitelist, old(State()), Verify(now, msg.Value()))
    {
      if !ongoing {
        return false;
      }
      var timely := CheckTimer(now);
      if !timely {
        return false;
      }
      ongoing := false;
      if msg.data[msg.Length()] != SIGNING_IDENTIFIER {
        return false;
      }
      ok := CheckSignature(msg);
    }

    /** The part of signerAtsha204SoftVerifyMsg that computes the signature and compares. */
    method CheckSignature(msg: MyMessage) returns (ok: bool)
      requires Valid() && Apart(msg) && msg.Value().Length() <= MAX_PAYLOAD
      requires msg.Value().data[msg.Value().Length()] == SIGNING_IDENTIFIER
      modifies verifyingNonce, tempMessage, hmac
      ensures verifyingNonce[..] == PurgedBlock()
      ensures ok <==> Genuine(backend, msg.Value(), old(verifyingNonce[..]), whitelist)
    {
      ghost var m := msg.Value();
      CalculateSignature(msg, verifyingNonce);
      var serial := None;
      if whitelist.Some? {
        serial := FindSerial(whitelist.value, msg.sender);
        if serial.None? {
          return false;
        }
      }
      Finish(msg.sender, serial);
      ghost var signature := Signature(backend, m, old(verifyingNonce[..]), SerialFor(whitelist, m.sender));
      assert hmac[..] == signature;
      var room := MAX_PAYLOAD - msg.Length();
      var result := Compare(msg.data[msg.Length()..], hmac[..], room);
      assert msg.data[msg.Length()..][..room] == m.data[m.Length()..MAX_PAYLOAD];
      ok := result == 0;
    }
  }
}
