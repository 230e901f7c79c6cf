/** Bit masks over bytes. */
module TableBits {

  type Bits = bv8

  function Mask(k: nat): Bits
    requires k < 8
  {
    [0x01, 0x02, 0x04, 0x08, 0x10, 0x20, 0x40, 0x80][k]
  }

  function With(b: Bits, mask: Bits): Bits {
    b | mask
  }

  function Without(b: Bits, mask: Bits): Bits {
    b & !mask
  }

  predicate Clear(b: Bits, mask: Bits) {
    !b & mask != 0
  }

  predicate Disjoint(m: Bits, n: Bits) {
    m & n == 0
  }

  lemma SameMask(b: Bits, m: Bits)
    requires m != 0
    ensures Clear(Without(b, m), m) && !Clear(With(b, m), m)
  {
  }

  lemma OtherMask(b: Bits, m: Bits, n: Bits)
    requires Disjoint(m, n)
    ensures Clear(Without(b, m), n) == Clear(b, n) && Clear(With(b, m), n) == Clear(b, n)
  {
  }

  lemma Masks(j: nat, k: nat)
    requires j < 8 && k < 8
    ensures Mask(j) != 0 && (j != k ==> Disjoint(Mask(j), Mask(k)))
  {
  }
}

/** MySigning.cpp: who has to sign for whom, and the exchange of nonces around a message. */
module Signing {
  import opened Bytes
  import opened MessageTypes
  import opened MyMessages
  import opened Options
  import opened SigningSession
  import opened SoftSigner
  import TB = TableBits

  const ST_FIRMWARE_REQUEST := 2
  const ST_FIRMWARE_RESPONSE := 3
  const ST_SOUND := 4
  const ST_IMAGE := 5

  const SIGNING_PRESENTATION_VERSION_1 := 1

  /** skipSign: messages that are never signed. */
  predicate SkipSign(m: Message) {
    || m.Ack()
    || (m.Command() == C_INTERNAL
      && m.mtype in {I_NONCE_REQUEST, I_NONCE_RESPONSE, I_SIGNING_PRESENTATION, I_ID_REQUEST, I_ID_RESPONSE,
                     I_FIND_PARENT, I_FIND_PARENT_RESPONSE, I_HEARTBEAT, I_HEARTBEAT_RESPONSE, I_PING, I_PONG,
                     I_REGISTRATION_REQUEST})
    || (m.Command() == C_STREAM && m.mtype in {ST_FIRMWARE_REQUEST, ST_FIRMWARE_RESPONSE, ST_SOUND, ST_IMAGE})
  }

  /** Presentations, values and requests, which have the commands below C_INTERNAL, are not skipped. */
  predicate IsApplication(m: Message) {
    m.Command() < C_INTERNAL && !m.Ack()
  }

  // The tables: one bit for each node, which is clear for a node with the requirement

  type Table = s: seq<TB.Bits> | |s| == 32 witness seq(32, i => 0)

  /** DO_SIGN and DO_WHITELIST. */
  predicate Marked(t: Table, node: Byte) {
    TB.Clear(t[node / 8], TB.Mask(node % 8))
  }

  /** Only the entry of node changes. */
  ghost predicate Set(before: Table, after: Table, node: Byte, on: bool) {
    forall n: Byte :: Marked(after, n) <==> if n == node then on else Marked(before, n)
  }

  /** SET_SIGN, CLEAR_SIGN and the same for the whitelist. */
  method SetEntry(table: array<TB.Bits>, node: Byte, on: bool)
    requires table.Length == 32
    modifies table
    ensures Set(old(table[..]), table[..], node, on)
  {
    ghost var before := table[..];
    var mask := TB.Mask(node % 8);
    var old' := table[node / 8];
    TB.Masks(node % 8, 0);
    if on {
      table[node / 8] := TB.Without(old', mask);
    } else {
      table[node / 8] := TB.With(old', mask);
    }
    forall n: Byte
      ensures Marked(table[..], n) <==> if n == node then on else Marked(before, n)
    {
      TB.SameMask(old', mask);
      if n / 8 == node / 8 && n != node {
        TB.Masks(node % 8, n % 8);
        TB.OtherMask(old', mask, TB.Mask(n % 8));
      }
    }
  }

  // Waiting for the nonce

  /** One call of _process while a message waits to be signed: what came in, and how long it has been waiting then. */
  datatype Turn = Turn(event: Event, elapsed: nat)
  datatype Event = Nothing | NonceResponse(sender: Byte, data: Data)

  predicate Answers(t: Turn, destination: Byte) {
    t.event.NonceResponse? && t.event.sender == destination
  }

  /** The first nonce from the destination that comes in before the time is over. */
  function Answer(turns: seq<Turn>, destination: Byte): (t: Option<Turn>)
    ensures t.Some? ==> Answers(t.value, destination) && t.value in turns
  {
    if turns == [] then None
    else if Answers(turns[0], destination) then Some(turns[0])
    else if turns[0].elapsed >= MY_VERIFICATION_TIMEOUT_MS then None
    else Answer(turns[1..], destination)
  }

  /** The clock goes on while the node waits. */
  ghost predicate TimePasses(turns: seq<Turn>) {
    turns != [] && turns[|turns| - 1].elapsed >= MY_VERIFICATION_TIMEOUT_MS
  }

  class Signing {
    const nodeId: Byte
    const isGateway: bool
    /** MY_SIGNING_REQUEST_SIGNATURES and MY_SIGNING_NODE_WHITELISTING. */
    const requestSignatures: bool
    const requestWhitelisting: bool
    const signer: SoftSigner
    const doSign: array<TB.Bits>
    const doWhitelist: array<TB.Bits>
    const msgSign: MyMessage
    var nonceStatusOK: bool

    constructor (nodeId: Byte, isGateway: bool, requestSignatures: bool, requestWhitelisting: bool,
                 signer: SoftSigner, doSign: array<TB.Bits>, doWhitelist: array<TB.Bits>, msgSign: MyMessage)
      requires signer.Valid() && doSign.Length == doWhitelist.Length == 32 && doSign != doWhitelist
      requires signer.Apart(msgSign)
      requires IsTable(doSign, {signer.signingNonce, signer.tempMessage, signer.hmac, msgSign.data})
      requires IsTable(doWhitelist, {signer.signingNonce, signer.tempMessage, signer.hmac, msgSign.data})
      ensures Valid() && this.nodeId == nodeId && this.isGateway == isGateway
      ensures this.requestSignatures == requestSignatures && this.requestWhitelisting == requestWhitelisting
      ensures this.signer == signer && this.doSign == doSign && this.doWhitelist == doWhitelist
      ensures this.msgSign == msgSign
    {
      this.nodeId, this.isGateway := nodeId, isGateway;
      this.requestSignatures, this.requestWhitelisting := requestSignatures, requestWhitelisting;
      this.signer, this.doSign, this.doWhitelist, this.msgSign := signer, doSign, doWhitelist, msgSign;
      nonceStatusOK := false;
    }

    ghost predicate Valid() {
      && signer.Valid() && doSign.Length == doWhitelist.Length == 32 && doSign != doWhitelist && signer.Apart(msgSign)
      && IsTable(doSign, {signer.signingNonce, signer.tempMessage, signer.hmac, msgSign.data})
      && IsTable(doWhitelist, {signer.signingNonce, signer.tempMessage, signer.hmac, msgSign.data})
    }

    static ghost predicate IsTable(table: array<TB.Bits>, buffers: set<object>) {
      table !in buffers
    }

    ghost predicate Apart(msg: MyMessage) {
      signer.Apart(msg) && msg != msgSign && msg.data != msgSign.data
    }

    // Presentation

    /** The part of signerProcessInternal that handles a signing presentation: the sender's requirements are noted, and
     a gateway answers with its own, which it has only towards senders that have them too. */
    method TakePresentation(sender: Byte, version: Byte, flags: Byte) returns (reply: Option<nat>)
      requires Valid()
      modifies doSign, doWhitelist
      ensures if version != SIGNING_PRESENTATION_VERSION_1 then
          reply.None? && doSign[..] == old(doSign[..]) && doWhitelist[..] == old(doWhitelist[..])
        else
          && Set(old(doSign[..]), doSign[..], sender, flags % 2 == 1)
          && Set(old(doWhitelist[..]), doWhitelist[..], sender, flags / 2 % 2 == 1)
          && reply == if isGateway then Some(OwnFlags(flags % 2 == 1, flags / 2 % 2 == 1)) else None
    {
      if version != SIGNING_PRESENTATION_VERSION_1 {
        return None;
      }
      SetEntry(doSign, sender, flags % 2 == 1);
      SetEntry(doWhitelist, sender, flags / 2 % 2 == 1);
      if !isGateway {
        return None;
      }
      var own := 0;
      if requestSignatures && Marked(doSign[..], sender) {
        own := own + 1;
      }
      if requestWhitelisting && Marked(doWhitelist[..], sender) {
        own := own + 2;
      }
      reply := Some(own);
    }

    /** The flags of a gateway towards a node with these requirements. */
    ghost function OwnFlags(signs: bool, whitelists: bool): nat {
      (if requestSignatures && signs then 1 else 0) + (if requestWhitelisting && whitelists then 2 else 0)
    }

    // Verification

    /** Messages that have to come signed. */
    ghost predicate MustBeSigned(m: Message)
      requires Valid()
      reads doSign
    {
      && requestSignatures && (!isGateway || Marked(doSign[..], m.sender)) && m.destination == nodeId
      && !SkipSign(m)
    }

    /** signerVerifyMsg. */
    method VerifyMsg(msg: MyMessage, now: Clock) returns (ok: bool)
      requires Valid() && Apart(msg) && msg.Value().Length() <= MAX_PAYLOAD
      modifies signer`ongoing, signer.verifyingNonce, signer.signingNonce, signer.tempMessage, signer.hmac
      modifies msg`versionLength
      ensures var m := old(msg.Value());
        if !old(MustBeSigned(msg.Value())) then ok && msg.Value() == m && signer.State() == old(signer.State())
        else if !m.Signed() then !ok && msg.Value() == m && signer.State() == old(signer.State())
        else
          && msg.Value() == m.WithSigned(false)
          && signer.State() == SigningSession.After(old(signer.State()), Verify(now, m))
          && (ok <==> Accepts(signer.backend, signer.whitelist, old(signer.State()), Verify(now, m)))
      ensures var m := old(msg.Value());
        ok && IsApplication(m) && requestSignatures && !isGateway && m.destination == nodeId ==> m.Signed()
    {
      ghost var m := msg.Value();
      ok := true;
      if requestSignatures {
        if (!isGateway || Marked(doSign[..], msg.sender)) && msg.destination == nodeId {
          var skip := Skips(msg);
          if skip {
          } else if msg.versionLength / 4 % 2 == 0 {
            ok := false;
          } else {
            ok := signer.VerifyMsg(msg, now);
            msg.SetSigned(false);
          }
        }
      }
    }

    static method Skips(msg: MyMessage) returns (skip: bool)
      requires msg.Valid()
      ensures skip == SkipSign(msg.Value())
    {
      var command, c := msg.commandAckPayload % 8, msg.commandAckPayload;
      if c / 16 % 2 == 1 {
        return true;
      } else if command == C_INTERNAL {
        return msg.mtype in {I_NONCE_REQUEST, I_NONCE_RESPONSE, I_SIGNING_PRESENTATION, I_ID_REQUEST, I_ID_RESPONSE,
          I_FIND_PARENT, I_FIND_PARENT_RESPONSE, I_HEARTBEAT, I_HEARTBEAT_RESPONSE, I_PING, I_PONG,
          I_REGISTRATION_REQUEST};
      } else {
        return command == C_STREAM && msg.mtype in {ST_FIRMWARE_REQUEST, ST_FIRMWARE_RESPONSE, ST_SOUND, ST_IMAGE};
      }
    }

    // Signing

    /** The part of signerProcessInternal that handles a nonce. */
    method TakeNonce(e: Event, ghost whitelisting: Table)
      requires Valid() && e.NonceResponse? && whitelisting == doWhitelist[..]
      modifies this`nonceStatusOK, msgSign`versionLength, msgSign.data
      modifies signer.signingNonce, signer.tempMessage, signer.hmac
      ensures var m := old(msgSign.Value());
        if e.sender == m.destination && m.Length() <= MAX_SIGNED then
          nonceStatusOK && msgSign.Value() == Sealed(m, e.data, whitelisting)
        else nonceStatusOK == old(nonceStatusOK) && msgSign.Value() == m
    {
      if e.sender != msgSign.destination {
        return;
      }
      signer.PutNonce(e.data);
      var salted := Marked(doWhitelist[..], msgSign.destination);
      var ok := signer.SignMsg(msgSign, salted);
      if ok {
        nonceStatusOK := true;
      }
    }

    /** A message signed with the nonce in data, and with the serial if the table marks its destination. */
    ghost function Sealed(m: Message, data: Data, whitelisting: Table): Message
      requires m.Length() <= MAX_SIGNED
    {
      SignedMessage(signer.backend, m, NonceOf(data[..MAX_PAYLOAD]), SerialTo(m.destination, whitelisting))
    }

    ghost function SerialTo(destination: Byte, whitelisting: Table): Option<Serial> {
      if Marked(whitelisting, destination) then Some(signer.serial) else None
    }

    /** The loop that waits for the nonce. */
    method Await(turns: seq<Turn>, ghost whitelisting: Table) returns (elapsed: nat)
      requires Valid() && whitelisting == doWhitelist[..] && TimePasses(turns) && !nonceStatusOK
      modifies this`nonceStatusOK, msgSign`versionLength, msgSign.data
      modifies signer.signingNonce, signer.tempMessage, signer.hmac
      ensures var m := old(msgSign.Value());
        var t := Answer(turns, m.destination);
        if t.Some? && m.Length() <= MAX_SIGNED then
          nonceStatusOK && msgSign.Value() == Sealed(m, t.value.event.data, whitelisting) && elapsed == t.value.elapsed
        else !nonceStatusOK && msgSign.Value() == m
    {
      ghost var m := msgSign.Value();
      elapsed := 0;
      var i := 0;
      while elapsed < MY_VERIFICATION_TIMEOUT_MS && !nonceStatusOK
        invariant 0 <= i <= |turns| && (i > 0 ==> elapsed == turns[i - 1].elapsed)
        invariant whitelisting == doWhitelist[..]
        invariant !nonceStatusOK ==> msgSign.Value() == m
        invariant nonceStatusOK ==> m.Length() <= MAX_SIGNED && Answer(turns, m.destination).Some?
        invariant nonceStatusOK ==> elapsed == Answer(turns, m.destination).value.elapsed
        invariant nonceStatusOK ==>
          msgSign.Value() == Sealed(m, Answer(turns, m.destination).value.event.data, whitelisting)
        invariant !nonceStatusOK && m.Length() <= MAX_SIGNED && elapsed < MY_VERIFICATION_TIMEOUT_MS ==>
          Answer(turns, m.destination) == Answer(turns[i..], m.destination)
        invariant !nonceStatusOK && m.Length() <= MAX_SIGNED && elapsed >= MY_VERIFICATION_TIMEOUT_MS ==>
          Answer(turns, m.destination).None?
        decreases |turns| - i
      {
        var t := turns[i];
        if t.event.NonceResponse? {
          TakeNonce(t.event, whitelisting);
        }
        elapsed := t.elapsed;
        i := i + 1;
      }
    }

    /** signerSignMsg; sent says whether the request for a nonce went out. */
    method SignMsg(msg: MyMessage, sent: bool, turns: seq<Turn>) returns (ok: bool)
      requires Valid() && Apart(msg) && TimePasses(turns)
      modifies this`nonceStatusOK, msgSign, msgSign.data, msg, msg.data
      modifies signer.signingNonce, signer.tempMessage, signer.hmac
      ensures var m := old(msg.Value());
        if m.sender != nodeId then ok && msg.Value() == m
        else if !Marked(old(doSign[..]), m.destination) then ok && msg.Value() == m.WithSigned(false)
        else if SkipSign(m) then ok && msg.Value() == m
        else
          var t := Answer(turns, m.destination);
          && (ok <==> sent && m.Length() <= MAX_SIGNED && t.Some? && t.value.elapsed <= MY_VERIFICATION_TIMEOUT_MS)
          && msg.Value() == if ok then Sealed(m, t.value.event.data, old(doWhitelist[..])) else m
      ensures var m := old(msg.Value());
        ok && IsApplication(m) && m.sender == nodeId && Marked(old(doSign[..]), m.destination) ==> msg.Value().Signed()
    {
      ghost var before := msg.Value();
      VersionLengthFields(before.Version(), true, before.Length());
      if Marked(doSign[..], msg.destination) && msg.sender == nodeId {
        var skip := Skips(msg);
        if skip {
          return true;
        }
        nonceStatusOK := false;
        if !sent {
          return false;
        }
        msgSign.Assign(msg);
        var elapsed := Await(turns, doWhitelist[..]);
        if elapsed > MY_VERIFICATION_TIMEOUT_MS {
          return false;
        }
        if nonceStatusOK {
          msg.Assign(msgSign);
        } else {
          return false;
        }
      } else if nodeId == msg.sender {
        msg.SetSigned(false);
      }
      return true;
    }
  }
}
