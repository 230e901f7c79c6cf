/**
 Signed messages and the verification session of MySigningAtsha204Soft.cpp, on values.  The keyed hash and the salting
 hash are any functions; module SigningBackend has those of the source.
 */
module SigningSession {
  import opened Bytes
  import opened Clocks
  import opened MyMessages
  import opened Options
  import opened Recurrence

  const SIGNING_IDENTIFIER: Byte := 1
  const PURGED: Byte := 0xAA
  const SERIAL_SIZE := 9

  /** What fits into the payload of a signed message leaves room for the identifier and one byte. */
  const MAX_SIGNED := MAX_PAYLOAD - 2

  type Block = s: seq<Byte> | |s| == 32 witness seq(32, i => 0)
  type Serial = s: seq<Byte> | |s| == SERIAL_SIZE witness seq(SERIAL_SIZE, i => 0)

  /** The digest of a padded message under a nonce, and that of a digest with a node and its serial. */
  datatype Backend = Backend(mac: (Block, Block) -> Block, salted: (Block, Byte, Serial) -> Block)

  datatype Entry = Entry(node: Byte, serial: Serial)

  /** The serial that a whitelist has for a node: that of the first entry. */
  function Lookup(list: seq<Entry>, node: Byte): (s: Option<Serial>)
    ensures s.Some? <==> exists e :: e in list && e.node == node
  {
    if list == [] then None
    else if list[0].node == node then Some(list[0].serial)
    else Lookup(list[1..], node)
  }

  function PurgedBlock(): Block {
    seq(32, i => PURGED)
  }

  /** A nonce as it is kept: what a payload carries, filled up. */
  function NonceOf(payload: seq<Byte>): Block
    requires |payload| == MAX_PAYLOAD
  {
    payload + seq(32 - MAX_PAYLOAD, i => PURGED)
  }

  // Signatures

  /** The bytes that a signature covers: everything from sender to the end of the payload. */
  function Covered(m: Message): (s: seq<Byte>)
    requires m.Length() <= MAX_PAYLOAD
    ensures |s| == HEADER_SIZE - 1 + m.Length()
  {
    [m.sender, m.destination, m.versionLength, m.commandAckPayload, m.mtype, m.sensor] + m.Payload()
  }

  function Padded(s: seq<Byte>): Block
    requires |s| <= 32
  {
    s + seq(32 - |s|, i => 0)
  }

  function Digest(b: Backend, m: Message, nonce: Block): Block
    requires m.Length() <= MAX_PAYLOAD
  {
    b.mac(Padded(Covered(m)), nonce)
  }

  function Salted(b: Backend, digest: Block, sender: Byte, serial: Option<Serial>): Block {
    if serial.Some? then b.salted(digest, sender, serial.value) else digest
  }

  function Identified(digest: Block): Block {
    [SIGNING_IDENTIFIER] + digest[1..]
  }

  function Signature(b: Backend, m: Message, nonce: Block, serial: Option<Serial>): Block
    requires m.Length() <= MAX_PAYLOAD
  {
    Identified(Salted(b, Digest(b, m, nonce), m.sender, serial))
  }

  /** The message with the signed flag, and as much of the signature behind its payload as there is room for. */
  function SignedMessage(b: Backend, m: Message, nonce: Block, serial: Option<Serial>): Message
    requires m.Length() <= MAX_SIGNED
  {
    var n := m.WithSigned(true);
    VersionLengthFields(m.Version(), true, m.Length());
    var s := Signature(b, n, nonce, serial);
    n.(data := m.Payload() + s[..MAX_PAYLOAD - m.Length()] + m.data[MAX_PAYLOAD..])
  }

  /** The signature in a message is the one computed for it; with a whitelist, the sender also has to be on it. */
  predicate Genuine(b: Backend, m: Message, nonce: Block, whitelist: Option<seq<Entry>>)
    requires m.Length() <= MAX_PAYLOAD
  {
    && m.data[m.Length()] == SIGNING_IDENTIFIER
    && (whitelist.Some? ==> Lookup(whitelist.value, m.sender).Some?)
    && m.data[m.Length()..MAX_PAYLOAD]
        == Signature(b, m, nonce, SerialFor(whitelist, m.sender))[..MAX_PAYLOAD - m.Length()]
  }

  function SerialFor(whitelist: Option<seq<Entry>>, sender: Byte): Option<Serial> {
    if whitelist.Some? then Lookup(whitelist.value, sender) else None
  }

  /** Both sides agree on whether a serial is used, and on which. */
  predicate Consistent(serial: Option<Serial>, whitelist: Option<seq<Entry>>, sender: Byte) {
    serial == SerialFor(whitelist, sender) && (whitelist.Some? ==> serial.Some?)
  }

  /** The padding hides nothing: messages with the same signed block differ only in last and behind the payload. */
  lemma PaddedIsExact(m: Message, n: Message)
    requires m.Length() <= MAX_PAYLOAD && n.Length() <= MAX_PAYLOAD
    ensures Padded(Covered(m)) == Padded(Covered(n)) <==>
      n.(last := m.last, data := m.data) == m && m.Payload() == n.Payload()
  {
    var a, b := Padded(Covered(m)), Padded(Covered(n));
    if a == b {
      assert a[0] == b[0] && a[1] == b[1] && a[2] == b[2] && a[3] == b[3] && a[4] == b[4] && a[5] == b[5];
      assert m.Payload() == a[6..6 + m.Length()] == b[6..6 + n.Length()] == n.Payload();
    }
  }

  // What a signature proves

  /** The block that is hashed for m: the six bytes from sender to sensor, the payload, and zeros. */
  predicate IsBlockOf(block: Block, m: Message)
    requires m.Length() <= MAX_PAYLOAD
  {
    && block[..6] == [m.sender, m.destination, m.versionLength, m.commandAckPayload, m.mtype, m.sensor]
    && block[6..6 + m.Length()] == m.data[..m.Length()]
    && forall i :: 6 + m.Length() <= i < 32 ==> block[i] == 0
  }

  /** Behind the payload m has the identifier and, as far as there is room, the bytes of digest from the second on. */
  predicate Carries(m: Message, digest: Block)
    requires m.Length() <= MAX_PAYLOAD
  {
    && m.data[m.Length()] == 1
    && forall i :: 1 <= i < MAX_PAYLOAD - m.Length() ==> m.data[m.Length() + i] == digest[i]
  }

  /** Entry i is the first of a whitelist for a node. */
  predicate IsFirstFor(list: seq<Entry>, node: Byte, i: int) {
    0 <= i < |list| && list[i].node == node && forall j :: 0 <= j < i ==> list[j].node != node
  }

  /** The same with the digest salted: by the serial of the first entry for the sender, which there has to be. */
  ghost predicate CarriesSalted(b: Backend, m: Message, digest: Block, list: seq<Entry>)
    requires m.Length() <= MAX_PAYLOAD
  {
    exists i :: IsFirstFor(list, m.sender, i) && Carries(m, b.salted(digest, m.sender, list[i].serial))
  }

  lemma {:induction false} LookupIsFirst(list: seq<Entry>, node: Byte)
    ensures forall i :: IsFirstFor(list, node, i) ==> Lookup(list, node) == Some(list[i].serial)
    ensures Lookup(list, node).Some? ==> exists i :: IsFirstFor(list, node, i)
  {
    if list == [] {
    } else if list[0].node == node {
      assert IsFirstFor(list, node, 0);
    } else {
      LookupIsFirst(list[1..], node);
      forall i | IsFirstFor(list, node, i)
        ensures Lookup(list, node) == Some(list[i].serial)
      {
        assert IsFirstFor(list[1..], node, i - 1);
      }
      if Lookup(list, node).Some? {
        var i :| IsFirstFor(list[1..], node, i);
        assert forall j :: 1 <= j < i + 1 ==> list[j] == list[1..][j - 1];
        assert IsFirstFor(list, node, i + 1);
      }
    }
  }

  lemma BlockIsPadded(m: Message, block: Block)
    requires m.Length() <= MAX_PAYLOAD && IsBlockOf(block, m)
    ensures block == Padded(Covered(m))
  {
    var n := 6 + m.Length();
    assert block[..6] + block[6..n] == block[..n] == Covered(m);
    assert block[n..] == seq(32 - n, i => 0);
    assert block == block[..n] + block[n..];
  }

  /** Comparing with the identified digest is comparing byte by byte. */
  lemma CarriesExactly(m: Message, digest: Block)
    requires m.Length() <= MAX_PAYLOAD
    ensures Carries(m, digest) <==>
      m.data[m.Length()] == SIGNING_IDENTIFIER
      && m.data[m.Length()..MAX_PAYLOAD] == Identified(digest)[..MAX_PAYLOAD - m.Length()]
  {
    var n := m.Length();
    var a, c := m.data[n..MAX_PAYLOAD], Identified(digest)[..MAX_PAYLOAD - n];
    assert forall i :: 0 <= i < MAX_PAYLOAD - n ==> a[i] == m.data[n + i];
    assert forall i :: 1 <= i < MAX_PAYLOAD - n ==> c[i] == digest[i];
    if Carries(m, digest) {
      assert forall i :: 0 <= i < MAX_PAYLOAD - n ==> a[i] == c[i];
    }
  }

  /**
   A message is accepted exactly if the session is open and in time and the message carries the digest of its own bytes
   under the waiting nonce; with a whitelist, the digest salted with the serial that the list has for the sender.
   */
  lemma AcceptedCarriesDigest(b: Backend, whitelist: Option<seq<Entry>>, s: Session, now: Clock, m: Message,
                              block: Block)
    requires m.Length() <= MAX_PAYLOAD && IsBlockOf(block, m)
    ensures Accepts(b, whitelist, s, Verify(now, m)) <==>
      && s.ongoing && s.timestamp <= now <= (s.timestamp + 5000) % 0x1_0000_0000
      && if whitelist.None? then Carries(m, b.mac(block, s.nonce))
         else CarriesSalted(b, m, b.mac(block, s.nonce), whitelist.value)
  {
    BlockIsPadded(m, block);
    var digest := b.mac(block, s.nonce);
    if whitelist.None? {
      CarriesExactly(m, digest);
    } else {
      var list := whitelist.value;
      LookupIsFirst(list, m.sender);
      if Lookup(list, m.sender).Some? {
        var i :| IsFirstFor(list, m.sender, i);
        CarriesExactly(m, b.salted(digest, m.sender, list[i].serial));
      }
    }
  }

  // On the way

  /** One transmission: who sends, and what the receiver's buffer held before. */
  datatype Hop = Hop(id: Byte, buffer: Data)

  /** How much of the payload goes over the air. */
  function Transmitted(m: Message): (n: nat)
    ensures n <= MAX_PAYLOAD
  {
    if m.Signed() || MAX_PAYLOAD < m.Length() then MAX_PAYLOAD else m.Length()
  }

  /** A message passed on by hop.id, as it then is in the next node's buffer. */
  function Carried(m: Message, hop: Hop): Message {
    var n := m.WithVersion(PROTOCOL_VERSION).(last := hop.id);
    n.(data := n.data[..Transmitted(n)] + hop.buffer[Transmitted(n)..])
  }

  /** A signed message changes on the way only in last and behind the payload. */
  lemma {:induction false} CarriedKeepsSigned(m: Message, hops: seq<Hop>)
    requires m.Version() == PROTOCOL_VERSION && m.Signed()
    ensures var n := Fold(Carried, m, hops);
      && n.(last := m.last, data := m.data) == m && n.data[..MAX_PAYLOAD] == m.data[..MAX_PAYLOAD]
  {
    if hops == [] {
    } else {
      var k := |hops| - 1;
      CarriedKeepsSigned(m, hops[..k]);
      VersionLengthIsAll(m.versionLength);
    }
  }

  /** A message with a full payload keeps it on the way. */
  lemma {:induction false} CarriedKeepsFull(m: Message, hops: seq<Hop>)
    requires m.Length() == MAX_PAYLOAD
    ensures Fold(Carried, m, hops).Length() == MAX_PAYLOAD
    ensures Fold(Carried, m, hops).data[..MAX_PAYLOAD] == m.data[..MAX_PAYLOAD]
  {
    if hops == [] {
    } else {
      var before := Fold(Carried, m, hops[..|hops| - 1]);
      CarriedKeepsFull(m, hops[..|hops| - 1]);
      VersionLengthFields(PROTOCOL_VERSION, before.Signed(), before.Length());
    }
  }

  /** What is signed with a nonce is genuine for it. */
  lemma SignedIsGenuine(b: Backend, m: Message, nonce: Block, serial: Option<Serial>, whitelist: Option<seq<Entry>>)
    requires m.Length() <= MAX_SIGNED && Consistent(serial, whitelist, m.sender)
    ensures var n := SignedMessage(b, m, nonce, serial);
      && n.Signed() && n.Version() == m.Version() && n.Length() == m.Length() && n.Payload() == m.Payload()
      && Genuine(b, n, nonce, whitelist)
  {
    VersionLengthFields(m.Version(), true, m.Length());
    var n := SignedMessage(b, m, nonce, serial);
    var s := Signature(b, m.WithSigned(true), nonce, serial);
    assert n.Payload() == m.Payload();
    assert Covered(n) == Covered(m.WithSigned(true));
    assert n.data[m.Length()..MAX_PAYLOAD] == s[..MAX_PAYLOAD - m.Length()];
  }

  /** Neither last nor what is behind the payload matters to a signature. */
  lemma FrontDecides(b: Backend, m: Message, n: Message, nonce: Block, whitelist: Option<seq<Entry>>)
    requires m.Length() < MAX_PAYLOAD
    requires n.(last := m.last, data := m.data) == m && n.data[..MAX_PAYLOAD] == m.data[..MAX_PAYLOAD]
    ensures n.Payload() == m.Payload() && Genuine(b, n, nonce, whitelist) == Genuine(b, m, nonce, whitelist)
  {
    var k := m.Length();
    assert n.Payload() == n.data[..MAX_PAYLOAD][..k] == m.Payload();
    assert Covered(n) == Covered(m);
    assert n.data[k..MAX_PAYLOAD] == n.data[..MAX_PAYLOAD][k..] == m.data[k..MAX_PAYLOAD];
    assert n.data[k] == n.data[..MAX_PAYLOAD][k] == m.data[k];
  }

  /** And it is still genuine after any number of relays. */
  lemma RelayedIsGenuine(b: Backend, m: Message, nonce: Block, serial: Option<Serial>, whitelist: Option<seq<Entry>>,
                         hops: seq<Hop>)
    requires m.Version() == PROTOCOL_VERSION && m.Length() <= MAX_SIGNED && Consistent(serial, whitelist, m.sender)
    ensures var n := Fold(Carried, SignedMessage(b, m, nonce, serial), hops);
      && n.Length() == m.Length() && n.Payload() == m.Payload() && n.Signed()
      && n.sender == m.sender && n.destination == m.destination
      && Genuine(b, n, nonce, whitelist)
  {
    SignedIsGenuine(b, m, nonce, serial, whitelist);
    var signed := SignedMessage(b, m, nonce, serial);
    CarriedKeepsSigned(signed, hops);
    FrontDecides(b, signed, Fold(Carried, signed, hops), nonce, whitelist);
  }

  // Time

  const MY_VERIFICATION_TIMEOUT_MS := 5000

  type Clock = n: nat | n < 0x1_0000_0000

  /** The time stamp of a nonce issued at now. */
  function Stamp(now: Clock): Clock {
    if (now + MY_VERIFICATION_TIMEOUT_MS) % CLOCK_RANGE < now then 0 else now
  }

  predicate InTime(timestamp: Clock, now: Clock) {
    timestamp <= now <= (timestamp + MY_VERIFICATION_TIMEOUT_MS) % CLOCK_RANGE
  }

  /** d milliseconds after it was issued, a nonce is still good for at most the timeout; if the clock turns over
   within the timeout, it is good from then on instead. */
  lemma TimelyExactly(issued: Clock, d: nat)
    requires d < CLOCK_RANGE
    ensures InTime(Stamp(issued), (issued + d) % CLOCK_RANGE) <==>
      if issued + MY_VERIFICATION_TIMEOUT_MS < CLOCK_RANGE then d <= MY_VERIFICATION_TIMEOUT_MS
      else CLOCK_RANGE <= issued + d <= CLOCK_RANGE + MY_VERIFICATION_TIMEOUT_MS
  {
    var now := (issued + d) % CLOCK_RANGE;
    assert now == if issued + d < CLOCK_RANGE then issued + d else issued + d - CLOCK_RANGE;
  }

  // The session

  /** What a node knows about the nonce that it has given out. */
  datatype Session = Session(ongoing: bool, timestamp: Clock, nonce: Block)

  /** A nonce given out, the timer looked at, or a signed message to verify. */
  datatype Event =
    | Issue(now: Clock, nonce: Block)
    | Check(now: Clock)
    | Verify(now: Clock, m: Message)

  /** signerAtsha204SoftCheckTimer. */
  function Checked(s: Session, now: Clock): Session {
    if s.ongoing && !InTime(s.timestamp, now) then Session(false, s.timestamp, PurgedBlock()) else s
  }

  function After(s: Session, e: Event): Session {
    match e
    case Issue(now, nonce) => Session(true, Stamp(now), nonce)
    case Check(now) => Checked(s, now)
    case Verify(now, m) =>
      if !Checked(s, now).ongoing then Checked(s, now)
      else if m.Length() <= MAX_PAYLOAD && m.data[m.Length()] == SIGNING_IDENTIFIER then
        Session(false, s.timestamp, PurgedBlock())
      else s.(ongoing := false)
  }

  /** A verification that succeeds. */
  predicate Accepts(b: Backend, whitelist: Option<seq<Entry>>, s: Session, e: Event) {
    e.Verify? && e.m.Length() <= MAX_PAYLOAD && Checked(s, e.now).ongoing && Genuine(b, e.m, s.nonce, whitelist)
  }

  function Start(): Session {
    Session(false, 0, seq(32, i => 0))
  }

  function AfterAll(events: seq<Event>): Session {
    Fold(After, Start(), events)
  }

  /** Event k gives out the nonce that is still waiting for its message: since then the timer has been looked at and
   nothing else has happened. */
  ghost predicate Opens(events: seq<Event>, k: int) {
    && 0 <= k < |events| && events[k].Issue?
    && forall j :: k < j < |events| ==> events[j].Check? && InTime(Stamp(events[k].now), events[j].now)
  }

  /** A session is open exactly when some nonce is waiting, and then for that nonce. */
  lemma {:induction false} OpenExactly(events: seq<Event>)
    ensures AfterAll(events).ongoing <==> exists k :: Opens(events, k)
    ensures forall k :: Opens(events, k) ==> AfterAll(events) == Session(true, Stamp(events[k].now), events[k].nonce)
  {
    if events == [] {
    } else {
      var n := |events| - 1;
      OpenExactly(events[..n]);
      if events[n].Issue? {
        assert Opens(events, n);
      }
      forall k | Opens(events, k)
        ensures AfterAll(events) == Session(true, Stamp(events[k].now), events[k].nonce)
      {
        if k < n {
          assert Opens(events[..n], k);
        }
      }
      if AfterAll(events).ongoing && !events[n].Issue? {
        var k :| Opens(events[..n], k);
        assert Opens(events, k);
      }
    }
  }

  /** A message is accepted exactly when a nonce is waiting for it, in time, and it is genuine for that nonce. */
  lemma AcceptedExactly(b: Backend, whitelist: Option<seq<Entry>>, events: seq<Event>, now: Clock, m: Message)
    requires m.Length() <= MAX_PAYLOAD
    ensures Accepts(b, whitelist, AfterAll(events), Verify(now, m)) <==>
      exists k :: Opens(events, k) && InTime(Stamp(events[k].now), now) && Genuine(b, m, events[k].nonce, whitelist)
  {
    OpenExactly(events);
    if Accepts(b, whitelist, AfterAll(events), Verify(now, m)) {
      var k :| Opens(events, k);
    }
  }

  /** Of two accepted messages, the second has had a nonce of its own, given out after the first. */
  lemma NonceServesOnce(b: Backend, whitelist: Option<seq<Entry>>, events: seq<Event>, i: nat, j: nat)
    requires i < j < |events|
    requires Accepts(b, whitelist, AfterAll(events[..i]), events[i])
    requires Accepts(b, whitelist, AfterAll(events[..j]), events[j])
    ensures exists k :: i < k < j && Opens(events[..j], k) && Genuine(b, events[j].m, events[k].nonce, whitelist)
  {
    AcceptedExactly(b, whitelist, events[..j], events[j].now, events[j].m);
    var k :| Opens(events[..j], k) && Genuine(b, events[j].m, events[..j][k].nonce, whitelist);
    assert events[..j][i] == events[i];
  }

  /** The whole exchange: the receiver gives out a nonce, the sender signs with it, the message is relayed any number of
   times, and it arrives while the nonce is waiting and in time. */
  lemma SignedIsAccepted(b: Backend, whitelist: Option<seq<Entry>>, events: seq<Event>, k: nat, now: Clock,
                         m: Message, serial: Option<Serial>, hops: seq<Hop>)
    requires Opens(events, k) && InTime(Stamp(events[k].now), now)
    requires m.Version() == PROTOCOL_VERSION && m.Length() <= MAX_SIGNED && Consistent(serial, whitelist, m.sender)
    ensures var arrived := Fold(Carried, SignedMessage(b, m, events[k].nonce, serial), hops);
      Accepts(b, whitelist, AfterAll(events), Verify(now, arrived)) && arrived.Payload() == m.Payload()
  {
    RelayedIsGenuine(b, m, events[k].nonce, serial, whitelist, hops);
    AcceptedExactly(b, whitelist, events, now, Fold(Carried, SignedMessage(b, m, events[k].nonce, serial), hops));
  }

  /** The whole exchange with the nonce carried as well: the sender takes it from the reply that reaches it. */
  lemma ExchangeIsAccepted(b: Backend, whitelist: Option<seq<Entry>>, events: seq<Event>, k: nat, now: Clock,
                           m: Message, serial: Option<Serial>, random: Block, request: Message,
                           there: seq<Hop>, back: seq<Hop>)
    requires Opens(events, k) && InTime(Stamp(events[k].now), now) && events[k].nonce == NonceOf(random[..MAX_PAYLOAD])
    requires m.Version() == PROTOCOL_VERSION && m.Length() <= MAX_SIGNED && Consistent(serial, whitelist, m.sender)
    ensures var reply := Fold(Carried, CustomSet(request, random[..MAX_PAYLOAD]), there);
      var arrived := Fold(Carried, SignedMessage(b, m, NonceOf(reply.data[..MAX_PAYLOAD]), serial), back);
      Accepts(b, whitelist, AfterAll(events), Verify(now, arrived)) && arrived.Payload() == m.Payload()
  {
    var reply := CustomSet(request, random[..MAX_PAYLOAD]);
    VersionLengthFields(request.Version(), request.Signed(), MAX_PAYLOAD);
    assert random[..MAX_PAYLOAD][..MAX_PAYLOAD] == random[..MAX_PAYLOAD];
    assert reply.data[..MAX_PAYLOAD] == random[..MAX_PAYLOAD];
    CarriedKeepsFull(reply, there);
    SignedIsAccepted(b, whitelist, events, k, now, m, serial, back);
  }

  /** How many messages were accepted in a run. */
  function Accepted(b: Backend, whitelist: Option<seq<Entry>>, events: seq<Event>): nat {
    if events == [] then 0
    else
      var n := |events| - 1;
      Accepted(b, whitelist, events[..n]) + (if Accepts(b, whitelist, AfterAll(events[..n]), events[n]) then 1 else 0)
  }

  function Issued(events: seq<Event>): nat {
    if events == [] then 0 else Issued(events[..|events| - 1]) + (if events[|events| - 1].Issue? then 1 else 0)
  }

  /** No more messages are accepted than nonces were given out, and one less while a nonce is waiting. */
  lemma {:induction false} AcceptedWithinIssued(b: Backend, whitelist: Option<seq<Entry>>, events: seq<Event>)
    ensures Accepted(b, whitelist, events) + (if AfterAll(events).ongoing then 1 else 0) <= Issued(events)
  {
    if events == [] {
    } else {
      AcceptedWithinIssued(b, whitelist, events[..|events| - 1]);
    }
  }
}
