/** MyMessage.h and MyMessage.cpp: the layout of a message, its bit fields, and the setters of its payload. */
module MyMessages {
  import opened Bytes

  const MAX_MESSAGE_LENGTH := 32
  const HEADER_SIZE := 7
  const MAX_PAYLOAD := 25
  const PROTOCOL_VERSION := 2

  const P_STRING := 0
  const P_BYTE := 1
  const P_INT16 := 2
  const P_UINT16 := 3
  const P_LONG32 := 4
  const P_ULONG32 := 5
  const P_CUSTOM := 6
  const P_FLOAT32 := 7

  /** The payload, with one more byte for a terminator. */
  type Data = s: seq<Byte> | |s| == MAX_PAYLOAD + 1 witness seq(MAX_PAYLOAD + 1, i => 0)

  /** version_length from its fields: two bits, one bit, five bits. */
  function VersionLength(version: nat, signed: bool, length: nat): Byte {
    version % 4 + (if signed then 4 else 0) + length % 32 * 8
  }

  /** command_ack_payload from its fields: three bits, one bit, one bit, three bits. */
  function CommandAckPayload(command: nat, requestAck: bool, ack: bool, payloadType: nat): Byte {
    command % 8 + (if requestAck then 8 else 0) + (if ack then 16 else 0) + payloadType % 8 * 32
  }

  /** A message in memory. */
  datatype Message = Message(last: Byte, sender: Byte, destination: Byte, versionLength: Byte, commandAckPayload: Byte,
                             mtype: Byte, sensor: Byte, data: Data) {
    function Version(): nat {
      versionLength % 4
    }

    predicate Signed() {
      versionLength / 4 % 2 == 1
    }

    function Length(): nat {
      versionLength / 8
    }

    function Command(): nat {
      commandAckPayload % 8
    }

    predicate RequestAck() {
      commandAckPayload / 8 % 2 == 1
    }

    predicate Ack() {
      commandAckPayload / 16 % 2 == 1
    }

    function PayloadType(): nat {
      commandAckPayload / 32
    }

    // The fields are written into their bits; the other bits of the byte stay.

    function WithVersion(version: nat): Message {
      this.(versionLength := VersionLength(version, Signed(), Length()))
    }

    function WithSigned(signed: bool): Message {
      this.(versionLength := VersionLength(Version(), signed, Length()))
    }

    function WithLength(length: nat): Message {
      this.(versionLength := VersionLength(Version(), Signed(), length))
    }

    function WithCommand(command: nat): Message {
      this.(commandAckPayload := CommandAckPayload(command, RequestAck(), Ack(), PayloadType()))
    }

    function WithAcks(requestAck: bool, ack: bool): Message {
      this.(commandAckPayload := CommandAckPayload(Command(), requestAck, ack, PayloadType()))
    }

    function WithPayloadType(payloadType: nat): Message {
      this.(commandAckPayload := CommandAckPayload(Command(), RequestAck(), Ack(), payloadType))
    }

    /** The bytes of the payload. */
    function Payload(): seq<Byte>
      requires Length() <= MAX_PAYLOAD
    {
      data[..Length()]
    }
  }

  lemma VersionLengthFields(version: nat, signed: bool, length: nat)
    ensures VersionLength(version, signed, length) % 4 == version % 4
    ensures VersionLength(version, signed, length) / 4 % 2 == 1 <==> signed
    ensures VersionLength(version, signed, length) / 8 == length % 32
  {
  }

  lemma CommandAckPayloadFields(command: nat, requestAck: bool, ack: bool, payloadType: nat)
    ensures CommandAckPayload(command, requestAck, ack, payloadType) % 8 == command % 8
    ensures CommandAckPayload(command, requestAck, ack, payloadType) / 8 % 2 == 1 <==> requestAck
    ensures CommandAckPayload(command, requestAck, ack, payloadType) / 16 % 2 == 1 <==> ack
    ensures CommandAckPayload(command, requestAck, ack, payloadType) / 32 == payloadType % 8
  {
    if requestAck {
    }
    if ack {
    }
  }

  /** Every byte is the packing of its fields. */
  lemma VersionLengthIsAll(v: Byte)
    ensures VersionLength(v % 4, v / 4 % 2 == 1, v / 8) == v
  {
    assert v == v % 4 + v / 4 * 4 && v / 4 == v / 4 % 2 + v / 8 * 2;
  }

  lemma CommandAckPayloadIsAll(c: Byte)
    ensures CommandAckPayload(c % 8, c / 8 % 2 == 1, c / 16 % 2 == 1, c / 32) == c
  {
    assert c == c % 8 + c / 8 * 8;
    assert c / 8 == c / 8 % 2 + c / 16 * 2;
    assert c / 16 == c / 16 % 2 + c / 32 * 2;
  }

  /** A payload at the front of the data; what was behind it stays. */
  function Filled(data: Data, payload: seq<Byte>): Data
    requires |payload| <= MAX_PAYLOAD + 1
  {
    payload + data[|payload|..]
  }

  /** A message whose payload is set to bytes. */
  function CustomSet(m: Message, value: seq<Byte>): Message {
    var n := if |value| < MAX_PAYLOAD then |value| else MAX_PAYLOAD;
    m.WithPayloadType(P_CUSTOM).WithLength(|value|).(data := Filled(m.data, value[..n]))
  }

  /** A message whose payload is set to text; of a longer text the first MAX_PAYLOAD characters. */
  function StringSet(m: Message, value: seq<Byte>): Message {
    var n := if |value| < MAX_PAYLOAD then |value| else MAX_PAYLOAD;
    m.WithLength(n).WithPayloadType(P_STRING).(data := Filled(m.data, value[..n] + [0]))
  }

  /** Two messages that differ at most in their payload, its type and its length. */
  predicate SameExceptPayload(m: Message, n: Message) {
    && n.last == m.last && n.sender == m.sender && n.destination == m.destination
    && n.mtype == m.mtype && n.sensor == m.sensor
    && n.Command() == m.Command() && n.RequestAck() == m.RequestAck() && n.Ack() == m.Ack()
    && n.Version() == m.Version() && n.Signed() == m.Signed()
  }

  lemma CustomSetFields(m: Message, value: seq<Byte>)
    requires |value| <= MAX_PAYLOAD
    ensures var n := CustomSet(m, value);
      SameExceptPayload(m, n) && n.PayloadType() == P_CUSTOM && n.Length() == |value| && n.Payload() == value
  {
    CommandAckPayloadFields(m.Command(), m.RequestAck(), m.Ack(), P_CUSTOM);
    VersionLengthFields(m.Version(), m.Signed(), |value|);
    assert value[..|value|] == value;
  }

  lemma StringSetFields(m: Message, value: seq<Byte>)
    requires |value| <= MAX_PAYLOAD
    ensures var n := StringSet(m, value);
      SameExceptPayload(m, n) && n.PayloadType() == P_STRING && n.Length() == |value| && n.Payload() == value
  {
    CommandAckPayloadFields(m.Command(), m.RequestAck(), m.Ack(), P_STRING);
    VersionLengthFields(m.Version(), m.Signed(), |value|);
    assert value[..|value|] == value;
  }

  /** memcpy. */
  method Copy(target: array<Byte>, at: nat, bytes: seq<Byte>)
    requires at + |bytes| <= target.Length
    modifies target
    ensures target[..] == old(target[..at]) + bytes + old(target[at + |bytes|..])
  {
    forall i | 0 <= i < |bytes| {
      target[at + i] := bytes[i];
    }
  }

  /** memset. */
  method Fill(target: array<Byte>, at: nat, value: Byte)
    requires at <= target.Length
    modifies target
    ensures target[..] == old(target[..at]) + seq(target.Length - at, i => value)
  {
    forall i | at <= i < target.Length {
      target[i] := value;
    }
  }

  /** A message that is changed in place. */
  class MyMessage {
    var last: Byte
    var sender: Byte
    var destination: Byte
    var versionLength: Byte
    var commandAckPayload: Byte
    var mtype: Byte
    var sensor: Byte
    const data: array<Byte>

    constructor (m: Message)
      ensures Valid() && Value() == m && fresh(data)
    {
      last, sender, destination, mtype, sensor := m.last, m.sender, m.destination, m.mtype, m.sensor;
      versionLength, commandAckPayload := m.versionLength, m.commandAckPayload;
      data := new Byte[MAX_PAYLOAD + 1](i requires 0 <= i < |m.data| => m.data[i]);
      new;
      assert data[..] == m.data;
    }

    ghost predicate Valid() {
      data.Length == MAX_PAYLOAD + 1
    }

    ghost function Value(): Message
      requires Valid()
      reads this, data
    {
      Message(last, sender, destination, versionLength, commandAckPayload, mtype, sensor, data[..])
    }

    function Length(): (n: nat)
      requires Valid()
      reads this, data
      ensures n == Value().Length()
    {
      versionLength / 8
    }

    method SetSigned(signed: bool)
      requires Valid()
      modifies this`versionLength
      ensures Value() == old(Value()).WithSigned(signed)
    {
      versionLength := VersionLength(versionLength % 4, signed, versionLength / 8);
    }

    method SetLength(length: nat)
      requires Valid()
      modifies this`versionLength
      ensures Value() == old(Value()).WithLength(length)
    {
      versionLength := VersionLength(versionLength % 4, versionLength / 4 % 2 == 1, length);
    }

    method SetCommand(command: nat)
      requires Valid()
      modifies this`commandAckPayload
      ensures Value() == old(Value()).WithCommand(command)
    {
      var c := commandAckPayload;
      commandAckPayload := CommandAckPayload(command, c / 8 % 2 == 1, c / 16 % 2 == 1, c / 32);
    }

    method SetAcks(requestAck: bool, ack: bool)
      requires Valid()
      modifies this`commandAckPayload
      ensures Value() == old(Value()).WithAcks(requestAck, ack)
    {
      var c := commandAckPayload;
      commandAckPayload := CommandAckPayload(c % 8, requestAck, ack, c / 32);
    }

    method SetPayloadType(payloadType: nat)
      requires Valid()
      modifies this`commandAckPayload
      ensures Value() == old(Value()).WithPayloadType(payloadType)
    {
      var c := commandAckPayload;
      commandAckPayload := CommandAckPayload(c % 8, c / 8 % 2 == 1, c / 16 % 2 == 1, payloadType);
    }

    /** The assignment of a whole message. */
    method Assign(m: MyMessage)
      requires Valid() && m.Valid() && data != m.data
      modifies this, data
      ensures Value() == m.Value()
    {
      last, sender, destination, mtype, sensor := m.last, m.sender, m.destination, m.mtype, m.sensor;
      versionLength, commandAckPayload := m.versionLength, m.commandAckPayload;
      Copy(data, 0, m.data[..]);
      assert data[..] == m.data[..];
    }

    /** set(value, length). */
    method SetCustom(value: seq<Byte>)
      requires Valid() && |value| < 0x100
      modifies this`versionLength, this`commandAckPayload, data
      ensures Value() == CustomSet(old(Value()), value)
    {
      SetPayloadType(P_CUSTOM);
      SetLength(|value|);
      Copy(data, 0, value[..if |value| < MAX_PAYLOAD then |value| else MAX_PAYLOAD]);
    }

    /** set(value) for text, which is null when there is none. */
    method SetString(value: seq<Byte>)
      requires Valid()
      modifies this`versionLength, this`commandAckPayload, data
      ensures Value() == StringSet(old(Value()), value)
    {
      var length := if |value| < MAX_PAYLOAD then |value| else MAX_PAYLOAD;
      SetLength(length);
      SetPayloadType(P_STRING);
      Copy(data, 0, value[..length]);
      data[length] := 0;
      assert data[..] == value[..length] + [0] + old(data[..])[length + 1..];
    }
  }
}
