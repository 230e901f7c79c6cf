/** PubSubClient.cpp: the writer of PUBLISH packets and the reader that hands them to the callback. */
module PubSubClient {
  import opened Bytes
  import opened MqttPackets
  import opened Options
  import Remainders

  const MQTT_MAX_PACKET_SIZE := 128

  datatype Delivery = Delivery(topic: seq<Byte>, payload: seq<Byte>)

  /** Reading the remaining length at the beginning of start: rest is still to come, total is what the digits before
   it are worth, and the next digit counts multiplier. */
  ghost predicate Reading(start: seq<Byte>, rest: seq<Byte>, total: nat, multiplier: nat) {
    && |rest| <= |start| && |start| - |rest| + LengthBytes(rest) == LengthBytes(start)
    && (Decode(start).Some? <==> Decode(rest).Some?)
    && (Decode(start).Some? ==>
      && Decode(start).value.0 == total + multiplier * Decode(rest).value.0
      && Decode(start).value.1 == |start| - |rest| + Decode(rest).value.1)
  }

  lemma ReadingStep(start: seq<Byte>, rest: seq<Byte>, total: nat, multiplier: nat)
    requires Reading(start, rest, total, multiplier) && rest != []
    ensures rest[0] >= 128 ==>
      Reading(start, rest[1..], total + rest[0] % 128 * multiplier, multiplier * 128)
    ensures rest[0] < 128 ==>
      Decode(start) == Some((total + rest[0] % 128 * multiplier, |start| - |rest| + 1))
  {
    if rest[0] >= 128 {
      if Decode(rest).Some? {
        Expand(multiplier, rest[0] - 128, Decode(rest[1..]).value.0);
      }
    } else {
      Commute(multiplier, rest[0]);
    }
  }

  lemma Commute(a: nat, b: nat)
    ensures a * b == b * a
  {
  }

  lemma Expand(m: nat, d: nat, w: nat)
    ensures m * (d + 128 * w) == d * m + m * 128 * w
  {
  }

  lemma Published(topic: seq<Byte>, payload: seq<Byte>, retained: bool, header: Byte, body: seq<Byte>)
    requires 7 + |topic| + |payload| <= MQTT_MAX_PACKET_SIZE && body == Text(topic) + payload
    requires header == MQTTPUBLISH + if retained then 1 else 0
    ensures [header] + Encode(|body|) + body == MqttPackets.Publish(topic, payload, retained)
  {
  }

  class Client {
    const buffer: array<Byte>
    /** The bytes that the connection still has for us, and those that it has been given. */
    var input: seq<Byte>
    var output: seq<Byte>
    /** The calls of the callback. */
    var delivered: seq<Delivery>

    constructor (input: seq<Byte>)
      ensures Valid() && this.input == input && output == [] && delivered == [] && fresh(buffer)
    {
      buffer := new Byte[MQTT_MAX_PACKET_SIZE];
      this.input, output, delivered := input, [], [];
    }

    ghost predicate Valid()
      reads this
    {
      buffer.Length == MQTT_MAX_PACKET_SIZE
    }

    /** One more byte behind those that lie in the buffer from from on. */
    method Store(ghost from: nat, at: nat, b: Byte)
      requires Valid() && from <= at < MQTT_MAX_PACKET_SIZE
      modifies buffer
      ensures buffer[from..at + 1] == old(buffer[from..at]) + [b]
      ensures forall i :: 0 <= i < at ==> buffer[i] == old(buffer[i])
    {
      buffer[at] := b;
    }

    /** writeString. */
    method WriteString(s: seq<Byte>, pos: nat) returns (end: nat)
      requires Valid() && pos + 2 + |s| <= MQTT_MAX_PACKET_SIZE
      modifies buffer
      ensures end == pos + 2 + |s| && buffer[pos..end] == Text(s)
      ensures buffer[..pos] == old(buffer[..pos])
    {
      end := pos + 2;
      var i := 0;
      while i < |s|
        invariant 0 <= i <= |s| && end == pos + 2 + i
        invariant buffer[pos + 2..end] == s[..i] && buffer[..pos] == old(buffer[..pos])
      {
        Store(pos + 2, end, s[i]);
        end := end + 1;
        i := i + 1;
      }
      buffer[end - i - 2] := i / 0x100;
      buffer[end - i - 1] := i % 0x100;
      assert s[..i] == s;
      assert buffer[pos..end] == [buffer[pos], buffer[pos + 1]] + buffer[pos + 2..end];
    }

    /** The digits of a length. */
    method LengthDigits(length: nat) returns (digits: seq<Byte>)
      ensures digits == Encode(length)
    {
      var len := length;
      digits := [];
      while true
        invariant digits + Encode(len) == Encode(length)
        decreases len
      {
        var digit: Byte := len % 128;
        var rest := len / 128;
        if rest > 0 {
          digit := digit + 128;
        }
        assert digits + Encode(len) == digits + [digit] + (if rest > 0 then Encode(rest) else []);
        digits := digits + [digit];
        len := rest;
        if len == 0 {
          break;
        }
      }
    }

    /** write: header and length go in front of the body, which begins at 5 in the buffer. */
    method WritePacket(header: Byte, length: nat) returns (ok: bool)
      requires Valid() && 5 + length <= MQTT_MAX_PACKET_SIZE
      modifies this`output, buffer
      ensures output == old(output) + ([header] + Encode(length) + old(buffer[5..5 + length]))
    {
      var digits := LengthDigits(length);
      EncodeLength(length);
      var llen := |digits|;
      buffer[4 - llen] := header;
      var i := 0;
      while i < llen
        invariant 0 <= i <= llen && buffer[4 - llen] == header && output == old(output)
        invariant buffer[5 - llen..5 - llen + i] == digits[..i] && buffer[5..5 + length] == old(buffer[5..5 + length])
      {
        buffer[5 - llen + i] := digits[i];
        i := i + 1;
      }
      assert digits[..llen] == digits;
      var packet := buffer[4 - llen..5 + length];
      assert buffer[5 - llen..5 - llen + i] == digits;
      ghost var whole := [header] + Encode(length) + old(buffer[5..5 + length]);
      assert packet == whole;
      output := output + packet;
      ok := *;
    }

    /** publish, for a topic without NUL bytes, on a connection that is up. */
    method Publish(topic: seq<Byte>, payload: seq<Byte>, retained: bool) returns (ok: bool)
      requires Valid() && 0 !in topic
      modifies this`output, buffer
      ensures if MQTT_MAX_PACKET_SIZE < 7 + |topic| + |payload| then !ok && output == old(output)
        else output == old(output) + MqttPackets.Publish(topic, payload, retained)
    {
      if MQTT_MAX_PACKET_SIZE < 5 + 2 + |topic| + |payload| {
        return false;
      }
      var length := WriteString(topic, 5);
      var i := 0;
      while i < |payload|
        invariant 0 <= i <= |payload| && length == 7 + |topic| + i && output == old(output)
        invariant buffer[5..7 + |topic|] == Text(topic) && buffer[7 + |topic|..length] == payload[..i]
      {
        Store(7 + |topic|, length, payload[i]);
        length := length + 1;
        i := i + 1;
      }
      assert payload[..i] == payload;
      assert buffer[5..length] == buffer[5..7 + |topic|] + buffer[7 + |topic|..length];
      var header: Byte := MQTTPUBLISH;
      if retained {
        header := header + 1;
      }
      Published(topic, payload, retained, header, buffer[5..length]);
      ok := WritePacket(header, length - 5);
    }

    /** readByte, None on a timeout. */
    method ReadByte() returns (b: Option<Byte>)
      modifies this`input
      ensures if old(input) == [] then b == None && input == []
        else b == Some(old(input)[0]) && input == old(input)[1..]
    {
      if input == [] {
        b := None;
      } else {
        b := Some(input[0]);
        input := input[1..];
      }
    }

    /** One digit of the remaining length, whose sum has sixteen bits. */
    method AddDigit(digit: Byte, multiplier: nat, length: nat, ghost total: nat)
      returns (length': nat, ghost total': nat)
      requires length == total % 0x1_0000
      ensures total' == total + digit % 128 * multiplier && length' == total' % 0x1_0000
    {
      var d: nat := digit % 128 * multiplier;
      Remainders.WordSum(total, d);
      length' := (length + d) % 0x1_0000;
      total' := total + d;
    }

    /** The loop over the digits of the remaining length. */
    method ReadLength() returns (ok: bool, length: nat, len: nat)
      requires Valid() && LengthBytes(input) <= 4
      modifies this`input, buffer
      ensures ok == Decode(old(input)).Some?
      ensures ok ==>
        var (v, c) := Decode(old(input)).value;
        length == v % 0x1_0000 && len == 1 + c <= 5 && input == old(input)[c..]
        && buffer[0] == old(buffer[0]) && buffer[1..len] == old(input)[..c]
    {
      length, len := 0, 1;
      var multiplier: nat := 1;
      ghost var total: nat, start := 0, input;
      while true
        invariant Reading(start, input, total, multiplier) && LengthBytes(start) <= 4
        invariant len == |start| - |input| + 1 && input == start[len - 1..] && length == total % 0x1_0000
        invariant buffer[0] == old(buffer[0]) && len <= 5 && buffer[1..len] == start[..len - 1]
        decreases |input|
      {
        if input != [] {
          ReadingStep(start, input, total, multiplier);
        }
        var digit := ReadByte();
        if digit == None {
          return false, length, len;
        }
        Store(1, len, digit.value);
        len := len + 1;
        length, total := AddDigit(digit.value, multiplier, length, total);
        multiplier := multiplier * 128;
        if digit.value < 128 {
          break;
        }
      }
      ok := true;
    }

    /** The bytes of the packet read so far are at the beginning of the buffer, as far as it reaches. */
    ghost predicate Buffered(start: seq<Byte>, len: nat)
      reads this, buffer
    {
      && Valid() && |input| <= |start| && input == start[|start| - |input|..]
      && var k := |start| - |input|;
      && (k < 0x1_0000 ==> len == k)
      && (k <= MQTT_MAX_PACKET_SIZE ==> buffer[..k] == start[..k])
    }

    /** One more byte, kept if the buffer has room for it. */
    method TakeByte(len: nat, ghost start: seq<Byte>) returns (ok: bool, next: nat)
      requires Buffered(start, len) && 0 <= len < 0x1_0000
      modifies this`input, buffer
      ensures Buffered(start, next) && next < 0x1_0000 && ok == (old(input) != [])
      ensures |input| == |old(input)| - if ok then 1 else 0
    {
      ghost var k := |start| - |input|;
      var digit := ReadByte();
      if digit == None {
        return false, len;
      }
      if len < MQTT_MAX_PACKET_SIZE {
        ghost var before := buffer[..];
        buffer[len] := digit.value;
        if k < MQTT_MAX_PACKET_SIZE {
          assert buffer[..k + 1] == before[..k] + [digit.value];
          assert start[..k + 1] == start[..k] + [digit.value];
        }
      }
      ok, next := true, (len + 1) % 0x1_0000;
    }

    /** readPacket, without a stream: len is 0 when the packet is incomplete or does not fit the buffer. */
    method ReadPacket() returns (len: nat, llen: nat)
      requires Valid() && (input != [] ==> LengthBytes(input[1..]) <= 4)
      modifies this`input, buffer
      ensures Valid() && len < 0x1_0000 && (PacketLength(old(input)) == None ==> len == 0)
      ensures PacketLength(old(input)).Some? && PacketLength(old(input)).value < 0x1_0000 ==>
        var n := PacketLength(old(input)).value;
        && len == (if n > MQTT_MAX_PACKET_SIZE then 0 else n) && input == old(input)[n..]
        && llen == Decode(old(input)[1..]).value.1
        && (len > 0 ==> buffer[..len] == old(input)[..n])
    {
      ghost var start := input;
      llen := 0;
      var header := ReadByte();
      if header == None {
        return 0, llen;
      }
      buffer[0] := header.value;
      var ok, length;
      ok, length, len := ReadLength();
      if !ok {
        return 0, llen;
      }
      llen := len - 1;
      HeaderBuffered(start, len, header.value);
      len := ReadBody(start, len, length, IsPublish(header.value));
    }

    ghost method HeaderBuffered(start: seq<Byte>, len: nat, header: Byte)
      requires Valid() && 1 <= len <= 5 && len <= |start| && start[0] == header == buffer[0]
      requires buffer[1..len] == start[1..][..len - 1] && input == start[1..][len - 1..]
      ensures Buffered(start, len)
    {
      assert buffer[..len] == [header] + buffer[1..len];
      assert start[..len] == [header] + start[1..][..len - 1];
    }

    /** The part of readPacket behind the remaining length. */
    method ReadBody(ghost start: seq<Byte>, len0: nat, length: nat, publish: bool) returns (len: nat)
      requires Buffered(start, len0) && len0 <= 5 && length < 0x1_0000 && |start| - |input| == len0
      modifies this`input, buffer
      ensures Valid() && len < 0x1_0000
      ensures
        var n := len0 + if publish && length < 2 then 2 else length;
        && (n > |start| ==> len == 0)
        && (n <= |start| && n < 0x1_0000 ==>
          && len == (if n > MQTT_MAX_PACKET_SIZE then 0 else n) && input == start[n..]
          && (len > 0 ==> buffer[..len] == start[..n]))
    {
      len := len0;
      var i := 0;
      var ok;
      if publish {
        ok, len := TakeByte(len, start);
        if !ok {
          return 0;
        }
        ok, len := TakeByte(len, start);
        if !ok {
          return 0;
        }
        i := 2;
      }
      while i < length
        invariant Buffered(start, len) && len < 0x1_0000
        invariant |start| - |input| == len0 + i && (i <= length || (publish && i == 2))
      {
        ok, len := TakeByte(len, start);
        if !ok {
          return 0;
        }
        i := i + 1;
      }
      if len > MQTT_MAX_PACKET_SIZE {
        len := 0;
      }
    }

    /** The packet that loop would handle next, if it is complete and fits the buffer. */
    ghost function Next(): Option<seq<Byte>>
      reads this
    {
      match PacketLength(input)
      case None => None
      case Some(n) => if n <= MQTT_MAX_PACKET_SIZE then Some(input[..n]) else None
    }

    /** A PUBLISH packet whose topic, and message id if it has one, lie inside it. */
    static ghost predicate WellFormed(p: seq<Byte>, llen: nat)
      requires p != []
    {
      IsPublish(p[0]) ==>
        TopicOf(p, llen).Some? && (p[0] / 2 % 4 == 1 ==> llen + 5 + |TopicOf(p, llen).value| <= |p|)
    }

    /** The PUBLISH branch of loop, with a packet of len bytes in the buffer. */
    method Deliver(len: nat, llen: nat)
      requires Valid() && 0 < len <= MQTT_MAX_PACKET_SIZE && 1 <= llen && TopicOf(buffer[..len], llen).Some?
      requires buffer[0] / 2 % 4 == 1 ==> llen + 5 + |TopicOf(buffer[..len], llen).value| <= len
      modifies this`delivered, this`output, buffer
      ensures
        var p := old(buffer[..len]);
        var topic := TopicOf(p, llen).value;
        var body := p[llen + 3 + |topic|..];
        if p[0] / 2 % 4 == 1 then
          && delivered == old(delivered) + [Delivery(topic, body[2..])]
          && output == old(output) + [0x40, 2, body[0], body[1]]
        else
          delivered == old(delivered) + [Delivery(topic, body)] && output == old(output)
    {
      ghost var p := buffer[..len];
      var tl := Word(buffer[llen + 1], buffer[llen + 2]);
      var topic := [];
      var i := 0;
      while i < tl
        invariant 0 <= i <= tl && topic == p[llen + 3..llen + 3 + i]
        invariant delivered == old(delivered) && output == old(output) && buffer[..len] == p
      {
        assert buffer[llen + 3 + i] == p[llen + 3 + i];
        topic := topic + [buffer[llen + 3 + i]];
        i := i + 1;
      }
      assert buffer[llen + 3 + tl..len] == p[llen + 3 + tl..];
      if buffer[0] / 2 % 4 == 1 {
        assert buffer[llen + 3 + tl + 2..len] == p[llen + 3 + tl..][2..];
        var high, low := buffer[llen + 3 + tl], buffer[llen + 3 + tl + 1];
        delivered := delivered + [Delivery(topic, buffer[llen + 3 + tl + 2..len])];
        buffer[0], buffer[1], buffer[2], buffer[3] := 0x40, 2, high, low;
        output := output + buffer[..4];
        assert buffer[..4] == [0x40, 2, high, low];
      } else {
        delivered := delivered + [Delivery(topic, buffer[llen + 3 + tl..len])];
      }
    }

    /** The calls of the callback and the bytes sent back for a packet whose remaining length takes llen bytes. */
    static ghost function Reaction(p: seq<Byte>, llen: nat): (seq<Delivery>, seq<Byte>)
      requires p != [] && WellFormed(p, llen)
    {
      if 0x30 <= p[0] < 0x40 then
        var topic := TopicOf(p, llen).value;
        var body := p[llen + 3 + |topic|..];
        if p[0] / 2 % 4 == 1 then ([Delivery(topic, body[2..])], [0x40, 2, body[0], body[1]])
        else ([Delivery(topic, body)], [])
      else if p[0] / 0x10 == 12 then ([], [0xd0, 0])
      else ([], [])
    }

    /** loop, when the connection has bytes: one packet is read and handled. */
    method Loop()
      requires Valid() && (input != [] ==> LengthBytes(input[1..]) <= 4)
      requires Next().Some? ==> Decode(input[1..]).Some? && WellFormed(Next().value, Decode(input[1..]).value.1)
      requires PacketLength(input).Some? ==> PacketLength(input).value < 0x1_0000
      modifies this`input, this`delivered, this`output, buffer
      ensures Valid() && (old(Next()) == None ==> delivered == old(delivered) && output == old(output))
      ensures old(Next()).Some? ==>
        var p := old(Next()).value;
        var (calls, answer) := Reaction(p, Decode(old(input)[1..]).value.1);
        && input == old(input)[|p|..] && delivered == old(delivered) + calls && output == old(output) + answer
    {
      ghost var start := input;
      var len, llen := ReadPacket();
      if len > 0 {
        assert buffer[..len] == start[..len];
        if IsPublish(buffer[0]) {
          Deliver(len, llen);
        } else if buffer[0] / 0x10 == 12 {
          buffer[0], buffer[1] := 0xd0, 0;
          output := output + buffer[..2];
        }
      }
    }
  }

  /** What publish accepts, the loop of another client hands to its callback: exactly that topic and payload. */
  method Carry(sender: Client, receiver: Client, topic: seq<Byte>, payload: seq<Byte>, retained: bool)
    requires sender.Valid() && receiver.Valid() && sender != receiver && sender.buffer != receiver.buffer
    requires 0 !in topic && 7 + |topic| + |payload| <= MQTT_MAX_PACKET_SIZE
    modifies sender, receiver, sender.buffer, receiver.buffer
    ensures receiver.delivered == old(receiver.delivered) + [Delivery(topic, payload)]
    ensures receiver.input == []
  {
    var sent := |sender.output|;
    var _ := sender.Publish(topic, payload, retained);
    receiver.input := sender.output[sent..];
    assert receiver.input == MqttPackets.Publish(topic, payload, retained);
    Hear(receiver, topic, payload, retained);
  }

  /** The loop of a client that has one published packet before it. */
  method Hear(receiver: Client, ghost topic: seq<Byte>, ghost payload: seq<Byte>, ghost retained: bool)
    requires receiver.Valid() && 0 !in topic && 7 + |topic| + |payload| <= MQTT_MAX_PACKET_SIZE
    requires receiver.input == MqttPackets.Publish(topic, payload, retained)
    modifies receiver, receiver.buffer
    ensures receiver.delivered == old(receiver.delivered) + [Delivery(topic, payload)]
    ensures receiver.input == []
  {
    ghost var p := receiver.input;
    PublishDelimited(topic, payload, retained, p);
    receiver.Loop();
    assert p[|p|..] == [];
  }

  /** What loop finds in a published packet: all of it, and one call of the callback. */
  lemma PublishDelimited(topic: seq<Byte>, payload: seq<Byte>, retained: bool, p: seq<Byte>)
    requires 7 + |topic| + |payload| <= MQTT_MAX_PACKET_SIZE && p == MqttPackets.Publish(topic, payload, retained)
    ensures p != [] && PacketLength(p) == Some(|p|) && |p| <= MQTT_MAX_PACKET_SIZE && p[..|p|] == p
    ensures LengthBytes(p[1..]) == 1 && Decode(p[1..]).Some? && Decode(p[1..]).value.1 == 1
    ensures Client.WellFormed(p, 1) && Client.Reaction(p, 1) == ([Delivery(topic, payload)], [])
  {
    assert p == p + [];
    PublishIsRead(topic, payload, retained, []);
    PublishParts(topic, payload, retained);
    ShortLength(topic, payload, retained);
  }

  lemma ShortLength(topic: seq<Byte>, payload: seq<Byte>, retained: bool)
    requires 7 + |topic| + |payload| <= MQTT_MAX_PACKET_SIZE
    ensures
      var p, n := MqttPackets.Publish(topic, payload, retained), 2 + |topic| + |payload|;
      && Encode(n) == [n] && LengthBytes(p[1..]) == 1 && Decode(p[1..]) == Some((n, 1)) && |p| <= MQTT_MAX_PACKET_SIZE
  {
    var p := MqttPackets.Publish(topic, payload, retained);
    assert p[1..][0] == 2 + |topic| + |payload|;
  }
}
