/** Packets of MQTT 3.1.1: the remaining length (section 2.2.3) and PUBLISH (section 3.3). */
module MqttPackets {
  import opened Bytes
  import opened Options

  const MQTTPUBLISH: Byte := 0x30

  /** A number in base 128, lowest digit first; every digit but the last has its top bit set. */
  function Encode(n: nat): (s: seq<Byte>)
    ensures s != []
  {
    if n < 128 then [n] else [n % 128 + 128] + Encode(n / 128)
  }

  /** The number at the beginning of s and how many bytes it takes. */
  function Decode(s: seq<Byte>): (r: Option<(nat, nat)>)
    ensures r.Some? ==> 1 <= r.value.1 <= |s|
  {
    if s == [] then None
    else if s[0] < 128 then Some((s[0], 1))
    else
      match Decode(s[1..])
      case None => None
      case Some((v, c)) => Some((s[0] - 128 + 128 * v, c + 1))
  }

  /** How many bytes a reader takes for the remaining length at the beginning of s, if s does not end before. */
  function LengthBytes(s: seq<Byte>): (c: nat)
    ensures c <= |s|
  {
    if s == [] then 0 else if s[0] < 128 then 1 else 1 + LengthBytes(s[1..])
  }

  lemma Behind(digit: Byte, more: seq<Byte>, rest: seq<Byte>)
    ensures ([digit] + more + rest)[0] == digit && ([digit] + more + rest)[1..] == more + rest
  {
  }

  lemma {:induction false} DecodeEncode(n: nat, rest: seq<Byte>)
    ensures Decode(Encode(n) + rest) == Some((n, |Encode(n)|))
  {
    if n < 128 {
    } else {
      var digit, more := n % 128 + 128, Encode(n / 128);
      DecodeEncode(n / 128, rest);
      Behind(digit, more, rest);
      assert Encode(n) == [digit] + more && digit - 128 + 128 * (n / 128) == n;
    }
  }

  /** What decodes to n is at least as long as the encoding of n. */
  lemma {:induction false} EncodeIsMinimal(s: seq<Byte>)
    requires Decode(s).Some?
    ensures |Encode(Decode(s).value.0)| <= Decode(s).value.1
  {
    if s[0] < 128 {
    } else {
      EncodeIsMinimal(s[1..]);
      var v := Decode(s[1..]).value.0;
      var n := s[0] - 128 + 128 * v;
      if n >= 128 {
        assert n / 128 == v;
      }
    }
  }

  lemma {:induction false} ZeroEnds(s: seq<Byte>)
    requires Decode(s).Some? && Decode(s).value.0 == 0
    ensures s[Decode(s).value.1 - 1] == 0
  {
    if s[0] < 128 {
    } else {
      ZeroEnds(s[1..]);
    }
  }

  /** Encoding what was decoded gives the same bytes, exactly if they do not end in a needless zero. */
  lemma {:induction false} EncodeDecode(s: seq<Byte>)
    requires Decode(s).Some?
    ensures var (v, c) := Decode(s).value;
      Encode(v) == s[..c] <==> c == 1 || s[c - 1] != 0
  {
    if s[0] >= 128 {
      var (v, c) := Decode(s[1..]).value;
      EncodeDecode(s[1..]);
      assert s[..c + 1] == [s[0]] + s[1..][..c];
      if v == 0 {
        ZeroEnds(s[1..]);
      } else {
        var n := s[0] - 128 + 128 * v;
        assert n / 128 == v && n % 128 == s[0] - 128;
        assert Encode(n)[1..] == Encode(v) && s[..c + 1][1..] == s[1..][..c];
      }
    } else {
      assert s[..1] == [s[0]];
    }
  }

  /** At most three bytes for a 16-bit length. */
  lemma EncodeLength(n: nat)
    requires n < 0x1_0000
    ensures |Encode(n)| == if n < 128 then 1 else if n < 0x4000 then 2 else 3
  {
    if 128 <= n {
      assert n / 128 < 128 <==> n < 0x4000;
      if n >= 0x4000 {
        assert n / 128 / 128 < 128;
      }
    }
  }

  function Word(high: nat, low: nat): nat {
    0x100 * high + low
  }

  /** A string with its length in two bytes before it. */
  function Text(s: seq<Byte>): (t: seq<Byte>)
    requires |s| < 0x1_0000
    ensures |t| == 2 + |s|
  {
    [|s| / 0x100, |s| % 0x100] + s
  }

  /** A PUBLISH packet of quality of service 0. */
  function Publish(topic: seq<Byte>, payload: seq<Byte>, retained: bool): seq<Byte>
    requires |topic| < 0x1_0000
  {
    [if retained then MQTTPUBLISH + 1 else MQTTPUBLISH] + Encode(2 + |topic| + |payload|) + Text(topic) + payload
  }

  // What readPacket takes from the wire

  predicate IsPublish(header: Byte) {
    header / 0x10 == 3
  }

  /**
   The bytes of the packet at the beginning of s: header, remaining length, and as many bytes as that says; of a
   PUBLISH at least the two bytes of the topic length are read.  None if s ends before.
   */
  function PacketLength(s: seq<Byte>): (n: Option<nat>)
    ensures n.Some? ==> 1 < n.value <= |s|
  {
    if s == [] then None
    else
      match Decode(s[1..])
      case None => None
      case Some((v, c)) =>
        var body := v % 0x1_0000;
        var n := 1 + c + if IsPublish(s[0]) && body < 2 then 2 else body;
        if n <= |s| then Some(n) else None
  }

  /** A published packet is read whole, whatever follows it. */
  lemma PublishIsRead(topic: seq<Byte>, payload: seq<Byte>, retained: bool, rest: seq<Byte>)
    requires 2 + |topic| + |payload| < 0x1_0000
    ensures
      var p := Publish(topic, payload, retained);
      PacketLength(p + rest) == Some(|p|)
  {
    var p := Publish(topic, payload, retained);
    var code := Encode(2 + |topic| + |payload|);
    DecodeEncode(2 + |topic| + |payload|, Text(topic) + payload + rest);
    assert (p + rest)[1..] == code + (Text(topic) + payload + rest);
  }

  /** Topic and payload of a PUBLISH of quality of service 0 whose remaining length takes llen bytes. */
  function TopicOf(p: seq<Byte>, llen: nat): Option<seq<Byte>> {
    if |p| < llen + 3 then None
    else
      var tl := Word(p[llen + 1], p[llen + 2]);
      if llen + 3 + tl <= |p| then Some(p[llen + 3..llen + 3 + tl]) else None
  }

  lemma PublishParts(topic: seq<Byte>, payload: seq<Byte>, retained: bool)
    requires |topic| < 0x1_0000
    ensures
      var p, llen := Publish(topic, payload, retained), |Encode(2 + |topic| + |payload|)|;
      && |p| == llen + 3 + |topic| + |payload| && p[0] == (if retained then 0x31 else 0x30) && IsPublish(p[0])
      && 0x100 * p[llen + 1] as int + p[llen + 2] as int == |topic|
      && TopicOf(p, llen) == Some(topic) && p[llen + 3 + |topic|..] == payload
  {
    var p, code := Publish(topic, payload, retained), Encode(2 + |topic| + |payload|);
    var llen := |code|;
    assert p[llen + 1] == |topic| / 0x100 && p[llen + 2] == |topic| % 0x100;
    assert p[llen + 3..llen + 3 + |topic|] == topic;
  }
}
