/** MyProtocolMySensors.cpp: messages as lines of text for the controller. */
module Protocol {
  import opened Bytes
  import opened MessageTypes
  import opened MyMessages
  import opened TextFields

  const GATEWAY_ADDRESS: Byte := 0
  const MY_GATEWAY_MAX_SEND_LENGTH := 120

  // From text

  /** What the loop of protocolParse does to the message with token number i. */
  function TakeField(m: Message, i: nat, token: seq<Byte>): Message {
    if i == 0 then m.(destination := ToByte(Atoi(token)))
    else if i == 1 then m.(sensor := ToByte(Atoi(token)))
    else if i == 2 then m.WithCommand(ToByte(Atoi(token)))
    else if i == 4 then m.(mtype := ToByte(Atoi(token)))
    else m
  }

  function TakeFields(m: Message, tokens: seq<seq<Byte>>): Message {
    if tokens == [] then m
    else
      var n := |tokens| - 1;
      TakeField(TakeFields(m, tokens[..n]), n, tokens[n])
  }

  lemma TakeFieldsStep(m: Message, tokens: seq<seq<Byte>>, i: nat)
    requires i < |tokens|
    ensures TakeFields(m, tokens[..i + 1]) == TakeField(TakeFields(m, tokens[..i]), i, tokens[i])
    ensures i >= 5 ==> TakeFields(m, tokens[..i + 1]) == TakeFields(m, tokens[..i])
  {
    assert tokens[..i + 1][..i] == tokens[..i];
  }

  /** The number in token i, or zero. */
  function Number(tokens: seq<seq<Byte>>, i: nat): Byte {
    if i < |tokens| then ToByte(Atoi(tokens[i])) else 0
  }

  /** Text without the carriage return or newline at its end; the position of the end is a uint8_t. */
  function Stripped(v: seq<Byte>): seq<Byte>
    requires v != []
  {
    var k := (|v| - 1) % 0x100;
    if v[k] == RETURN || v[k] == NEWLINE then v[..k] else v
  }

  /** A payload in hexadecimal consists of whole bytes, and not too many. */
  predicate HexFits(tokens: seq<seq<Byte>>) {
    |tokens| > 5 && Number(tokens, 2) == C_STREAM ==> |tokens[5]| % 2 == 0 && |tokens[5]| <= 2 * MAX_PAYLOAD
  }

  /** The end of protocolParse. */
  function Completed(m: Message, command: Byte, ack: Byte, payload: seq<Byte>): Message {
    var f := m.(sender := GATEWAY_ADDRESS, last := GATEWAY_ADDRESS).WithAcks(ack != 0, false);
    if command == C_STREAM then CustomSet(f, payload) else StringSet(f, payload)
  }

  function PayloadIn(tokens: seq<seq<Byte>>): seq<Byte>
    requires HexFits(tokens) && forall i :: 0 <= i < |tokens| ==> tokens[i] != []
  {
    if |tokens| <= 5 then []
    else if Number(tokens, 2) == C_STREAM then FromHex(tokens[5])
    else Stripped(tokens[5])
  }

  /** The message that protocolParse makes of at least five tokens. */
  function Parsed(m: Message, tokens: seq<seq<Byte>>): Message
    requires |tokens| >= 5 && HexFits(tokens) && forall i :: 0 <= i < |tokens| ==> tokens[i] != []
  {
    Completed(TakeFields(m, tokens[..5]), Number(tokens, 2), Number(tokens, 3), PayloadIn(tokens))
  }

  lemma AllPlain(t: seq<Byte>)
    ensures forall i :: 0 <= i < |Tokens(t)| ==> Tokens(t)[i] != [] && SEMICOLON !in Tokens(t)[i]
  {
    forall i | 0 <= i < |Tokens(t)|
      ensures Tokens(t)[i] != [] && SEMICOLON !in Tokens(t)[i]
    {
      TokensArePlain(t, i);
    }
  }

  // To text

  /** The characters up to a NUL. */
  function Terminated(s: seq<Byte>): (t: seq<Byte>)
    ensures t <= s && 0 !in t && (0 !in s ==> t == s)
  {
    if s == [] || s[0] == 0 then [] else [s[0]] + Terminated(s[1..])
  }

  /** Bytes as a number, the lowest first. */
  function Unsigned(s: seq<Byte>): nat {
    if s == [] then 0 else s[0] + 0x100 * Unsigned(s[1..])
  }

  function Signed(n: nat, limit: nat): int {
    if n < limit then n else n - 2 * limit
  }

  predicate IsNumber(m: Message) {
    P_BYTE <= m.PayloadType() <= P_ULONG32
  }

  /** The number in the payload. */
  function NumberOf(payloadType: nat, data: Data): int {
    if payloadType == P_BYTE then data[0]
    else if payloadType == P_INT16 then Signed(Unsigned(data[..2]), 0x8000)
    else if payloadType == P_UINT16 then Unsigned(data[..2])
    else if payloadType == P_LONG32 then Signed(Unsigned(data[..4]), 0x8000_0000)
    else Unsigned(data[..4])
  }

  /**
   The number by its bytes, the lowest first: of the signed types it is the one number in their range that has these
   bytes in two's complement.
   */
  lemma NumberByBytes(payloadType: nat, data: Data)
    ensures
      var n := NumberOf(payloadType, data);
      var low: int := data[0] as int + 0x100 * data[1] as int;
      var all: int := low + 0x1_0000 * data[2] as int + 0x100_0000 * data[3] as int;
      && (payloadType == P_BYTE ==> n == data[0])
      && (payloadType == P_INT16 ==> -0x8000 <= n < 0x8000 && (n == low || n == low - 0x1_0000))
      && (payloadType == P_UINT16 ==> n == low)
      && (payloadType == P_LONG32 ==> -0x8000_0000 <= n < 0x8000_0000 && (n == all || n == all - 0x1_0000_0000))
      && (payloadType == P_ULONG32 ==> n == all)
  {
    UnsignedTwo(data[0], data[1], []);
    UnsignedTwo(data[2], data[3], []);
    UnsignedTwo(data[0], data[1], [data[2], data[3]]);
    assert data[..2] == [data[0], data[1]] + [] && data[..4] == [data[0], data[1]] + [data[2], data[3]];
    assert [data[2], data[3]] == [data[2], data[3]] + [];
  }

  lemma {:induction false} UnsignedTwo(a: Byte, b: Byte, rest: seq<Byte>)
    ensures Unsigned([a, b] + rest) == a + 0x100 * b + 0x1_0000 * Unsigned(rest)
  {
    assert ([a, b] + rest)[1..] == [b] + rest && ([b] + rest)[1..] == rest;
  }

  /** getString(buffer), as far as printf reads it. */
  function TextOf(m: Message): seq<Byte>
    requires m.Length() <= MAX_PAYLOAD && m.PayloadType() != P_FLOAT32
  {
    if m.PayloadType() == P_STRING then Terminated(m.Payload())
    else if m.PayloadType() == P_CUSTOM then Hex(m.Payload())
    else Decimal(NumberOf(m.PayloadType(), m.data))
  }

  /** printf with %d; for each number. */
  function Fields(numbers: seq<int>, t: seq<Byte>): seq<Byte> {
    if numbers == [] then t else Decimal(numbers[0]) + [SEMICOLON] + Fields(numbers[1..], t)
  }

  function Numbers(m: Message): seq<int> {
    [m.sender, m.sensor, m.Command(), if m.Ack() then 1 else 0, m.mtype]
  }

  /** The line for a message, without the newline at its end. */
  function Line(m: Message): seq<Byte>
    requires m.Length() <= MAX_PAYLOAD && m.PayloadType() != P_FLOAT32
  {
    Fields(Numbers(m), TextOf(m))
  }

  // Round trips

  function Texts(numbers: seq<int>): (t: seq<seq<Byte>>)
    ensures |t| == |numbers| && forall i :: 0 <= i < |t| ==> t[i] == Decimal(numbers[i])
  {
    seq(|numbers|, i requires 0 <= i < |numbers| => Decimal(numbers[i]))
  }

  lemma TextsStep(numbers: seq<int>, rest: seq<seq<Byte>>)
    requires numbers != []
    ensures [Decimal(numbers[0])] + (Texts(numbers[1..]) + rest) == Texts(numbers) + rest
  {
    assert Texts(numbers) == [Decimal(numbers[0])] + Texts(numbers[1..]);
  }

  /** Numbers and what follows them are split again. */
  lemma {:induction false} FieldsAreTokens(numbers: seq<int>, t: seq<Byte>)
    ensures Tokens(Fields(numbers, t)) == Texts(numbers) + Tokens(t)
  {
    if numbers == [] {
      assert Texts(numbers) == [];
    } else {
      FieldsAreTokens(numbers[1..], t);
      TokensOfField(Decimal(numbers[0]), Fields(numbers[1..], t));
      TextsStep(numbers, Tokens(t));
    }
  }

  lemma ByteIsRead(n: Byte)
    ensures ToByte(Atoi(Decimal(n))) == n
  {
    AtoiDecimal(n);
  }

  /** The message n says what m says, from the gateway to the sender of m; the ack flag becomes a request. */
  predicate Turned(m: Message, n: Message) {
    && n.sender == n.last == GATEWAY_ADDRESS && n.destination == m.sender && n.sensor == m.sensor && n.mtype == m.mtype
    && n.Command() == m.Command() && n.RequestAck() == m.Ack() && !n.Ack()
  }

  /** What five tokens with these numbers do. */
  lemma FiveFields(n: Message, h: seq<seq<Byte>>)
    requires |h| == 5
    ensures TakeFields(n, h) ==
      n.(destination := Number(h, 0), sensor := Number(h, 1)).WithCommand(Number(h, 2)).(mtype := Number(h, 4))
  {
    TakeFieldsStep(n, h, 0);
    TakeFieldsStep(n, h, 1);
    TakeFieldsStep(n, h, 2);
    TakeFieldsStep(n, h, 3);
    TakeFieldsStep(n, h, 4);
    assert h[..5] == h;
  }

  /** The message n after the numbers of m. */
  function Addressed(m: Message, n: Message): Message {
    n.(destination := m.sender, sensor := m.sensor).WithCommand(m.Command()).(mtype := m.mtype)
  }

  lemma NumbersAreRead(m: Message, n: Message, tokens: seq<seq<Byte>>)
    requires |tokens| >= 5 && tokens[..5] == Texts(Numbers(m))
    ensures Number(tokens, 2) == m.Command() && Number(tokens, 3) == if m.Ack() then 1 else 0
    ensures TakeFields(n, tokens[..5]) == Addressed(m, n)
  {
    var h := tokens[..5];
    FiveFields(n, h);
    assert tokens[2] == h[2] && tokens[3] == h[3];
    ByteIsRead(m.sender);
    ByteIsRead(m.sensor);
    ByteIsRead(m.Command());
    ByteIsRead(if m.Ack() then 1 else 0);
    ByteIsRead(m.mtype);
  }

  lemma AddressedCommand(m: Message, n: Message)
    ensures Addressed(m, n).Command() == m.Command()
  {
    CommandAckPayloadFields(m.Command(), n.RequestAck(), n.Ack(), n.PayloadType());
  }

  lemma AddressedIsTurned(m: Message, n: Message)
    ensures Turned(m, Addressed(m, n).(sender := GATEWAY_ADDRESS, last := GATEWAY_ADDRESS).WithAcks(m.Ack(), false))
  {
    var f := Addressed(m, n);
    AddressedCommand(m, n);
    CommandAckPayloadFields(f.Command(), m.Ack(), false, f.PayloadType());
  }

  lemma CompletedIsTurned(m: Message, n: Message, payload: seq<Byte>)
    requires |payload| <= MAX_PAYLOAD
    ensures var r := Completed(Addressed(m, n), m.Command(), if m.Ack() then 1 else 0, payload);
      && Turned(m, r) && r.Length() == |payload| && r.Payload() == payload
      && r.PayloadType() == if m.Command() == C_STREAM then P_CUSTOM else P_STRING
  {
    var g := Addressed(m, n).(sender := GATEWAY_ADDRESS, last := GATEWAY_ADDRESS).WithAcks(m.Ack(), false);
    AddressedIsTurned(m, n);
    CustomSetFields(g, payload);
    StringSetFields(g, payload);
  }

  /** A line is parsed into a message with what its payload token holds. */
  lemma LineIsParsed(m: Message, n: Message)
    requires m.Length() <= MAX_PAYLOAD && m.PayloadType() != P_FLOAT32 && HexFits(Tokens(Line(m)))
    requires forall i :: 0 <= i < |Tokens(Line(m))| ==> Tokens(Line(m))[i] != []
    requires |Tokens(Line(m))| >= 5 && |PayloadIn(Tokens(Line(m)))| <= MAX_PAYLOAD
    ensures var payload := PayloadIn(Tokens(Line(m)));
      var r := Parsed(n, Tokens(Line(m)));
      && Turned(m, r) && r.Length() == |payload| && r.Payload() == payload
      && r.PayloadType() == if m.Command() == C_STREAM then P_CUSTOM else P_STRING
  {
    FieldsAreTokens(Numbers(m), TextOf(m));
    NumbersAreRead(m, n, Tokens(Line(m)));
    CompletedIsTurned(m, n, PayloadIn(Tokens(Line(m))));
  }

  /** Text that a line carries unchanged. */
  predicate Plain(p: seq<Byte>) {
    && SEMICOLON !in p && 0 !in p
    && (p != [] ==> p[|p| - 1] != RETURN && p[|p| - 1] != NEWLINE)
  }

  /** The tokens of a line, with what the parser asks of them. */
  ghost predicate Parses(tokens: seq<seq<Byte>>) {
    |tokens| >= 5 && HexFits(tokens) && forall i :: 0 <= i < |tokens| ==> tokens[i] != []
  }

  /** The payload that comes back from a text: its first token, if it has one, without the end of a line. */
  ghost function Returned(p: seq<Byte>): seq<Byte> {
    var t := Tokens(Terminated(p));
    if t == [] || t[0] == [] then [] else Stripped(t[0])
  }

  lemma PlainReturns(p: seq<Byte>)
    requires SEMICOLON !in p && 0 !in p
    ensures Returned(p) == if p == [] then [] else Stripped(p)
  {
    TokensOfLast(p);
  }

  lemma ReturnedIsPlain(p: seq<Byte>)
    ensures SEMICOLON !in Returned(p) && 0 !in Returned(p) && |Returned(p)| <= |p|
  {
    var t := Terminated(p);
    if Tokens(t) != [] {
      TokensArePlain(t, 0);
      FirstTokenIsPart(t);
    }
  }

  lemma TextSurvives(p: seq<Byte>)
    requires |p| <= MAX_PAYLOAD
    ensures Returned(p) == p <==> Plain(p)
  {
    ReturnedIsPlain(p);
    if SEMICOLON !in p && 0 !in p {
      PlainReturns(p);
    }
  }

  /** A text payload comes back unchanged exactly if it is plain; everything else always does. */
  lemma StringRoundTrip(m: Message, n: Message)
    requires m.Length() <= MAX_PAYLOAD && m.PayloadType() == P_STRING && m.Command() != C_STREAM
    ensures Parses(Tokens(Line(m)))
    ensures var r := Parsed(n, Tokens(Line(m)));
      && Turned(m, r) && r.PayloadType() == P_STRING && r.Length() <= MAX_PAYLOAD
      && (r.Payload() == m.Payload() <==> Plain(m.Payload()))
  {
    FieldsAreTokens(Numbers(m), TextOf(m));
    AllPlain(Line(m));
    NumbersAreRead(m, n, Tokens(Line(m)));
    TextSurvives(m.Payload());
    ReturnedIsPlain(m.Payload());
    assert PayloadIn(Tokens(Line(m))) == Returned(m.Payload());
    LineIsParsed(m, n);
  }

  /** A payload without semicolons is the last token, if it is not empty. */
  lemma LastToken(m: Message, n: Message)
    requires m.Length() <= MAX_PAYLOAD && m.PayloadType() != P_FLOAT32 && SEMICOLON !in TextOf(m)
    ensures var tokens := Tokens(Line(m));
      && |tokens| == (if TextOf(m) == [] then 5 else 6) && (TextOf(m) != [] ==> tokens[5] == TextOf(m))
      && Number(tokens, 2) == m.Command() && forall i :: 0 <= i < |tokens| ==> tokens[i] != []
  {
    FieldsAreTokens(Numbers(m), TextOf(m));
    TokensOfLast(TextOf(m));
    AllPlain(Line(m));
    NumbersAreRead(m, n, Tokens(Line(m)));
  }

  /** The payload of a stream message always comes back unchanged. */
  lemma StreamRoundTrip(m: Message, n: Message)
    requires m.Length() <= MAX_PAYLOAD && m.PayloadType() == P_CUSTOM && m.Command() == C_STREAM
    ensures Parses(Tokens(Line(m)))
    ensures var r := Parsed(n, Tokens(Line(m)));
      && Turned(m, r) && r.PayloadType() == P_CUSTOM && r.Length() == m.Length() && r.Payload() == m.Payload()
  {
    LastToken(m, n);
    FromHexOfHex(m.Payload());
    LineIsParsed(m, n);
  }

  /** A number comes back as text that is read as the same number. */
  lemma NumberRoundTrip(m: Message, n: Message)
    requires m.Length() <= MAX_PAYLOAD && IsNumber(m) && m.Command() != C_STREAM
    ensures Parses(Tokens(Line(m)))
    ensures var r := Parsed(n, Tokens(Line(m)));
      && Turned(m, r) && r.PayloadType() == P_STRING && r.Length() <= MAX_PAYLOAD
      && Atoi(r.Payload()) == NumberOf(m.PayloadType(), m.data)
  {
    NumberIsText(m);
    LastToken(m, n);
    LineIsParsed(m, n);
  }

  lemma NumberIsText(m: Message)
    requires m.Length() <= MAX_PAYLOAD && IsNumber(m)
    ensures var t := TextOf(m);
      && t != [] && |t| <= 11 && SEMICOLON !in t && Stripped(t) == t
      && Atoi(t) == NumberOf(m.PayloadType(), m.data)
  {
    var number := NumberOf(m.PayloadType(), m.data);
    NumberFits(m.PayloadType(), m.data);
    AtoiDecimal(number);
    NothingStripped(Decimal(number));
  }

  lemma NothingStripped(t: seq<Byte>)
    requires 0 < |t| <= 0x100 && NEWLINE !in t && RETURN !in t
    ensures Stripped(t) == t
  {
    assert t[(|t| - 1) % 0x100] in t;
  }

  lemma NumberFits(payloadType: nat, data: Data)
    ensures |Decimal(NumberOf(payloadType, data))| <= 11
  {
    var number := NumberOf(payloadType, data);
    UnsignedFits(data[..2]);
    UnsignedFits(data[..4]);
    assert Power256(2) == 0x1_0000 && Power256(4) == 0x1_0000_0000;
    assert Power10(10) == 100_0000_0000 by {
      assert Power10(5) == 10_0000;
    }
    DigitsFit(if number < 0 then -number else number, 10, 100_0000_0000);
  }

  function Power256(k: nat): nat {
    if k == 0 then 1 else 0x100 * Power256(k - 1)
  }

  lemma {:induction false} UnsignedFits(s: seq<Byte>)
    ensures Unsigned(s) < Power256(|s|)
  {
    if s == [] {
    } else {
      UnsignedFits(s[1..]);
    }
  }

  lemma {:induction false} FieldsFit(numbers: seq<int>, t: seq<Byte>)
    requires forall i :: 0 <= i < |numbers| ==> 0 <= numbers[i] < 1000
    ensures |Fields(numbers, t)| <= 4 * |numbers| + |t|
  {
    if numbers == [] {
    } else {
      assert Power10(3) == 1000;
      DigitsFit(numbers[0], 3, 1000);
      FieldsFit(numbers[1..], t);
    }
  }

  /** A line and its newline always fit into the send buffer. */
  lemma LineFits(m: Message)
    requires m.Length() <= MAX_PAYLOAD && m.PayloadType() != P_FLOAT32
    ensures |Line(m) + [NEWLINE]| < MY_GATEWAY_MAX_SEND_LENGTH
  {
    NumberFits(m.PayloadType(), m.data);
    FieldsFit(Numbers(m), TextOf(m));
  }

  // Methods

  /** The cases of protocolParse that read a number into the message. */
  method StoreField(message: MyMessage, i: nat, str: seq<Byte>) returns (n: Byte)
    requires message.Valid() && i < 5
    modifies message
    ensures message.Value() == TakeField(old(message.Value()), i, str) && n == ToByte(Atoi(str))
  {
    n := ToByte(Atoi(str));
    match i
    case 0 => message.destination := n;
    case 1 => message.sensor := n;
    case 2 => message.SetCommand(n);
    case 3 =>
    case 4 => message.mtype := n;
  }

  method Complete(message: MyMessage, command: Byte, ack: Byte, payload: seq<Byte>)
    requires message.Valid() && (command == C_STREAM ==> |payload| < 0x100)
    modifies message, message.data
    ensures message.Value() == Completed(old(message.Value()), command, ack, payload)
  {
    message.sender := GATEWAY_ADDRESS;
    message.last := GATEWAY_ADDRESS;
    message.SetAcks(ack != 0, false);
    if command == C_STREAM {
      message.SetCustom(payload);
    } else {
      message.SetString(payload);
    }
  }

  /** The payload in the sixth token. */
  method ReadPayload(command: Byte, str: seq<Byte>) returns (payload: seq<Byte>)
    requires str != [] && (command == C_STREAM ==> |str| % 2 == 0)
    ensures payload == if command == C_STREAM then FromHex(str) else Stripped(str)
  {
    if command == C_STREAM {
      payload := BytesOfHex(str);
    } else {
      payload := StripEnd(str);
    }
  }

  /** protocolParse. */
  method Parse(message: MyMessage, input: seq<Byte>) returns (ok: bool)
    requires message.Valid() && HexFits(Tokens(input))
    modifies message, message.data
    ensures forall i :: 0 <= i < |Tokens(input)| ==> Tokens(input)[i] != []
    ensures ok <==> |Tokens(input)| >= 5
    ensures message.Value() ==
      if ok then Parsed(old(message.Value()), Tokens(input)) else TakeFields(old(message.Value()), Tokens(input))
  {
    ghost var tokens := Tokens(input);
    AllPlain(input);
    var i, command, ack, payload := ReadFields(message, input, tokens);
    if i < 5 {
      assert tokens[..i] == tokens;
      return false;
    }
    Complete(message, command, ack, payload);
    ok := true;
  }

  lemma Advance<T>(s: seq<T>, i: nat, first: T, rest: seq<T>)
    requires i <= |s| && s[i..] == [first] + rest
    ensures i < |s| && s[i] == first && s[i + 1..] == rest
  {
    assert s[i..][0] == first && s[i..][1..] == rest;
  }

  /** The loop of protocolParse. */
  method ReadFields(message: MyMessage, input: seq<Byte>, ghost tokens: seq<seq<Byte>>)
    returns (i: nat, command: Byte, ack: Byte, payload: seq<Byte>)
    requires message.Valid() && tokens == Tokens(input) && HexFits(tokens)
    requires forall i :: 0 <= i < |tokens| ==> tokens[i] != []
    modifies message
    ensures i == if |tokens| < 6 then |tokens| else 6
    ensures message.Value() == TakeFields(old(message.Value()), tokens[..if i < 5 then i else 5])
    ensures command == Number(tokens, 2) && ack == Number(tokens, 3) && payload == PayloadIn(tokens)
  {
    ghost var m := message.Value();
    i, command, ack, payload := 0, 0, 0, [];
    var found, str, rest := NextToken(input);
    while found && i < 6
      invariant 0 <= i <= 6 && i <= |tokens|
      invariant tokens[i..] == if found then [str] + Tokens(rest) else []
      invariant message.Value() == TakeFields(m, tokens[..if i < 5 then i else 5])
      invariant command == (if i > 2 then Number(tokens, 2) else 0) && ack == (if i > 3 then Number(tokens, 3) else 0)
      invariant payload == if i > 5 then PayloadIn(tokens) else []
    {
      Advance(tokens, i, str, Tokens(rest));
      if i < 5 {
        TakeFieldsStep(m, tokens, i);
        var n := StoreField(message, i, str);
        if i == 2 {
          command := n;
        } else if i == 3 {
          ack := n;
        }
      } else {
        payload := ReadPayload(command, str);
      }
      i := i + 1;
      found, str, rest := NextToken(rest);
    }
  }

  /** The loop over the hexadecimal digits. */
  method BytesOfHex(str: seq<Byte>) returns (bytes: seq<Byte>)
    requires |str| % 2 == 0
    ensures bytes == FromHex(str)
  {
    bytes := [];
    var p := 0;
    while p < |str|
      invariant 0 <= p <= |str| && p % 2 == 0 && bytes == FromHex(str[..p])
    {
      FromHexStep(str[..p], str[p], str[p + 1]);
      assert str[..p + 2] == str[..p] + [str[p], str[p + 1]];
      var val := H2i(str[p]) * 16 % 0x100;
      val := Add(val, H2i(str[p + 1]));
      bytes := bytes + [val];
      p := p + 2;
    }
    assert str[..p] == str;
  }

  /** The removal of the end of a line. */
  method StripEnd(str: seq<Byte>) returns (value: seq<Byte>)
    requires str != []
    ensures value == Stripped(str)
  {
    var lastCharacter := (|str| - 1) % 0x100;
    value := str;
    if str[lastCharacter] == RETURN {
      value := str[..lastCharacter];
    }
    if str[lastCharacter] == NEWLINE {
      value := str[..lastCharacter];
    }
  }

  /** getCustomString. */
  method CustomString(payload: seq<Byte>) returns (text: seq<Byte>)
    ensures text == Hex(payload)
  {
    text := [];
    var i := 0;
    while i < |payload|
      invariant 0 <= i <= |payload| && text == Hex(payload[..i])
    {
      assert payload[..i + 1][..i] == payload[..i];
      text := text + [I2h(payload[i] / 16), I2h(payload[i])];
      i := i + 1;
    }
    assert payload[..i] == payload;
  }

  /** getString(buffer). */
  method GetString(message: MyMessage) returns (str: seq<Byte>)
    requires message.Valid() && message.Value().Length() <= MAX_PAYLOAD && message.Value().PayloadType() != P_FLOAT32
    ensures str == TextOf(message.Value())
  {
    var payloadType := message.commandAckPayload / 32;
    if payloadType == P_STRING {
      str := Terminated(message.data[..message.Length()]);
    } else if payloadType == P_CUSTOM {
      str := CustomString(message.data[..message.Length()]);
    } else {
      str := Decimal(NumberOf(payloadType, message.data[..]));
    }
  }

  /** protocolFormat. */
  method Format(message: MyMessage) returns (text: seq<Byte>)
    requires message.Valid() && message.Value().Length() <= MAX_PAYLOAD && message.Value().PayloadType() != P_FLOAT32
    ensures text == Line(message.Value()) + [NEWLINE]
  {
    var c := message.commandAckPayload;
    var str := GetString(message);
    var numbers := [message.sender, message.sensor, c % 8, if c / 16 % 2 == 1 then 1 else 0, message.mtype];
    text := Fields(numbers, str) + [NEWLINE];
  }
}
