/** The frames of MyTransportRS485.cpp and an ideal parser for them, free of counters and running sums. */
module Rs485Frames {
  import opened Automata
  import opened Bytes
  import opened Options

  const SOH: Byte := 1
  const STX: Byte := 2
  const ETX: Byte := 3
  const EOT: Byte := 4
  const ICSC_SYS_PACK: Byte := 0x58
  const BROADCAST_ADDRESS: Byte := 255
  const MAX_MESSAGE_LENGTH := 40

  datatype Packet = Packet(to: Byte, from: Byte, data: seq<Byte>)

  /** A packet that fits the receiver's buffer. */
  type Message = p: Packet | |p.data| <= MAX_MESSAGE_LENGTH witness Packet(0, 0, [])

  /** The six bytes before the data. */
  function Header(p: Message): Window {
    [SOH, p.to, p.from, ICSC_SYS_PACK, |p.data|, STX]
  }

  /** The bytes of a packet on the bus. */
  function Frame(p: Message): seq<Byte> {
    Header(p) + p.data + [ETX, Checksum(Header(p), p.data), EOT]
  }

  /** The sum over addresses, command, length and data, modulo 256. */
  function Checksum(header: Window, data: seq<Byte>): Byte {
    Total(header[1..5] + data) % 0x100
  }

  // The parser

  datatype Phase = Hunting | InData(data: seq<Byte>) | BeforeEtx(data: seq<Byte>) | BeforeChecksum(data: seq<Byte>)
    | BeforeEot(data: seq<Byte>, cs: Byte)

  type Window = w: seq<Byte> | |w| == 6 witness [0, 0, 0, 0, 0, 0]

  /** The parser of station me.  The window holds the last six bytes seen while hunting; it is never cleared. */
  datatype Parser = Parser(me: Byte, window: Window, phase: Phase)

  predicate IsHeader(w: Window) {
    w[0] == SOH && w[5] == STX && w[1] != w[2]
  }

  predicate ForMe(me: Byte, w: Window) {
    w[2] != me && (w[1] == me || w[1] == BROADCAST_ADDRESS)
  }

  /** One byte.  The second result has an element when a frame ends: its packet, or None if it is discarded. */
  function Step(p: Parser, b: Byte): (Parser, seq<Option<Packet>>) {
    match p.phase
    case Hunting =>
      var w := p.window[1..] + [b];
      var phase :=
        if IsHeader(w) && ForMe(p.me, w) then if w[4] == 0 then BeforeEtx([]) else InData([])
        else Hunting;
      (Parser(p.me, w, phase), [])
    case InData(data) =>
      (p.(phase := if |data| + 1 == p.window[4] then BeforeEtx(data + [b]) else InData(data + [b])), [])
    case BeforeEtx(data) =>
      (p.(phase := if b == ETX then BeforeChecksum(data) else Hunting), [])
    case BeforeChecksum(data) =>
      (p.(phase := BeforeEot(data, b)), [])
    case BeforeEot(data, cs) =>
      var good := b == EOT && cs == Checksum(p.window, data) && p.window[3] == ICSC_SYS_PACK;
      (p.(phase := Hunting), [if good then Some(Packet(p.window[1], p.window[2], data)) else None])
  }

  function Parse(p: Parser, bytes: seq<Byte>): (Parser, seq<Option<Packet>>) {
    Run(Step, p, bytes)
  }

  // What a frame does

  /** Addressed to station me, or to all, by another station, which does not address itself. */
  predicate Addressed(me: Byte, p: Message) {
    p.from != me && p.to != p.from && (p.to == me || p.to == BROADCAST_ADDRESS)
  }

  /** Between frames: the window has no SOH, or it is the header of the frame before. */
  predicate Receptive(p: Parser) {
    p.phase.Hunting? && (SOH !in p.window || IsOldHeader(p.window))
  }

  predicate IsOldHeader(w: Window) {
    w[0] == SOH && w[3] == ICSC_SYS_PACK && w[4] <= MAX_MESSAGE_LENGTH && w[5] == STX
  }

  /** The window after k bytes of a header. */
  function Shifted(w: Window, h: Window, k: nat): Window
    requires k <= 6
  {
    w[k..] + h[..k]
  }

  /**
   The one way in which a header starts a frame too early, at its second byte: behind a frame from station 1, a header
   for station 2, at the station whose address is the command byte.
   */
  predicate Straddled(p: Parser, q: Message) {
    IsOldHeader(p.window) && p.window[2] == SOH && q.to == STX && p.me == ICSC_SYS_PACK
  }

  /** A window that straddles an old and a new header starts a frame in that one case only. */
  lemma FalseStart(p: Parser, q: Message, k: nat)
    requires Receptive(p) && 1 <= k <= 5
    ensures
      var w := Shifted(p.window, Header(q), k);
      IsHeader(w) && ForMe(p.me, w) <==> k == 2 && Straddled(p, q)
  {
    var w, h := p.window, Header(q);
    assert w[1] in w && w[2] in w && w[3] in w && w[4] in w && w[5] in w;
    assert Shifted(w, h, 1) == [w[1], w[2], w[3], w[4], w[5], h[0]];
    assert Shifted(w, h, 2) == [w[2], w[3], w[4], w[5], h[0], h[1]];
    assert Shifted(w, h, 3) == [w[3], w[4], w[5], h[0], h[1], h[2]];
    assert Shifted(w, h, 4) == [w[4], w[5], h[0], h[1], h[2], h[3]];
    assert Shifted(w, h, 5) == [w[5], h[0], h[1], h[2], h[3], h[4]];
  }

  /** It never starts one before the end of a header for this station. */
  lemma NoFalseStart(p: Parser, q: Message, k: nat)
    requires Receptive(p) && Addressed(p.me, q) && 1 <= k <= 5
    ensures
      var w := Shifted(p.window, Header(q), k);
      !(IsHeader(w) && ForMe(p.me, w))
  {
    FalseStart(p, q, k);
  }

  lemma {:induction false} HeaderSeen(p: Parser, q: Message, k: nat)
    requires Receptive(p) && k <= 5 && (k < 2 || !Straddled(p, q))
    ensures Parse(p, Header(q)[..k]) == (Parser(p.me, Shifted(p.window, Header(q), k), Hunting), [])
  {
    var w, h := p.window, Header(q);
    if k == 0 {
      assert w[0..] + h[..0] == w;
    } else {
      HeaderSeen(p, q, k - 1);
      ShiftStep(w, h, k - 1);
      FalseStart(p, q, k);
      HeaderByte(p, q, k - 1, Parser(p.me, Shifted(w, h, k - 1), Hunting), Parser(p.me, Shifted(w, h, k), Hunting));
    }
  }

  lemma {:induction false} HeaderByte(p: Parser, q: Message, k: nat, r: Parser, t: Parser)
    requires k < 6 && Parse(p, Header(q)[..k]) == (r, []) && Step(r, Header(q)[k]) == (t, [])
    ensures Parse(p, Header(q)[..k + 1]) == (t, [])
  {
    var h := Header(q);
    assert h[..k] + [h[k]] == h[..k + 1];
    RunQuietly(Step, p, h[..k], h[k], r, t);
  }

  lemma ShiftStep(w: Window, h: Window, k: nat)
    requires k < 6
    ensures Shifted(w, h, k)[1..] + [h[k]] == Shifted(w, h, k + 1)
  {
  }

  function Inside(me: Byte, q: Message, data: seq<Byte>): Parser {
    Parser(me, Header(q), if |data| == |q.data| then BeforeEtx(data) else InData(data))
  }

  lemma {:induction false} HeaderAccepted(p: Parser, q: Message)
    requires Receptive(p) && Addressed(p.me, q)
    ensures Parse(p, Header(q)) == (Inside(p.me, q, []), [])
  {
    var w, h := p.window, Header(q);
    HeaderSeen(p, q, 5);
    ShiftStep(w, h, 5);
    assert Shifted(w, h, 6) == h && h[..6] == h;
    HeaderByte(p, q, 5, Parser(p.me, Shifted(w, h, 5), Hunting), Inside(p.me, q, []));
  }

  /** The parser has seen the first k bytes of a header and is still hunting. */
  predicate StillHunting(p: Parser, q: Message, k: nat)
    requires k <= 6
  {
    Parse(p, Header(q)[..k]).0.phase.Hunting?
  }

  /**
   A header that is not for this station, or names this station as its sender, starts no frame: it ends as it began, and
   without a packet.  At every byte of it the parser is hunting, except in the straddled case.
   */
  lemma {:induction false} HeaderRejected(p: Parser, q: Message)
    requires Receptive(p) && !Addressed(p.me, q)
    ensures Parse(p, Header(q)).0.phase.Hunting? && Parse(p, Header(q)).1 == []
    ensures (forall k :: 0 <= k <= 6 ==> StillHunting(p, q, k)) <==> !Straddled(p, q)
  {
    assert Header(q)[..6] == Header(q);
    if Straddled(p, q) {
      StraddledRuns(p, q);
      assert !StillHunting(p, q, 2);
    } else {
      HeaderPassed(p, q);
      forall k | 0 <= k <= 6
        ensures StillHunting(p, q, k)
      {
        if k < 6 {
          HeaderSeen(p, q, k);
        }
      }
    }
  }

  lemma {:induction false} HeaderPassed(p: Parser, q: Message)
    requires Receptive(p) && !Addressed(p.me, q) && !Straddled(p, q)
    ensures Parse(p, Header(q)) == (Parser(p.me, Header(q), Hunting), [])
  {
    var w, h := p.window, Header(q);
    HeaderSeen(p, q, 5);
    ShiftStep(w, h, 5);
    assert Shifted(w, h, 6) == h && h[..6] == h;
    HeaderByte(p, q, 5, Parser(p.me, Shifted(w, h, 5), Hunting), Parser(p.me, h, Hunting));
  }

  /** The false start ends at the command byte, which is no ETX. */
  lemma {:induction false} StraddledRuns(p: Parser, q: Message)
    requires Receptive(p) && Straddled(p, q)
    ensures Parse(p, Header(q)[..2]).0.phase == InData([])
    ensures Parse(p, Header(q)).0.phase.Hunting? && Parse(p, Header(q)).1 == []
  {
    var w, h := p.window, Header(q);
    var v := [w[2], w[3], w[4], w[5], h[0], h[1]];
    StraddledSteps(p, q, v);
    HeaderSeen(p, q, 1);
    HeaderByte(p, q, 1, Parser(p.me, Shifted(w, h, 1), Hunting), Parser(p.me, v, InData([])));
    HeaderByte(p, q, 2, Parser(p.me, v, InData([])), Parser(p.me, v, BeforeEtx([h[2]])));
    HeaderByte(p, q, 3, Parser(p.me, v, BeforeEtx([h[2]])), Parser(p.me, v, Hunting));
    HeaderByte(p, q, 4, Parser(p.me, v, Hunting), Parser(p.me, v[1..] + [h[4]], Hunting));
    HeaderByte(p, q, 5, Parser(p.me, v[1..] + [h[4]], Hunting), Parser(p.me, v[2..] + [h[4], h[5]], Hunting));
    assert h[..6] == h;
  }

  lemma StraddledSteps(p: Parser, q: Message, v: Window)
    requires Receptive(p) && Straddled(p, q)
    requires var w, h := p.window, Header(q); v == [w[2], w[3], w[4], w[5], h[0], h[1]]
    ensures
      var h := Header(q);
      && Step(Parser(p.me, Shifted(p.window, h, 1), Hunting), h[1]) == (Parser(p.me, v, InData([])), [])
      && Step(Parser(p.me, v, InData([])), h[2]) == (Parser(p.me, v, BeforeEtx([h[2]])), [])
      && Step(Parser(p.me, v, BeforeEtx([h[2]])), h[3]) == (Parser(p.me, v, Hunting), [])
      && Step(Parser(p.me, v, Hunting), h[4]) == (Parser(p.me, v[1..] + [h[4]], Hunting), [])
      && Step(Parser(p.me, v[1..] + [h[4]], Hunting), h[5]) == (Parser(p.me, v[2..] + [h[4], h[5]], Hunting), [])
  {
    var h := Header(q);
    ShiftStep(p.window, h, 1);
    assert Shifted(p.window, h, 2) == v && [] + [h[2]] == [h[2]];
    assert (v[1..] + [h[4]])[1..] + [h[5]] == v[2..] + [h[4], h[5]];
  }

  lemma {:induction false} DataTaken(me: Byte, q: Message, k: nat)
    requires k <= |q.data|
    ensures Parse(Inside(me, q, []), q.data[..k]) == (Inside(me, q, q.data[..k]), [])
  {
    if k == 0 {
    } else {
      DataTaken(me, q, k - 1);
      assert q.data[..k - 1] + [q.data[k - 1]] == q.data[..k];
      RunQuietly(Step, Inside(me, q, []), q.data[..k - 1], q.data[k - 1],
        Inside(me, q, q.data[..k - 1]), Inside(me, q, q.data[..k]));
    }
  }

  /** The trailer byte by byte; the packet comes out at its end. */
  lemma {:induction false} TrailerTaken(me: Byte, q: Message)
    ensures
      var p, cs := Inside(me, q, q.data), Checksum(Header(q), q.data);
      && Parse(p, [ETX]) == (p.(phase := BeforeChecksum(q.data)), [])
      && Parse(p, [ETX, cs]) == (p.(phase := BeforeEot(q.data, cs)), [])
      && Parse(p, [ETX, cs, EOT]) == (p.(phase := Hunting), [Some(q)])
  {
    var p, cs := Inside(me, q, q.data), Checksum(Header(q), q.data);
    var p1, p2 := p.(phase := BeforeChecksum(q.data)), p.(phase := BeforeEot(q.data, cs));
    RunOne(Step, p, ETX);
    RunOne(Step, p1, cs);
    RunOne(Step, p2, EOT);
    RunAppend(Step, p, [ETX], [cs]);
    RunAppend(Step, p, [ETX] + [cs], [EOT]);
    assert [ETX] + [cs] == [ETX, cs] && [ETX, cs] + [EOT] == [ETX, cs, EOT];
  }

  /** A frame for this station is delivered, and leaves the parser ready for the next. */
  lemma {:induction false} FrameDelivered(p: Parser, q: Message)
    requires Receptive(p) && Addressed(p.me, q)
    ensures Parse(p, Frame(q)) == (Parser(p.me, Header(q), Hunting), [Some(q)])
    ensures Receptive(Parse(p, Frame(q)).0)
  {
    var h, t := Header(q), [ETX, Checksum(Header(q), q.data), EOT];
    HeaderAccepted(p, q);
    DataTaken(p.me, q, |q.data|);
    assert q.data[..|q.data|] == q.data;
    TrailerTaken(p.me, q);
    InThreeParts(p, h, q.data, t, Inside(p.me, q, []), Inside(p.me, q, q.data));
  }

  /** It is delivered with its last byte. */
  lemma {:induction false} FrameAnswersLast(p: Parser, q: Message)
    requires Receptive(p) && Addressed(p.me, q)
    ensures AnswersLast(Step, p, Frame(q))
  {
    var h, cs := Header(q), Checksum(Header(q), q.data);
    FrameDelivered(p, q);
    HeaderAccepted(p, q);
    DataTaken(p.me, q, |q.data|);
    assert q.data[..|q.data|] == q.data;
    TrailerTaken(p.me, q);
    InThreeParts(p, h, q.data, [ETX, cs], Inside(p.me, q, []), Inside(p.me, q, q.data));
    assert Frame(q)[..|Frame(q)| - 1] == h + q.data + [ETX, cs];
  }

  lemma {:induction false} InThreeParts(p: Parser, a: seq<Byte>, b: seq<Byte>, c: seq<Byte>, q: Parser, r: Parser)
    requires Parse(p, a) == (q, []) && Parse(q, b) == (r, [])
    ensures Parse(p, a + b + c) == Parse(r, c)
  {
    RunAppend(Step, p, a, b);
    RunAppend(Step, p, a + b, c);
    var none: seq<Option<Packet>> := [];
    assert none + none == none && none + Parse(r, c).1 == Parse(r, c).1;
  }

  function Frames(messages: seq<Message>): seq<Byte> {
    if messages == [] then [] else Frames(messages[..|messages| - 1]) + Frame(messages[|messages| - 1])
  }

  lemma {:induction false} NextFrame(p: Parser, bytes: seq<Byte>, q: Parser, packets: seq<Option<Packet>>, m: Message)
    requires Parse(p, bytes) == (q, packets) && Receptive(q) && Addressed(q.me, m)
    ensures Parse(p, bytes + Frame(m)) == (Parser(q.me, Header(m), Hunting), packets + [Some(m)])
    ensures Receptive(Parser(q.me, Header(m), Hunting))
  {
    RunAppend(Step, p, bytes, Frame(m));
    FrameDelivered(q, m);
  }

  predicate AllAddressed(me: Byte, messages: seq<Message>) {
    forall i :: 0 <= i < |messages| ==> Addressed(me, messages[i])
  }

  function Delivered(messages: seq<Message>): (d: seq<Option<Packet>>)
    ensures |d| == |messages|
  {
    seq(|messages|, i requires 0 <= i < |messages| => Some(messages[i]))
  }

  /** Frames back to back are delivered one by one, and nothing else is. */
  lemma {:induction false} FramesDelivered(p: Parser, messages: seq<Message>)
    requires Receptive(p) && AllAddressed(p.me, messages)
    ensures Parse(p, Frames(messages)).1 == Delivered(messages)
    ensures Receptive(Parse(p, Frames(messages)).0) && Parse(p, Frames(messages)).0.me == p.me
  {
    if messages == [] {
    } else {
      var n := |messages| - 1;
      FramesDelivered(p, messages[..n]);
      var (q, packets) := Parse(p, Frames(messages[..n]));
      NextFrame(p, Frames(messages[..n]), q, packets, messages[n]);
      assert packets + [Some(messages[n])] == Delivered(messages);
    }
  }

  // One frame at a time

  /** Reading until a frame ends takes exactly the next frame. */
  lemma {:induction false} TakesOneFrame(p: Parser, m: Message, rest: seq<Byte>, consumed: seq<Byte>, left: seq<Byte>)
    requires Receptive(p) && Addressed(p.me, m) && consumed + left == Frame(m) + rest
    requires AnswersLast(Step, p, consumed) || (Parse(p, consumed).1 == [] && left == [])
    ensures consumed == Frame(m) && left == rest
  {
    FrameAnswersLast(p, m);
    SameRun(Step, p, consumed, left, Frame(m), rest);
  }

  lemma {:induction false} FramesFront(messages: seq<Message>)
    requires messages != []
    ensures Frames(messages) == Frame(messages[0]) + Frames(messages[1..])
  {
    var n := |messages| - 1;
    if n == 0 {
      assert messages[..0] == messages[1..] == [];
    } else {
      FramesFront(messages[..n]);
      DropTake(messages);
      Associative(Frame(messages[0]), Frames(messages[1..][..n - 1]), Frame(messages[n]));
    }
  }

  lemma DropTake<T>(s: seq<T>)
    requires |s| >= 2
    ensures s[..|s| - 1][1..] == s[1..][..|s| - 2] && s[1..][|s| - 2] == s[|s| - 1] && s[..|s| - 1][0] == s[0]
  {
  }

  lemma Associative<T>(a: seq<T>, b: seq<T>, c: seq<T>)
    ensures a + b + c == a + (b + c)
  {
  }

  // What a packet proves

  predicate EndsWith(s: seq<Byte>, t: seq<Byte>) {
    |t| <= |s| && s[|s| - |t|..] == t
  }

  /** What the last bytes seen must have been. */
  function LastSeen(phase: Phase): seq<Byte> {
    match phase
    case Hunting => []
    case InData(data) => [STX] + data
    case BeforeEtx(data) => [STX] + data
    case BeforeChecksum(data) => [STX] + data + [ETX]
    case BeforeEot(data, cs) => [STX] + data + [ETX, cs]
  }

  /** Inside a frame the window is a header for this station, and the data read is not longer than it says. */
  predicate Framed(p: Parser) {
    p.phase.Hunting? ||
    (IsHeader(p.window) && ForMe(p.me, p.window)
      && if p.phase.InData? then |p.phase.data| < p.window[4] else |p.phase.data| == p.window[4])
  }

  lemma EndsWithStep(s: seq<Byte>, t: seq<Byte>, b: Byte)
    requires EndsWith(s, t)
    ensures EndsWith(s + [b], t + [b]) && EndsWith(s + [b], [b]) && EndsWith(s + [b], [])
  {
  }

  lemma StepRemembers(q: Parser, b: Byte)
    requires Framed(q)
    ensures
      var r := Step(q, b).0;
      && Framed(r) && r.me == q.me
      && (LastSeen(r.phase) == LastSeen(q.phase) + [b] || LastSeen(r.phase) == [b] || LastSeen(r.phase) == [])
  {
    match q.phase
    case Hunting =>
    case InData(data) => assert [STX] + data + [b] == [STX] + (data + [b]);
    case BeforeEtx(data) =>
    case BeforeChecksum(data) => assert [STX] + data + [ETX] + [b] == [STX] + data + [ETX, b];
    case BeforeEot(_, _) =>
  }

  /** What the parser has to show for the bytes read. */
  predicate Remembers(me: Byte, s: seq<Byte>, q: Parser) {
    q.me == me && Framed(q) && EndsWith(s, LastSeen(q.phase))
  }

  lemma RemembersStep(me: Byte, s: seq<Byte>, q: Parser, b: Byte)
    requires Remembers(me, s, q)
    ensures Remembers(me, s + [b], Step(q, b).0)
  {
    StepRemembers(q, b);
    EndsWithStep(s, LastSeen(q.phase), b);
  }

  lemma {:induction false} ParseRemembers(p: Parser, s: seq<Byte>)
    requires p.phase.Hunting?
    ensures Remembers(p.me, s, Parse(p, s).0)
  {
    var inv := (bytes, q) => Remembers(p.me, bytes, q);
    forall bytes, q, b | inv(bytes, q)
      ensures inv(bytes + [b], Step(q, b).0)
    {
      RemembersStep(p.me, bytes, q, b);
    }
    RunKeeps(Step, inv, p, s);
  }

  /** The last bytes of a frame that brings a packet. */
  predicate Proven(me: Byte, w: Window, s: seq<Byte>, packet: Packet) {
    && IsHeader(w) && ForMe(me, w) && w[3] == ICSC_SYS_PACK
    && packet.to == w[1] && packet.from == w[2] && |packet.data| == w[4]
    && EndsWith(s, [STX] + packet.data + [ETX, Checksum(w, packet.data), EOT])
  }

  /**
   Any stream, including noise: a packet comes out only at an EOT that ends STX, data, ETX and the right checksum,
   under a header for this station.
   */
  lemma {:induction false} PacketIsSound(p: Parser, s: seq<Byte>, b: Byte)
    requires p.phase.Hunting?
    ensures
      var q := Parse(p, s).0;
      forall packet :: Step(q, b).1 == [Some(packet)] ==> Proven(p.me, q.window, s + [b], packet)
  {
    ParseRemembers(p, s);
    var q := Parse(p, s).0;
    if q.phase.BeforeEot? {
      EndsWithStep(s, LastSeen(q.phase), b);
      assert [STX] + q.phase.data + [ETX, q.phase.cs] + [EOT] == [STX] + q.phase.data + [ETX, q.phase.cs, EOT];
    }
  }
}
