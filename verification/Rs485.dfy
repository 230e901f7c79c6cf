/** MyTransportRS485.cpp: the receiving state machine with its counters and running checksum, and the frame writer. */
module Rs485 {
  import opened Automata
  import opened Bytes
  import opened Options
  import opened Rs485Frames

  /** The fields of the state machine as a phase of the ideal parser. */
  function PhaseOf(recPhase: nat, data: seq<Byte>, recCS: Byte): Phase {
    if recPhase == 0 then Hunting
    else if recPhase == 1 then InData(data)
    else if recPhase == 2 then BeforeEtx(data)
    else if recPhase == 3 then BeforeChecksum(data)
    else BeforeEot(data, recCS)
  }

  /** Inside a frame the copies of the header are true and the running checksum covers the data so far. */
  ghost predicate Consistent(phase: nat, window: seq<Byte>, data: seq<Byte>, recCommand: Byte, recLen: Byte,
                             recStation: Byte, recSender: Byte, recCalcCS: Byte) {
    && |window| == 6 && phase <= 4
    && (phase > 0 ==>
      && recStation == window[1] && recSender == window[2] && recCommand == window[3] && recLen == window[4]
      && recLen <= MAX_MESSAGE_LENGTH && recCalcCS == Checksum(window, data)
      && if phase == 1 then |data| < recLen else |data| == recLen)
  }

  /** No frame for this station announces more data than the buffer holds. */
  predicate Roomy(p: Parser) {
    p.phase.Hunting? || p.window[4] <= MAX_MESSAGE_LENGTH
  }

  ghost predicate Bounded(p: Parser, bytes: seq<Byte>) {
    forall i :: 0 <= i <= |bytes| ==> Roomy(Parse(p, bytes[..i]).0)
  }

  lemma {:induction false} BoundedStep(p: Parser, bytes: seq<Byte>)
    requires bytes != [] && Bounded(p, bytes)
    ensures Roomy(Step(p, bytes[0]).0) && Bounded(Step(p, bytes[0]).0, bytes[1..])
  {
    RunOne(Step, p, bytes[0]);
    assert bytes[..1] == [bytes[0]];
    forall i | 0 <= i <= |bytes| - 1
      ensures Roomy(Parse(Step(p, bytes[0]).0, bytes[1..][..i]).0)
    {
      RunAppend(Step, p, [bytes[0]], bytes[1..][..i]);
      assert [bytes[0]] + bytes[1..][..i] == bytes[..i + 1];
    }
  }

  lemma {:induction false} FrameRoomy(p: Parser, m: Message, k: nat)
    requires Receptive(p) && Addressed(p.me, m) && k <= |Frame(m)|
    ensures Roomy(Parse(p, Frame(m)[..k]).0)
  {
    var h, d, cs := Header(m), m.data, Checksum(Header(m), m.data);
    CutThree(h, d, [ETX, cs, EOT], k);
    if k <= 5 {
      HeaderSeen(p, m, k);
    } else if k <= 6 + |d| {
      assert h[..6] == h && d[..0] == [];
      HeaderAccepted(p, m);
      DataTaken(p.me, m, k - 6);
      RunAppend(Step, p, h, d[..k - 6]);
    } else {
      TrailerRoomy(p, m, k - 6 - |d|);
    }
  }

  lemma CutThree<T>(a: seq<T>, b: seq<T>, c: seq<T>, k: nat)
    requires k <= |a + b + c|
    ensures (a + b + c)[..k] ==
      if k <= |a| then a[..k] else if k <= |a| + |b| then a + b[..k - |a|] else a + b + c[..k - |a| - |b|]
  {
  }

  lemma {:induction false} TrailerRoomy(p: Parser, m: Message, k: nat)
    requires Receptive(p) && Addressed(p.me, m) && 1 <= k <= 3
    ensures Roomy(Parse(p, Header(m) + m.data + [ETX, Checksum(Header(m), m.data), EOT][..k]).0)
  {
    var t := [ETX, Checksum(Header(m), m.data), EOT];
    HeaderAccepted(p, m);
    DataTaken(p.me, m, |m.data|);
    assert m.data[..|m.data|] == m.data;
    InThreeParts(p, Header(m), m.data, t[..k], Inside(p.me, m, []), Inside(p.me, m, m.data));
    TrailerTaken(p.me, m);
    if k == 1 {
      assert t[..k] == [ETX];
    } else if k == 2 {
      assert t[..k] == [ETX, t[1]];
    } else {
      assert t[..k] == t;
    }
  }

  /** Frames of at most 40 bytes of data never overrun the buffer. */
  lemma {:induction false} FramesBounded(p: Parser, messages: seq<Message>)
    requires Receptive(p) && AllAddressed(p.me, messages)
    ensures Bounded(p, Frames(messages))
  {
    var bytes := Frames(messages);
    forall i | 0 <= i <= |bytes|
      ensures Roomy(Parse(p, bytes[..i]).0)
    {
      PrefixRoomy(p, messages, i);
    }
  }

  lemma {:induction false} PrefixRoomy(p: Parser, messages: seq<Message>, i: nat)
    requires Receptive(p) && AllAddressed(p.me, messages) && i <= |Frames(messages)|
    ensures Roomy(Parse(p, Frames(messages)[..i]).0)
  {
    if messages == [] {
    } else {
      var n := |messages| - 1;
      var init, last := Frames(messages[..n]), Frame(messages[n]);
      if i <= |init| {
        PrefixRoomy(p, messages[..n], i);
        assert (init + last)[..i] == init[..i];
      } else {
        NextRoomy(p, messages[..n], messages[n], i - |init|);
        assert (init + last)[..i] == init + last[..i - |init|];
      }
    }
  }

  lemma NextRoomy(p: Parser, messages: seq<Message>, m: Message, k: nat)
    requires Receptive(p) && AllAddressed(p.me, messages) && Addressed(p.me, m) && k <= |Frame(m)|
    ensures Roomy(Parse(p, Frames(messages) + Frame(m)[..k]).0)
  {
    FramesDelivered(p, messages);
    RunAppend(Step, p, Frames(messages), Frame(m)[..k]);
    FrameRoomy(Parse(p, Frames(messages)).0, m, k);
  }

  lemma HeaderSum(w: Window)
    ensures Checksum(w, []) == Add(Add(Add(Add(0, w[1]), w[2]), w[3]), w[4])
  {
    RunningSum([], w[1]);
    RunningSum([w[1]], w[2]);
    RunningSum([w[1], w[2]], w[3]);
    RunningSum([w[1], w[2], w[3]], w[4]);
    assert w[1..5] + [] == [w[1], w[2], w[3]] + [w[4]] && [w[1], w[2]] + [w[3]] == [w[1], w[2], w[3]];
    assert [w[1]] + [w[2]] == [w[1], w[2]] && [] + [w[1]] == [w[1]];
  }

  lemma ChecksumStep(w: Window, data: seq<Byte>, b: Byte)
    ensures Checksum(w, data + [b]) == Add(Checksum(w, data), b)
  {
    RunningSum(w[1..5] + data, b);
    assert w[1..5] + (data + [b]) == (w[1..5] + data) + [b];
  }

  function Payloads(messages: seq<Message>): seq<seq<Byte>> {
    seq(|messages|, i requires 0 <= i < |messages| => messages[i].data)
  }

  lemma FirstPayload(before: seq<seq<Byte>>, rest: seq<Message>)
    requires rest != []
    ensures before + Payloads(rest) == before + [rest[0].data] + Payloads(rest[1..])
  {
    assert Payloads(rest) == [rest[0].data] + Payloads(rest[1..]);
  }

  /** One more byte behind bytes that have brought no answer. */
  lemma ParseOne(start: Parser, read: seq<Byte>, before: Parser, b: Byte)
    requires Parse(start, read) == (before, [])
    ensures Parse(start, read + [b]) == Step(before, b)
    ensures Step(before, b).1 != [] ==> AnswersLast(Step, start, read + [b])
  {
    RunStep(Step, start, read, b);
    assert [] + Step(before, b).1 == Step(before, b).1;
    assert (read + [b])[..|read + [b]| - 1] == read;
  }

  class Transport {
    var nodeId: Byte
    const header: array<Byte>
    const data: array<Byte>
    var recPhase: nat
    var recPos: nat
    var recCommand: Byte
    var recLen: Byte
    var recStation: Byte
    var recSender: Byte
    var recCS: Byte
    var recCalcCS: Byte
    var packetLen: Byte
    var packetFrom: Byte
    var packetReceived: bool
    /** The bytes that the serial device still holds. */
    var dev: seq<Byte>

    ghost predicate Valid()
      reads this, header, data
    {
      && header.Length == 6 && data.Length == MAX_MESSAGE_LENGTH && header != data && recPos <= MAX_MESSAGE_LENGTH
      && packetLen <= MAX_MESSAGE_LENGTH
      && Consistent(recPhase, header[..], data[..recPos], recCommand, recLen, recStation, recSender, recCalcCS)
    }

    ghost function Model(): (p: Parser)
      requires Valid()
      reads this, header, data
      ensures Roomy(p)
    {
      Parser(nodeId, header[..], PhaseOf(recPhase, data[..recPos], recCS))
    }

    constructor (nodeId: Byte)
      ensures Valid() && Model() == Parser(nodeId, [0, 0, 0, 0, 0, 0], Hunting) && !packetReceived && dev == []
    {
      this.nodeId := nodeId;
      header := new Byte[6](i => 0);
      data := new Byte[MAX_MESSAGE_LENGTH](i => 0);
      recPhase, recPos, recCommand, recLen, recCS, recCalcCS := 0, 0, 0, 0, 0, 0;
      recStation, recSender, packetLen, packetFrom, packetReceived := 0, 0, 0, 0, false;
      dev := [];
      new;
      assert header[..] == [0, 0, 0, 0, 0, 0];
    }

    /** _serialReset. */
    method SerialReset()
      modifies this`recPhase, this`recPos, this`recLen, this`recCommand, this`recCS, this`recCalcCS
      ensures recPhase == 0 && recPos == 0
    {
      recPhase, recPos, recLen, recCommand, recCS, recCalcCS := 0, 0, 0, 0, 0, 0;
    }

    /** Case 0 of the switch. */
    method Hunt(inch: Byte)
      requires Valid() && recPhase == 0 && Roomy(Step(Model(), inch).0)
      modifies this`recPhase, this`recPos, this`recLen, this`recCommand, this`recCS, this`recCalcCS
      modifies this`recStation, this`recSender, header
      ensures Valid() && Model() == Step(old(Model()), inch).0
    {
      ShiftWindow(inch);
      if header[0] == SOH && header[5] == STX && header[1] != header[2] {
        BeginFrame();
      }
    }

    method ShiftWindow(inch: Byte)
      requires header.Length == 6
      modifies header
      ensures header[..] == old(header[..])[1..] + [inch]
    {
      header[0], header[1], header[2], header[3], header[4], header[5] :=
        header[1], header[2], header[3], header[4], header[5], inch;
    }

    /** A header: its fields are copied, and the frame is taken unless it is for others. */
    method BeginFrame()
      requires Valid() && recPhase == 0 && IsHeader(header[..])
      requires ForMe(nodeId, header[..]) ==> header[4] <= MAX_MESSAGE_LENGTH
      modifies this`recPhase, this`recPos, this`recLen, this`recCommand, this`recCS, this`recCalcCS
      modifies this`recStation, this`recSender
      ensures Valid()
      ensures Model().phase ==
        if !ForMe(nodeId, header[..]) then Hunting else if header[4] == 0 then BeforeEtx([]) else InData([])
    {
      recStation, recSender, recCommand, recLen := header[1], header[2], header[3], header[4];
      recCalcCS := Add(Add(Add(Add(0, header[1]), header[2]), header[3]), header[4]);
      HeaderSum(header[..]);
      recPhase := 1;
      recPos := 0;
      assert data[..0] == [];
      if recSender == nodeId || (recStation != nodeId && recStation != BROADCAST_ADDRESS) {
        SerialReset();
      } else if recLen == 0 {
        recPhase := 2;
      }
    }

    /** Case 1. */
    method TakeData(inch: Byte)
      requires Valid() && recPhase == 1
      modifies this`recPhase, this`recPos, this`recCalcCS, data
      ensures Valid() && Model() == Step(old(Model()), inch).0
    {
      ChecksumStep(header[..], data[..recPos], inch);
      ghost var before := data[..recPos];
      data[recPos] := inch;
      recPos := recPos + 1;
      assert data[..recPos] == before + [inch];
      recCalcCS := Add(recCalcCS, inch);
      if recPos == recLen {
        recPhase := 2;
      }
    }

    /** Case 4. */
    method EndFrame(inch: Byte)
      requires Valid() && recPhase == 4
      modifies this`recPhase, this`recPos, this`recLen, this`recCommand, this`recCS, this`recCalcCS
      modifies this`packetLen, this`packetFrom, this`packetReceived
      ensures Valid() && Model() == Step(old(Model()), inch).0
      ensures FlaggedBy(Step(old(Model()), inch).1, old(packetReceived))
    {
      if inch == EOT && recCS == recCalcCS && recCommand == ICSC_SYS_PACK {
        packetFrom, packetLen, packetReceived := recSender, recLen, true;
      }
      SerialReset();
    }

    /** A packet is announced and its data lie in the buffer; without one the flag stays as it was. */
    ghost predicate FlaggedBy(ended: seq<Option<Packet>>, before: bool)
      reads this, data
    {
      if |ended| == 1 && ended[0].Some? then
        var p := ended[0].value;
        packetReceived && packetFrom == p.from && packetLen == |p.data| <= data.Length && data[..packetLen] == p.data
      else
        packetReceived == before
    }

    /** One byte through the switch. */
    method ProcessByte(inch: Byte) returns (done: bool)
      requires Valid() && Roomy(Step(Model(), inch).0)
      modifies this, header, data
      ensures Valid() && Model() == Step(old(Model()), inch).0 && done == (Step(old(Model()), inch).1 != [])
      ensures dev == old(dev) && FlaggedBy(Step(old(Model()), inch).1, old(packetReceived))
    {
      done := recPhase == 4;
      if recPhase == 0 {
        Hunt(inch);
      } else if recPhase == 1 {
        TakeData(inch);
      } else if recPhase == 2 {
        if inch == ETX {
          recPhase := 3;
        } else {
          SerialReset();
        }
      } else if recPhase == 3 {
        recCS := inch;
        recPhase := 4;
      } else {
        EndFrame(inch);
      }
    }

    /** One byte from the device. */
    method ReadByte() returns (done: bool)
      requires Valid() && dev != [] && Bounded(Model(), dev)
      modifies this, header, data
      ensures Valid() && Bounded(Model(), dev) && dev == old(dev)[1..]
      ensures Model() == Step(old(Model()), old(dev)[0]).0
      ensures done == (Step(old(Model()), old(dev)[0]).1 != [])
      ensures FlaggedBy(Step(old(Model()), old(dev)[0]).1, old(packetReceived))
    {
      var inch := dev[0];
      BoundedStep(Model(), dev);
      dev := dev[1..];
      done := ProcessByte(inch);
    }

    /** _serialProcess: bytes are read until a frame has ended or none is left.  consumed are the bytes read. */
    method SerialProcess() returns (busy: bool, ghost consumed: seq<Byte>)
      requires Valid() && Bounded(Model(), dev)
      modifies this, header, data
      ensures Valid() && Bounded(Model(), dev) && old(dev) == consumed + dev && busy == (old(dev) != [])
      ensures Model() == Parse(old(Model()), consumed).0
      ensures AnswersLast(Step, old(Model()), consumed) || (Parse(old(Model()), consumed).1 == [] && dev == [])
      ensures |Parse(old(Model()), consumed).1| <= 1
      ensures FlaggedBy(Parse(old(Model()), consumed).1, old(packetReceived))
    {
      busy := dev != [];
      consumed := [];
      ghost var start := Model();
      while dev != []
        invariant Valid() && Bounded(Model(), dev) && old(dev) == consumed + dev
        invariant Parse(start, consumed) == (Model(), []) && packetReceived == old(packetReceived)
        decreases |dev|
      {
        ghost var before, left, read := Model(), dev, consumed;
        var done := ReadByte();
        ParseOne(start, read, before, left[0]);
        assert old(dev) == (read + [left[0]]) + left[1..];
        consumed := read + [left[0]];
        if done {
          return;
        }
      }
    }

    /** transportAvailable. */
    method TransportAvailable() returns (available: bool, ghost consumed: seq<Byte>)
      requires Valid() && Bounded(Model(), dev)
      modifies this, header, data
      ensures Valid() && Bounded(Model(), dev) && old(dev) == consumed + dev
      ensures Model() == Parse(old(Model()), consumed).0 && available == packetReceived
      ensures AnswersLast(Step, old(Model()), consumed) || (Parse(old(Model()), consumed).1 == [] && dev == [])
      ensures |Parse(old(Model()), consumed).1| <= 1
      ensures FlaggedBy(Parse(old(Model()), consumed).1, old(packetReceived))
    {
      var _, bytes := SerialProcess();
      available, consumed := packetReceived, bytes;
    }

    /** transportReceive: the packet, once. */
    method TransportReceive() returns (payload: seq<Byte>)
      requires Valid()
      modifies this`packetReceived
      ensures Valid() && Model() == old(Model()) && !packetReceived
      ensures payload == if old(packetReceived) then data[..packetLen] else []
    {
      if packetReceived {
        payload := data[..packetLen];
        packetReceived := false;
      } else {
        payload := [];
      }
    }

    /** Between two packets: the first of the frames to come has been announced already, if there is one. */
    ghost predicate Announced(rest: seq<Message>)
      reads this, header, data
    {
      && Valid() && Receptive(Model()) && Bounded(Model(), dev) && AllAddressed(nodeId, rest)
      && if rest == [] then !packetReceived && dev == []
         else packetReceived && data[..packetLen] == rest[0].data && dev == Frames(rest[1..])
    }

    /** The program's loop over transportAvailable and transportReceive, on frames that have come in back to back. */
    method ReceiveAll(ghost messages: seq<Message>) returns (payloads: seq<seq<Byte>>)
      requires Valid() && Receptive(Model()) && !packetReceived && AllAddressed(nodeId, messages)
      requires dev == Frames(messages)
      modifies this, header, data
      ensures Valid() && dev == [] && payloads == Payloads(messages)
    {
      payloads := [];
      ghost var rest := messages;
      FramesBounded(Model(), messages);
      var available := ReceiveOne(messages);
      while available
        invariant Announced(rest) && available == packetReceived && payloads + Payloads(rest) == Payloads(messages)
        decreases |rest|
      {
        FirstPayload(payloads, rest);
        var payload := TransportReceive();
        payloads := payloads + [payload];
        rest := rest[1..];
        available := ReceiveOne(rest);
      }
    }

    /** One call of transportAvailable takes the first of the frames. */
    method ReceiveOne(ghost messages: seq<Message>) returns (available: bool)
      requires Valid() && Receptive(Model()) && Bounded(Model(), dev) && !packetReceived
      requires AllAddressed(nodeId, messages)
      requires dev == Frames(messages)
      modifies this, header, data
      ensures Announced(messages) && available == packetReceived
    {
      ghost var start, stream := Model(), dev;
      ghost var bytes;
      available, bytes := TransportAvailable();
      if messages != [] {
        FramesFront(messages);
        TakesOneFrame(start, messages[0], Frames(messages[1..]), bytes, dev);
        FrameDelivered(start, messages[0]);
      } else {
        assert bytes == [];
      }
    }

    /** transportSend, once the line is clear. */
    method WriteFrame(to: Byte, payload: seq<Byte>) returns (written: seq<Byte>)
      requires |payload| <= MAX_MESSAGE_LENGTH
      ensures written == Frame(Packet(to, nodeId, payload))
    {
      var cs: Byte := Add(Add(Add(Add(0, to), nodeId), ICSC_SYS_PACK), |payload|);
      written := [SOH, to, nodeId, ICSC_SYS_PACK, |payload|, STX];
      ghost var h: Window := written;
      HeaderSum(h);
      var i := 0;
      while i < |payload|
        invariant 0 <= i <= |payload| && written == h + payload[..i] && cs == Checksum(h, payload[..i])
      {
        ChecksumStep(h, payload[..i], payload[i]);
        assert payload[..i] + [payload[i]] == payload[..i + 1];
        written := written + [payload[i]];
        cs := Add(cs, payload[i]);
        i := i + 1;
      }
      assert payload[..i] == payload;
      written := written + [ETX, cs, EOT];
    }
  }
}
