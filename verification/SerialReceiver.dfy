/**
 The receiving half of AltSoftSerial.cpp: the capture interrupt, the timeout interrupt, and the ring buffer from which
 the program reads.
 */
module SerialReceiver {
  import opened LineCode
  import opened Options
  import opened SerialBits
  import opened TimerRegisters
  import Rings

  /** rx_stop_ticks fits its 16 bits for every bit rate that init accepts. */
  lemma StopTicksFit(t: nat)
    requires AcceptedRate(t)
    ensures 0 < StopTicks(t) < TIMER_RANGE
  {
  }

  /** The 16-bit difference of two registers. */
  lemma OffsetOfRegisters(c: nat, sample: nat)
    ensures Offset(Register(c), Register(sample)) == Offset(c, sample)
  {
    RegisterIsRemainder(c);
    RegisterIsRemainder(sample);
    DifferenceOfRemainders(c, sample);
  }

  lemma DifferenceOfRemainders(c: int, s: int)
    ensures (c % TIMER_RANGE - s % TIMER_RANGE) % TIMER_RANGE == (c - s) % TIMER_RANGE
  {
  }

  /** The byte that consists of eight bits. */
  function ByteOf(bits: Bits): Byte {
    AddBits(0, bits)
  }

  lemma ByteOfBits(b: Byte, junk: Byte, bits: Bits)
    ensures ByteOf(BitsOf(b)) == b && BitsOf(ByteOf(bits)) == bits && AddBits(junk, bits) == ByteOf(bits)
  {
    BitsOfAddBits(0, BitsOf(b));
    SameBits(ByteOf(BitsOf(b)), b);
    BitsOfAddBits(0, bits);
    BitsOfAddBits(junk, bits);
    SameBits(AddBits(junk, bits), ByteOf(bits));
  }

  /** The ring takes a byte unless it is full. */
  function Pushed(queue: seq<Byte>, b: Byte): seq<Byte> {
    if |queue| == Rings.RX_BUFFER_SIZE - 1 then queue else queue + [b]
  }

  function PushedAll(queue: seq<Byte>, bytes: seq<Byte>): seq<Byte> {
    if bytes == [] then queue else Pushed(PushedAll(queue, bytes[..|bytes| - 1]), bytes[|bytes| - 1])
  }

  /** What completed bytes do to the waiting ones. */
  function Stored(queue: seq<Byte>, bytes: seq<Bits>): seq<Byte> {
    if bytes == [] then queue else Pushed(Stored(queue, bytes[..|bytes| - 1]), ByteOf(bytes[|bytes| - 1]))
  }

  /** Bytes that find room are kept in order; only a full ring drops one. */
  lemma {:induction false} PushedAllKeeps(queue: seq<Byte>, bytes: seq<Byte>)
    requires |queue| < Rings.RX_BUFFER_SIZE
    ensures |PushedAll(queue, bytes)| < Rings.RX_BUFFER_SIZE && queue <= PushedAll(queue, bytes)
    ensures |queue| + |bytes| < Rings.RX_BUFFER_SIZE ==> PushedAll(queue, bytes) == queue + bytes
  {
    if bytes == [] {
    } else {
      var n := |bytes| - 1;
      PushedAllKeeps(queue, bytes[..n]);
      assert bytes[..n] + [bytes[n]] == bytes;
    }
  }

  /** The registers and variables of the receiver stand for rx. */
  ghost predicate Tracks(rx: Receiver, state: nat, byte: Byte, bit: bool, target: nat, compareB: nat, interruptB: bool,
                         falling: bool, junk: Byte) {
    match rx
    case Idle => state == 0 && !bit && falling && !interruptB
    case Busy(sample, deadline, high, bits) =>
      && |bits| < 8 && state == 1 + |bits| && byte == AddBits(junk, bits) && target == Register(sample)
      && bit == !high && falling == high && interruptB && compareB == Register(deadline)
  }

  /** The loop of the capture interrupt; level is the line before the edge. */
  method Samples(t: nat, capture: nat, state0: nat, byte0: Byte, target0: nat, level: bool,
                 ghost time: nat, ghost rx: Receiver, ghost junk: Byte)
    returns (state: nat, byte: Byte, target: nat, ghost bits: seq<bool>)
    requires capture == Register(time) && rx.Busy? && |rx.bits| < 8 && rx.high == level
    requires state0 == 1 + |rx.bits| && byte0 == AddBits(junk, rx.bits) && target0 == Register(rx.sample)
    ensures state == 1 + |bits| <= 9 && byte == AddBits(junk, bits)
    ensures
      var h := TakeSamples(t, time, rx);
      if |bits| == 8 then h == Heard(Idle, [bits])
      else
        && h.rx.Busy? && h.bytes == [] && h.rx.bits == bits && target == Register(h.rx.sample)
        && h.rx.high == !level && h.rx.deadline == rx.deadline
  {
    state, byte, target, bits := state0, byte0, target0, rx.bits;
    ghost var now := rx;
    while true
      invariant now.Busy? && now.bits == bits && |bits| < 8 && now.high == level && now.deadline == rx.deadline
      invariant state == 1 + |bits| && byte == AddBits(junk, bits) && target == Register(now.sample)
      invariant TakeSamples(t, time, rx) == TakeSamples(t, time, now)
      decreases 8 - |bits|
    {
      OffsetOfRegisters(time, now.sample);
      var offset := Offset(capture, target);
      if offset < 0 {
        break;
      }
      OneMoreBit(junk, bits, level);
      RegisterAdd(now.sample, t);
      byte := AddBit(byte, level);
      target := Register(target + t);
      state := state + 1;
      bits := bits + [level];
      if state >= 9 {
        break;
      }
      now := now.(sample := now.sample + t, bits := bits);
    }
  }

  /** The loop of the timeout interrupt. */
  method FillByte(byte0: Byte, state0: nat, level: bool, ghost bits0: seq<bool>, ghost junk: Byte) returns (byte: Byte)
    requires |bits0| < 8 && state0 == 1 + |bits0| && byte0 == AddBits(junk, bits0)
    ensures byte == AddBits(junk, Fill(bits0, level))
  {
    byte := byte0;
    var state := state0;
    ghost var bits := bits0;
    while state < 9
      invariant state == 1 + |bits| <= 9 && byte == AddBits(junk, bits) && |bits0| <= |bits|
      invariant bits == bits0 + seq(|bits| - |bits0|, i => level)
    {
      OneMoreBit(junk, bits, level);
      byte := AddBit(byte, level);
      state := state + 1;
      bits := bits + [level];
    }
  }

  lemma {:induction false} StoredTwice(queue: seq<Byte>, a: seq<Bits>, b: seq<Bits>)
    ensures Stored(queue, a + b) == Stored(Stored(queue, a), b)
  {
    if b == [] {
      assert a + b == a;
    } else {
      var n := |b| - 1;
      assert (a + b)[..|a + b| - 1] == a + b[..n];
      StoredTwice(queue, a, b[..n]);
    }
  }

  lemma OneMoreBit(junk: Byte, bits: seq<bool>, level: bool)
    ensures AddBits(junk, bits + [level]) == AddBit(AddBits(junk, bits), level)
  {
    assert (bits + [level])[..|bits|] == bits;
  }

  class ReceiveUnit {
    const ticksPerBit: nat
    var rxState: nat
    var rxByte: Byte
    var rxBit: bool
    var rxTarget: nat
    var head: nat
    var tail: nat
    const buffer: array<Byte>

    // Timer unit: the polarity that the capture unit waits for, and the compare register of the timeout
    var captureFalling: bool
    var compareB: nat
    var interruptB: bool

    /** The receiver in unbounded time, and what the shift register held before the present byte. */
    ghost var rx: Receiver
    ghost var junk: Byte

    ghost predicate IsRing()
      reads this
    {
      buffer.Length == Rings.RX_BUFFER_SIZE && head < Rings.RX_BUFFER_SIZE && tail < Rings.RX_BUFFER_SIZE
    }

    /** The bytes that wait for the program. */
    ghost function Queue(): seq<Byte>
      requires IsRing()
      reads this, buffer
    {
      Rings.Waiting(buffer[..], head, tail, Rings.RX_BUFFER_SIZE)
    }

    ghost predicate Valid()
      reads this
    {
      && AcceptedRate(ticksPerBit) && IsRing()
      && Tracks(rx, rxState, rxByte, rxBit, rxTarget, compareB, interruptB, captureFalling, junk)
    }

    constructor (ticksPerBit: nat)
      requires AcceptedRate(ticksPerBit)
      ensures Valid() && this.ticksPerBit == ticksPerBit && rx == Idle && Queue() == [] && fresh(buffer)
    {
      this.ticksPerBit := ticksPerBit;
      rxState, rxByte, rxBit, rxTarget := 0, 0, false, 0;
      head, tail := 0, 0;
      buffer := new Byte[Rings.RX_BUFFER_SIZE];
      captureFalling, compareB, interruptB := true, 0, false;
      rx, junk := Idle, 0;
    }

    /** The end of both interrupt routines: the byte goes into the ring if there is room. */
    method Store(b: Byte)
      requires IsRing()
      modifies this`head, buffer
      ensures IsRing() && Queue() == Pushed(old(Queue()), b)
    {
      var next := Rings.Next(head, Rings.RX_BUFFER_SIZE);
      Rings.IsFull(head, tail, Rings.RX_BUFFER_SIZE);
      if next != tail {
        Rings.Push(buffer[..], head, tail, Rings.RX_BUFFER_SIZE, b);
        buffer[next] := b;
        head := next;
      }
    }

    /** The capture interrupt, for an edge of the polarity waited for. */
    method Capture(time: nat)
      requires Valid()
      modifies this, buffer
      ensures Valid()
      ensures
        var h := OnEdge(ticksPerBit, old(rx), Edge(time, !old(captureFalling)));
        rx == h.rx && Queue() == Stored(old(Queue()), h.bytes)
    {
      var capture := Register(time);
      if rxState == 0 {
        BeginByte(capture, time);
      } else {
        ContinueByte(capture, time);
      }
    }

    method BeginByte(capture: nat, ghost time: nat)
      requires Valid() && rxState == 0 && capture == Register(time)
      modifies this
      ensures Valid() && rx == OnEdge(ticksPerBit, Idle, Edge(time, false)).rx && Queue() == old(Queue())
    {
      RegisterAdd(time, StopTicks(ticksPerBit));
      RegisterAdd(time, ticksPerBit + ticksPerBit / 2);
      captureFalling, rxBit := false, true;
      compareB, interruptB := Register(capture + StopTicks(ticksPerBit)), true;
      rxTarget := Register(capture + (ticksPerBit + ticksPerBit / 2));
      rxState := 1;
      rx, junk := OnEdge(ticksPerBit, Idle, Edge(time, false)).rx, rxByte;
    }

    method ContinueByte(capture: nat, ghost time: nat)
      requires Valid() && rxState != 0 && capture == Register(time)
      modifies this, buffer
      ensures Valid()
      ensures
        var h := TakeSamples(ticksPerBit, time, old(rx));
        rx == h.rx && Queue() == Stored(old(Queue()), h.bytes)
    {
      ghost var h := TakeSamples(ticksPerBit, time, rx);
      rxBit, captureFalling := !rxBit, rxBit;
      ghost var bits;
      rxState, rxByte, rxTarget, bits :=
        Samples(ticksPerBit, capture, rxState, rxByte, rxTarget, rxBit, time, rx, junk);
      rx := h.rx;
      if rxState >= 9 {
        FinishByte(bits);
      }
    }

    method FinishByte(ghost bits: Bits)
      requires AcceptedRate(ticksPerBit) && IsRing() && rx == Idle && rxByte == AddBits(junk, bits)
      modifies this`rxState, this`rxBit, this`captureFalling, this`interruptB, this`head, buffer
      ensures Valid() && Queue() == Stored(old(Queue()), [bits])
    {
      ByteOfBits(0, junk, bits);
      interruptB := false;
      Store(rxByte);
      captureFalling, rxBit := true, false;
      rxState := 0;
    }

    /** The timeout interrupt: the rest of the byte has the level of the line. */
    method CompareB(ghost time: nat, ghost armed: nat)
      requires Valid() && interruptB && rx.deadline == armed + StopTicks(ticksPerBit)
      requires armed < time <= armed + TIMER_RANGE && Register(time) == compareB
      modifies this, buffer
      ensures Valid() && time == old(rx.deadline)
      ensures rx == Idle && Queue() == Stored(old(Queue()), OnDeadline(old(rx)).bytes)
    {
      StopTicksFit(ticksPerBit);
      FirstMatch(armed, rx.deadline, time);
      var byte := FillByte(rxByte, rxState, !rxBit, rx.bits, junk);
      ghost var bits := Fill(rx.bits, rx.high);
      ByteOfBits(0, junk, bits);
      interruptB := false;
      Store(byte);
      rxByte, rxState, captureFalling, rxBit := byte, 0, true, false;
      rx := Idle;
    }

    /**
     An edge on the wire as the timer unit reports it: a timeout that is due comes first, and only the polarity waited
     for is captured.
     */
    method OnWire(e: Edge, due: bool, ghost armed: nat)
      requires Valid() && (due <==> rx.Busy? && rx.deadline < e.time)
      requires rx.Busy? ==> rx.deadline == armed + StopTicks(ticksPerBit)
      modifies this, buffer
      ensures Valid()
      ensures
        var h := Next(ticksPerBit, Heard(old(rx), []), e);
        rx == h.rx && Queue() == Stored(old(Queue()), h.bytes)
    {
      ghost var first := if due then OnDeadline(rx) else Heard(rx, []);
      ghost var second := OnEdge(ticksPerBit, first.rx, e);
      StoredTwice(Queue(), first.bytes, second.bytes);
      if due {
        StopTicksFit(ticksPerBit);
        CompareB(rx.deadline, armed);
      }
      if e.high != captureFalling {
        Capture(e.time);
      }
    }

    /** Interrupts that complete bytes while the program is busy. */
    method Interrupted(bytes: seq<Byte>)
      requires IsRing()
      modifies this`head, buffer
      ensures IsRing() && Queue() == PushedAll(old(Queue()), bytes)
    {
      var i := 0;
      while i < |bytes|
        invariant 0 <= i <= |bytes| && IsRing() && Queue() == PushedAll(old(Queue()), bytes[..i])
      {
        assert bytes[..i + 1][..i] == bytes[..i];
        Store(bytes[i]);
        i := i + 1;
      }
      assert bytes[..i] == bytes;
    }

    /**
     read, with the bytes that interrupts complete after it has looked at head and tail, and before it moves the
     tail.  None stands for -1.
     */
    method Read(before: seq<Byte>, after: seq<Byte>) returns (out: Option<Byte>)
      requires IsRing()
      modifies this`head, this`tail, buffer
      ensures IsRing()
      ensures if old(Queue()) == [] then
          out == None && Queue() == PushedAll([], before)
        else
          out == Some(old(Queue())[0]) && Queue() == PushedAll(PushedAll(old(Queue()), before), after)[1..]
    {
      var head0, tail0 := head, tail;
      Rings.IsEmpty(head, tail, Rings.RX_BUFFER_SIZE);
      PushedAllKeeps(Queue(), before);
      Interrupted(before);
      if head0 == tail0 {
        return None;
      }
      var next := Rings.Next(tail0, Rings.RX_BUFFER_SIZE);
      Rings.IsEmpty(head, tail, Rings.RX_BUFFER_SIZE);
      Rings.Pop(buffer[..], head, tail, Rings.RX_BUFFER_SIZE);
      out := Some(buffer[next]);
      PushedAllKeeps(Queue(), after);
      Interrupted(after);
      Rings.IsEmpty(head, tail, Rings.RX_BUFFER_SIZE);
      Rings.Pop(buffer[..], head, tail, Rings.RX_BUFFER_SIZE);
      tail := next;
    }

    /** available, with the interrupts between its two looks at the ring. */
    method Available(between: seq<Byte>) returns (count: nat)
      requires IsRing()
      modifies this`head, buffer
      ensures IsRing() && count == |old(Queue())| && Queue() == PushedAll(old(Queue()), between)
    {
      var head0 := head;
      Interrupted(between);
      var tail0 := tail;
      count := if head0 >= tail0 then head0 - tail0 else Rings.RX_BUFFER_SIZE + head0 - tail0;
    }
  }
}
