/**
 The sending half of AltSoftSerial.cpp: writeByte, the compare interrupt and the ring buffer between them.  Registers
 of the timer unit are 16 bits wide; a ghost trace keeps the unbounded time and what has happened on the line.
 */
module AltSoftSerial {
  import opened LineCode
  import opened SerialBits
  import opened TimerRegisters
  import Rings

  const TX_BUFFER_SIZE := 68

  lemma StepsAhead(t: nat, j: nat, k: nat)
    requires AcceptedRate(t) && j < k <= 10 && k - j <= 9
    ensures Ticks(t, j) < Ticks(t, k) <= Ticks(t, j) + TIMER_RANGE
  {
    TicksAdd(t, j, k - j);
    TicksBounds(t, k - j);
  }

  /** Frames that follow each other at once are spaced well enough for the receiver. */
  lemma NextFrameSpaced(t: nat, frames: seq<Frame>, g: Frame)
    requires AcceptedRate(t) && WellSpaced(t, frames)
    requires frames != [] ==> frames[|frames| - 1].start + Ticks(t, 10) <= g.start
    ensures WellSpaced(t, frames + [g])
  {
    TicksIsProduct(t, 10);
    TicksIsProduct(t, 9);
  }

  /**
   What has happened up to time now: the pin and its edges, the complete frames with their bytes, and the frame in
   progress with its byte.
   */
  datatype Trace = Trace(now: nat, line: bool, edges: seq<Edge>, done: seq<Frame>, sent: seq<Byte>,
                         frame: Frame, current: Byte)

  /** The complete frames carry the bytes sent. */
  ghost predicate Carried(r: Trace) {
    |r.done| == |r.sent| && forall i :: 0 <= i < |r.done| ==> r.done[i].bits == BitsOf(r.sent[i])
  }

  /** Between frames: all frames are on the line and the last has reached its stop bit. */
  ghost predicate Paused(t: nat, r: Trace) {
    && r.line && r.edges == Wave(t, r.done)
    && (r.done != [] ==> r.done[|r.done| - 1].start + Ticks(t, 9) <= r.now)
  }

  /** When the match comes that begins bit time state - 1. */
  ghost function Due(t: nat, r: Trace, state: nat): nat
    requires state >= 1
  {
    r.frame.start + Ticks(t, state - 1)
  }

  /**
   A frame in progress, waiting for the match that begins bit time state - 1: the bit times before are on the line;
   the compare unit has the time and the level of the match; and up to state 9 the shift register holds the bits
   from that bit time on.
   */
  ghost predicate InFrame(t: nat, r: Trace, state: nat, byte: Byte, bit: bool, compare: nat, high: bool) {
    && 1 <= state <= 10 && r.frame.bits == BitsOf(r.current)
    && r.edges == Wave(t, r.done) + EdgesBefore(t, r.frame, state - 1)
    && r.line == Before(r.frame.bits, state - 1)
    && compare == Register(Due(t, r, state)) && r.now < Due(t, r, state) <= r.now + TIMER_RANGE
    && high == Slot(r.frame.bits, state - 1)
    && (state <= 9 ==> bit == high && byte == Shifted(r.current, state - 1))
  }

  /** The same when the match has just come. */
  ghost predicate AtMatch(t: nat, r: Trace, state: nat, byte: Byte, bit: bool, compare: nat) {
    && 1 <= state <= 10 && r.frame.bits == BitsOf(r.current)
    && r.edges == Wave(t, r.done) + EdgesBefore(t, r.frame, state)
    && r.line == Slot(r.frame.bits, state - 1)
    && r.now == Due(t, r, state) && compare == Register(r.now)
    && (state <= 9 ==> bit == r.line && byte == Shifted(r.current, state - 1))
  }

  ghost function Begun(r: Trace, start: nat, b: Byte): Trace {
    r.(frame := Frame(start, BitsOf(b)), current := b)
  }

  lemma FrameBegins(t: nat, r: Trace, start: nat, b: Byte)
    requires r.line && r.edges == Wave(t, r.done) && r.now < start <= r.now + TIMER_RANGE
    ensures InFrame(t, Begun(r, start, b), 1, b, false, Register(start), false)
  {
  }

  /** What a compare match does to the pin. */
  ghost function Driven(t: nat, r: Trace, state: nat, time: nat, high: bool): Trace
    requires state >= 1
  {
    r.(now := time, line := high, edges := r.edges + EdgeAt(t, r.frame, state - 1))
  }

  lemma MatchComes(t: nat, r: Trace, state: nat, byte: Byte, bit: bool, compare: nat, high: bool, time: nat)
    requires InFrame(t, r, state, byte, bit, compare, high)
    requires r.now < time <= r.now + TIMER_RANGE && Register(time) == compare
    ensures time == Due(t, r, state) && AtMatch(t, Driven(t, r, state, time, high), state, byte, bit, compare)
  {
    FirstMatch(r.now, Due(t, r, state), time);
    assert r.edges + EdgeAt(t, r.frame, state - 1)
        == Wave(t, r.done) + (EdgesBefore(t, r.frame, state - 1) + EdgeAt(t, r.frame, state - 1));
  }

  lemma EdgeAwaited(t: nat, r: Trace, state: nat, bit: bool, state': nat, byte': Byte, target: nat)
    requires AcceptedRate(t) && r.frame.bits == BitsOf(r.current) && r.line == bit
    requires 1 <= state < state' <= 9 && r.now == Due(t, r, state)
    requires Scanning(t, r.frame, r.current, state', byte', target)
    requires r.edges == Wave(t, r.done) + EdgesBefore(t, r.frame, state' - 1)
    requires Slot(r.frame.bits, state' - 1) != bit && Slot(r.frame.bits, state' - 2) == bit
    ensures InFrame(t, r, state', byte', !bit, target, !bit)
  {
    DueLater(t, r, state, state');
    LevelBefore(r.frame.bits, state' - 1);
  }

  lemma LevelBefore(bits: Bits, k: nat)
    requires k >= 1
    ensures Before(bits, k) == Slot(bits, k - 1)
  {
  }

  lemma DueLater(t: nat, r: Trace, state: nat, state': nat)
    requires AcceptedRate(t) && 1 <= state < state' <= 10
    ensures Due(t, r, state) < Due(t, r, state') <= Due(t, r, state) + TIMER_RANGE
  {
    StepsAhead(t, state - 1, state' - 1);
  }

  lemma StopAwaited(t: nat, r: Trace, state: nat, byte: Byte, bit: bool, compare: nat, byte': Byte, target: nat)
    requires AcceptedRate(t) && AtMatch(t, r, state, byte, bit, compare)
    requires state <= 9 && Scanning(t, r.frame, r.current, 9, byte', target)
    requires EdgesBefore(t, r.frame, 9) == EdgesBefore(t, r.frame, state) && Slot(r.frame.bits, 8) == bit
    ensures InFrame(t, r, 10, byte, bit, Register(target + t), true)
  {
    DueLater(t, r, state, 10);
    RegisterAdd(r.frame.start + Ticks(t, 8), t);
  }

  ghost function Completed(r: Trace): Trace {
    r.(done := r.done + [r.frame], sent := r.sent + [r.current])
  }

  lemma FrameCompletes(t: nat, r: Trace, byte: Byte, bit: bool, compare: nat)
    requires AtMatch(t, r, 10, byte, bit, compare) && Carried(r)
    ensures Carried(Completed(r)) && Paused(t, Completed(r))
  {
    var done := r.done + [r.frame];
    assert done[..|done| - 1] == r.done;
  }

  /** The bytes accepted from the program: sent, being sent, and waiting. */
  ghost function Written(r: Trace, busy: bool, queue: seq<Byte>): seq<Byte> {
    r.sent + (if busy then [r.current] else []) + queue
  }

  /** The frames begun so far; while busy, the one that the next match begins counts as well. */
  ghost function Frames(r: Trace, busy: bool): seq<Frame> {
    r.done + (if busy then [r.frame] else [])
  }

  /** The trace after writeByte at time time. */
  ghost function AfterWrite(r: Trace, busy: bool, b: Byte, time: nat): Trace {
    if busy then r.(now := time) else Begun(r.(now := time), time + 16, b)
  }

  /** A byte written comes after all bytes before it; on an idle line it begins a frame. */
  lemma WriteKeepsOrder(r: Trace, busy: bool, queue: seq<Byte>, b: Byte, time: nat)
    requires busy || queue == []
    ensures Written(AfterWrite(r, busy, b, time), true, if busy then queue + [b] else [])
         == Written(r, busy, queue) + [b]
    ensures Frames(AfterWrite(r, busy, b, time), true)
         == Frames(r, busy) + if busy then [] else [Frame(time + 16, BitsOf(b))]
  {
  }

  /**
   The trace after a compare match: a frame in progress gets on, a complete one is followed at once by the frame of
   the next waiting byte, if there is one.
   */
  ghost function AfterMatch(t: nat, r: Trace, state: nat, high: bool, queue: seq<Byte>, time: nat): Trace
    requires state >= 1
  {
    var d := Driven(t, r, state, time, high);
    if state < 10 then d else if queue == [] then Completed(d) else Begun(Completed(d), time + t, queue[0])
  }

  ghost predicate BusyAfter(state: nat, queue: seq<Byte>) {
    state < 10 || queue != []
  }

  ghost function QueueAfter(state: nat, queue: seq<Byte>): seq<Byte> {
    if state == 10 && queue != [] then queue[1..] else queue
  }

  /** No byte is lost, repeated or overtaken, and queued frames follow each other without a gap. */
  lemma MatchKeepsOrder(t: nat, r: Trace, state: nat, high: bool, queue: seq<Byte>, time: nat)
    requires 1 <= state <= 10
    ensures Written(AfterMatch(t, r, state, high, queue, time), BusyAfter(state, queue), QueueAfter(state, queue))
         == Written(r, true, queue)
    ensures Frames(AfterMatch(t, r, state, high, queue, time), BusyAfter(state, queue))
         == Frames(r, true) + if state == 10 && queue != [] then [Frame(time + t, BitsOf(queue[0]))] else []
  {
    if state == 10 && queue != [] {
      assert queue == [queue[0]] + queue[1..];
    }
  }

  // Whole runs

  /** What the program and the wire have seen of a transmitter. */
  datatype Tx = Tx(trace: Trace, state: nat, high: bool, queue: seq<Byte>)

  datatype Event = Write(b: Byte, time: nat) | Match(time: nat)

  ghost predicate Sound(t: nat, x: Tx) {
    Carried(x.trace) && x.state <= 10 && (x.state == 0 ==> Paused(t, x.trace) && x.queue == [])
  }

  ghost predicate Step(t: nat, x: Tx, e: Event, x': Tx) {
    match e
    case Write(b, time) =>
      && x.trace.now <= time && x'.state != 0 && x'.trace == AfterWrite(x.trace, x.state != 0, b, time)
      && x'.queue == if x.state != 0 then x.queue + [b] else []
    case Match(time) =>
      && x.state != 0 && time == Due(t, x.trace, x.state)
      && x'.trace == AfterMatch(t, x.trace, x.state, x.high, x.queue, time)
      && x'.queue == QueueAfter(x.state, x.queue)
      && (x'.state != 0 <==> BusyAfter(x.state, x.queue)) && (x.state < 10 ==> x.state < x'.state)
  }

  /** A write on an idle line does not begin its frame before the receiver has recognised the last stop bit. */
  ghost predicate Spaced(t: nat, x: Tx, e: Event) {
    var done := x.trace.done;
    e.Write? && x.state == 0 && done != [] ==> GapOk(t, done[|done| - 1], e.time + 16)
  }

  ghost predicate Started(x: Tx) {
    x.state == 0 && x.queue == [] && x.trace.done == [] && x.trace.sent == []
  }

  /** Any interleaving of writes and compare matches from the start. */
  ghost predicate IsRun(t: nat, xs: seq<Tx>, es: seq<Event>) {
    && |xs| == |es| + 1 && Started(xs[0])
    && (forall i :: 0 <= i < |xs| ==> Sound(t, xs[i]))
    && (forall i :: 0 <= i < |es| ==> Step(t, xs[i], es[i], xs[i + 1]))
  }

  ghost predicate AllSpaced(t: nat, xs: seq<Tx>, es: seq<Event>)
    requires |xs| > |es|
  {
    forall i :: 0 <= i < |es| ==> Spaced(t, xs[i], es[i])
  }

  /** A run is longer by one event. */
  lemma RunGoesOn(t: nat, xs: seq<Tx>, es: seq<Event>, e: Event, x: Tx)
    requires IsRun(t, xs, es) && Sound(t, x) && Step(t, xs[|es|], e, x)
    ensures IsRun(t, xs + [x], es + [e])
  {
  }

  /** The bytes that the program has written, in order. */
  ghost function BytesWritten(es: seq<Event>): seq<Byte> {
    if es == [] then []
    else
      var n := |es| - 1;
      BytesWritten(es[..n]) + if es[n].Write? then [es[n].b] else []
  }

  /** One event adds the byte written, if any, behind all others. */
  lemma StepKeeps(t: nat, x: Tx, e: Event, x': Tx)
    requires Sound(t, x) && Step(t, x, e, x')
    ensures Written(x'.trace, x'.state != 0, x'.queue)
         == Written(x.trace, x.state != 0, x.queue) + if e.Write? then [e.b] else []
  {
    match e
    case Write(b, time) =>
      WriteKeepsOrder(x.trace, x.state != 0, x.queue, b, time);
    case Match(time) =>
      MatchKeepsOrder(t, x.trace, x.state, x.high, x.queue, time);
  }

  /** Frames of queued bytes are well spaced, and so are those of writes on an idle line that come late enough. */
  lemma StepKeepsSpacing(t: nat, x: Tx, e: Event, x': Tx)
    requires AcceptedRate(t) && Sound(t, x) && Step(t, x, e, x') && Spaced(t, x, e)
    requires WellSpaced(t, Frames(x.trace, x.state != 0))
    ensures WellSpaced(t, Frames(x'.trace, x'.state != 0))
  {
    match e
    case Write(b, time) =>
      WriteKeepsOrder(x.trace, x.state != 0, x.queue, b, time);
    case Match(time) =>
      MatchKeepsOrder(t, x.trace, x.state, x.high, x.queue, time);
      if x.state == 10 && x.queue != [] {
        NextFrameSpaced(t, Frames(x.trace, true), Frame(time + t, BitsOf(x.queue[0])));
      }
  }

  /** In every run the bytes sent, being sent and waiting are those written, in order. */
  lemma {:induction false} RunKeepsOrder(t: nat, xs: seq<Tx>, es: seq<Event>)
    requires IsRun(t, xs, es)
    ensures
      var x := xs[|es|];
      Written(x.trace, x.state != 0, x.queue) == BytesWritten(es)
  {
    if es == [] {
    } else {
      var n := |es| - 1;
      RunKeepsOrder(t, xs[..n + 1], es[..n]);
      StepKeeps(t, xs[n], es[n], xs[n + 1]);
    }
  }

  lemma {:induction false} RunKeepsSpacing(t: nat, xs: seq<Tx>, es: seq<Event>)
    requires AcceptedRate(t) && IsRun(t, xs, es) && AllSpaced(t, xs, es)
    ensures
      var x := xs[|es|];
      WellSpaced(t, Frames(x.trace, x.state != 0))
  {
    if es == [] {
    } else {
      var n := |es| - 1;
      RunKeepsSpacing(t, xs[..n + 1], es[..n]);
      StepKeepsSpacing(t, xs[n], es[n], xs[n + 1]);
    }
  }

  /** The bytes as the receiver delivers them. */
  ghost predicate Carries(received: seq<Bits>, bytes: seq<Byte>) {
    |received| == |bytes| && forall i :: 0 <= i < |bytes| ==> received[i] == BitsOf(bytes[i])
  }

  lemma NothingBusy(r: Trace)
    ensures Written(r, false, []) == r.sent && Frames(r, false) == r.done
  {
  }

  lemma Delivered(t: nat, r: Trace)
    requires Decodable(t) && Carried(r) && Paused(t, r) && WellSpaced(t, r.done)
    ensures Carries(Received(t, r.edges), r.sent)
  {
    RoundTrip(t, r.done);
  }

  /**
   Whatever the interleaving of writes and interrupts: once the transmitter is idle, a receiver at the other end of
   the line has decoded exactly the bytes written, in order, unless a write on an idle line came too early for it.
   */
  lemma RunIsReceived(t: nat, xs: seq<Tx>, es: seq<Event>)
    requires Decodable(t) && IsRun(t, xs, es) && AllSpaced(t, xs, es) && xs[|es|].state == 0
    ensures Carries(Received(t, xs[|es|].trace.edges), BytesWritten(es))
  {
    RunKeepsOrder(t, xs, es);
    RunKeepsSpacing(t, xs, es);
    var r := xs[|es|].trace;
    NothingBusy(r);
    Delivered(t, r);
  }

  /** The locals of the compare interrupt when bit times up to state - 1 have been looked at. */
  ghost predicate Scanning(t: nat, f: Frame, b: Byte, state: nat, byte: Byte, target: nat) {
    && 1 <= state <= 9 && byte == Shifted(b, state - 1)
    && target == Register(f.start + Ticks(t, state - 1))
  }

  method NextBit(t: nat, state0: nat, byte0: Byte, target0: nat, ghost f: Frame, ghost b: Byte)
    returns (state: nat, byte: Byte, target: nat, bit: bool)
    requires state0 < 9 && Scanning(t, f, b, state0, byte0, target0) && f.bits == BitsOf(b)
    ensures state == state0 + 1 && Scanning(t, f, b, state, byte, target) && bit == Slot(f.bits, state0)
  {
    RegisterAdd(f.start + Ticks(t, state0 - 1), t);
    target := Register(target0 + t);
    bit := LowBit(byte0);
    byte := DropBit(byte0);
    state := state0 + 1;
  }

  /** The loop of the compare interrupt: the search for the next bit time that begins with an edge. */
  method FindEdge(t: nat, state0: nat, byte0: Byte, target0: nat, txBit: bool, ghost f: Frame, ghost b: Byte)
    returns (state: nat, byte: Byte, target: nat, found: bool)
    requires Scanning(t, f, b, state0, byte0, target0) && f.bits == BitsOf(b) && txBit == Slot(f.bits, state0 - 1)
    ensures state0 <= state && Scanning(t, f, b, state, byte, target)
    ensures
      if found then
        && state0 < state && EdgesBefore(t, f, state - 1) == EdgesBefore(t, f, state0)
        && Slot(f.bits, state - 1) != txBit && Slot(f.bits, state - 2) == txBit
      else
        state == 9 && EdgesBefore(t, f, 9) == EdgesBefore(t, f, state0) && Slot(f.bits, 8) == txBit
  {
    state, byte, target, found := state0, byte0, target0, false;
    while state < 9
      invariant state0 <= state && Scanning(t, f, b, state, byte, target)
      invariant EdgesBefore(t, f, state) == EdgesBefore(t, f, state0) && Slot(f.bits, state - 1) == txBit
    {
      var bit;
      state, byte, target, bit := NextBit(t, state, byte, target, f, b);
      if bit != txBit {
        return state, byte, target, true;
      }
    }
  }

  class Transmitter {
    const ticksPerBit: nat
    var txState: nat
    var txByte: Byte
    var txBit: bool
    var head: nat
    var tail: nat
    const buffer: array<Byte>

    // Timer unit: the compare register, the level that a match gives to the pin, and whether matches count
    var compareA: nat
    var matchHigh: bool
    var interruptA: bool

    ghost var trace: Trace

    ghost predicate IsRing()
      reads this
    {
      buffer.Length >= TX_BUFFER_SIZE && head < TX_BUFFER_SIZE && tail < TX_BUFFER_SIZE
    }

    /** The bytes that wait for their frame. */
    ghost function Queue(): seq<Byte>
      requires IsRing()
      reads this, buffer
    {
      Rings.Waiting(buffer[..], head, tail, TX_BUFFER_SIZE)
    }

    ghost function View(): Tx
      requires IsRing()
      reads this, buffer
    {
      Tx(trace, txState, matchHigh, Queue())
    }

    ghost predicate Waits()
      reads this
    {
      interruptA && InFrame(ticksPerBit, trace, txState, txByte, txBit, compareA, matchHigh)
    }

    /** An idle transmitter has nothing left to send. */
    ghost predicate Valid()
      reads this, buffer
    {
      && AcceptedRate(ticksPerBit) && IsRing() && Carried(trace)
      && if txState == 0 then !interruptA && Paused(ticksPerBit, trace) && Queue() == [] else Waits()
    }

    /** Every state of this class is a state of a run. */
    lemma ValidIsSound()
      requires Valid()
      ensures Sound(ticksPerBit, View())
      ensures Queue() != [] ==> txState != 0 && interruptA
    {
    }

    constructor (ticksPerBit: nat)
      requires AcceptedRate(ticksPerBit)
      ensures Valid() && this.ticksPerBit == ticksPerBit && fresh(buffer) && Started(View())
      ensures trace.now == 0
    {
      this.ticksPerBit := ticksPerBit;
      txState, txByte, txBit := 0, 0, false;
      head, tail := 0, 0;
      buffer := new Byte[Rings.RX_BUFFER_SIZE];
      compareA, matchHigh, interruptA := 0, true, false;
      trace := Trace(0, true, [], [], [], Frame(0, BitsOf(0)), 0);
    }

    /** writeByte, from the moment at which the wait for space in the buffer is over. */
    method WriteByte(b: Byte, time: nat)
      requires Valid() && trace.now <= time && (txState != 0 ==> time < Due(ticksPerBit, trace, txState))
      requires Rings.Next(head, TX_BUFFER_SIZE) != tail
      modifies this, buffer
      ensures Valid() && Step(ticksPerBit, old(View()), Write(b, time), View())
    {
      ghost var x := View();
      if txState != 0 {
        WriteBehind(b, time);
      } else {
        WriteFirst(b, time);
      }
      assert Step(ticksPerBit, x, Write(b, time), View());
    }

    method WriteBehind(b: Byte, time: nat)
      requires Valid() && txState != 0 && trace.now <= time < Due(ticksPerBit, trace, txState)
      requires Rings.Next(head, TX_BUFFER_SIZE) != tail
      modifies this`trace, this`head, buffer
      ensures Valid() && trace == old(trace).(now := time) && Queue() == old(Queue()) + [b]
    {
      trace := trace.(now := time);
      Enqueue(b);
    }

    method WriteFirst(b: Byte, time: nat)
      requires Valid() && txState == 0 && trace.now <= time
      modifies this`txState, this`txByte, this`txBit, this`matchHigh, this`compareA, this`interruptA, this`trace
      ensures Valid() && txState != 0 && trace == Begun(old(trace).(now := time), time + 16, b) && Queue() == []
    {
      trace := trace.(now := time);
      RegisterAdd(time, 16);
      StartFrame(b, time + 16, Register(Register(time) + 16));
    }

    method Enqueue(b: Byte)
      requires IsRing() && Rings.Next(head, TX_BUFFER_SIZE) != tail
      modifies this`head, buffer
      ensures IsRing() && Queue() == old(Queue()) + [b]
    {
      var next := Rings.Next(head, TX_BUFFER_SIZE);
      Rings.Push(buffer[..], head, tail, TX_BUFFER_SIZE, b);
      buffer[next] := b;
      head := next;
    }

    method Dequeue() returns (b: Byte)
      requires IsRing() && head != tail
      modifies this`tail
      ensures IsRing() && old(Queue()) != [] && b == old(Queue())[0] && Queue() == old(Queue())[1..]
    {
      Rings.Pop(buffer[..], head, tail, TX_BUFFER_SIZE);
      tail := Rings.Next(tail, TX_BUFFER_SIZE);
      b := buffer[tail];
    }

    /** Both places that begin a frame: the start bit is to come at time start. */
    method StartFrame(b: Byte, ghost start: nat, compare: nat)
      requires trace.line && trace.edges == Wave(ticksPerBit, trace.done)
      requires trace.now < start <= trace.now + TIMER_RANGE && compare == Register(start)
      modifies this`txState, this`txByte, this`txBit, this`matchHigh, this`compareA, this`interruptA, this`trace
      ensures Waits() && txState == 1 && trace == Begun(old(trace), start, b)
    {
      FrameBegins(ticksPerBit, trace, start, b);
      txState, txByte, txBit := 1, b, false;
      interruptA, matchHigh, compareA := true, false, compare;
      trace := Begun(trace, start, b);
    }

    /**
     The compare match and its interrupt routine.  A frame in progress gets to a later bit time; when it is complete
     the next byte from the buffer follows without a pause, or the transmitter falls idle.
     */
    method CompareA(time: nat)
      requires Valid() && interruptA && trace.now < time <= trace.now + TIMER_RANGE && Register(time) == compareA
      modifies this
      ensures Valid() && Step(ticksPerBit, old(View()), Match(time), View())
    {
      ghost var x := View();
      MatchComes(ticksPerBit, trace, txState, txByte, txBit, compareA, matchHigh, time);
      trace := Driven(ticksPerBit, trace, txState, time, matchHigh);
      Interrupt();
      assert Step(ticksPerBit, x, Match(time), View());
    }

    /** The interrupt routine, at the time of the match. */
    method Interrupt()
      requires AcceptedRate(ticksPerBit) && IsRing() && Carried(trace) && interruptA
      requires AtMatch(ticksPerBit, trace, txState, txByte, txBit, compareA)
      modifies this`txState, this`txByte, this`txBit, this`matchHigh, this`compareA
      modifies this`interruptA, this`trace, this`tail
      ensures Valid() && Queue() == QueueAfter(old(txState), old(Queue()))
      ensures txState != 0 <==> BusyAfter(old(txState), old(Queue()))
      ensures if old(txState) < 10 then
          old(txState) < txState && trace == old(trace)
        else
          trace == if old(Queue()) == [] then Completed(old(trace))
                   else Begun(Completed(old(trace)), trace.now + ticksPerBit, old(Queue())[0])
    {
      if txState <= 9 {
        ScanBits();
      } else {
        NextByte();
      }
    }

    /** The search for the next edge; without one the stop bit comes next. */
    method ScanBits()
      requires AcceptedRate(ticksPerBit) && AtMatch(ticksPerBit, trace, txState, txByte, txBit, compareA)
      requires txState <= 9
      modifies this`txState, this`txByte, this`txBit, this`matchHigh, this`compareA
      ensures interruptA == old(interruptA) && old(txState) < txState
      ensures InFrame(ticksPerBit, trace, txState, txByte, txBit, compareA, matchHigh)
    {
      var state, byte, target, found :=
        FindEdge(ticksPerBit, txState, txByte, compareA, txBit, trace.frame, trace.current);
      if found {
        AwaitEdge(state, byte, target);
      } else {
        AwaitStop(byte, target);
      }
    }

    method AwaitEdge(state: nat, byte: Byte, target: nat)
      requires AcceptedRate(ticksPerBit) && AtMatch(ticksPerBit, trace, txState, txByte, txBit, compareA)
      requires txState < state <= 9 && Scanning(ticksPerBit, trace.frame, trace.current, state, byte, target)
      requires EdgesBefore(ticksPerBit, trace.frame, state - 1) == EdgesBefore(ticksPerBit, trace.frame, txState)
      requires Slot(trace.frame.bits, state - 1) != txBit && Slot(trace.frame.bits, state - 2) == txBit
      modifies this`txState, this`txByte, this`txBit, this`matchHigh, this`compareA
      ensures txState == state && InFrame(ticksPerBit, trace, txState, txByte, txBit, compareA, matchHigh)
    {
      EdgeAwaited(ticksPerBit, trace, txState, txBit, state, byte, target);
      txBit := !txBit;
      txByte, txState := byte, state;
      matchHigh, compareA := txBit, target;
    }

    method AwaitStop(byte: Byte, target: nat)
      requires AcceptedRate(ticksPerBit) && AtMatch(ticksPerBit, trace, txState, txByte, txBit, compareA)
      requires txState <= 9 && Scanning(ticksPerBit, trace.frame, trace.current, 9, byte, target)
      requires EdgesBefore(ticksPerBit, trace.frame, 9) == EdgesBefore(ticksPerBit, trace.frame, txState)
      requires Slot(trace.frame.bits, 8) == txBit
      modifies this`txState, this`matchHigh, this`compareA
      ensures txState == 10 && InFrame(ticksPerBit, trace, txState, txByte, txBit, compareA, matchHigh)
    {
      StopAwaited(ticksPerBit, trace, txState, txByte, txBit, compareA, byte, target);
      txState := 10;
      matchHigh, compareA := true, Register(target + ticksPerBit);
    }

    /** The end of a frame: the next byte from the buffer, or a pause. */
    method NextByte()
      requires AcceptedRate(ticksPerBit) && IsRing() && Carried(trace)
      requires AtMatch(ticksPerBit, trace, 10, txByte, txBit, compareA)
      modifies this`txState, this`txByte, this`txBit, this`matchHigh, this`compareA
      modifies this`interruptA, this`trace, this`tail
      ensures Valid()
      ensures if old(Queue()) == [] then
          txState == 0 && Queue() == [] && trace == Completed(old(trace))
        else
          && txState == 1 && Queue() == old(Queue())[1..]
          && trace == Begun(Completed(old(trace)), trace.now + ticksPerBit, old(Queue())[0])
    {
      FrameCompletes(ticksPerBit, trace, txByte, txBit, compareA);
      trace := Completed(trace);
      Rings.IsEmpty(head, tail, TX_BUFFER_SIZE);
      if head == tail {
        txState := 0;
        interruptA := false;
      } else {
        BeginNext();
      }
    }

    /** The oldest waiting byte, one bit time after the match that has just come. */
    method BeginNext()
      requires AcceptedRate(ticksPerBit) && IsRing() && Carried(trace) && Paused(ticksPerBit, trace)
      requires Queue() != [] && compareA == Register(trace.now)
      modifies this`txState, this`txByte, this`txBit, this`matchHigh, this`compareA
      modifies this`interruptA, this`trace, this`tail
      ensures Valid() && txState == 1 && Queue() == old(Queue())[1..]
      ensures trace == Begun(old(trace), old(trace.now) + ticksPerBit, old(Queue())[0])
    {
      Rings.IsEmpty(head, tail, TX_BUFFER_SIZE);
      var b := Dequeue();
      RegisterAdd(trace.now, ticksPerBit);
      StartFrame(b, trace.now + ticksPerBit, Register(compareA + ticksPerBit));
    }
  }
}
