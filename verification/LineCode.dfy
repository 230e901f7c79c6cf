/**
 The line code of AltSoftSerial.cpp over ideal, unbounded time: what a byte looks like on the wire, what the capture
 and timeout interrupts make of a wave, and when the second undoes the first.  Times are counted in timer ticks and t
 is the number of ticks per bit.
 */
module LineCode {

  /** Eight data bits, least significant first. */
  type Bits = b: seq<bool> | |b| == 8 witness [false, false, false, false, false, false, false, false]

  datatype Edge = Edge(time: nat, high: bool)

  datatype Frame = Frame(start: nat, bits: Bits)

  /** k bit times. */
  function Ticks(t: nat, k: nat): nat {
    if k == 0 then 0 else Ticks(t, k - 1) + t
  }

  lemma {:induction false} TicksAdd(t: nat, j: nat, k: nat)
    ensures Ticks(t, j + k) == Ticks(t, j) + Ticks(t, k)
  {
    if k == 0 {
    } else {
      TicksAdd(t, j, k - 1);
    }
  }

  lemma {:induction false} TicksIsProduct(t: nat, k: nat)
    ensures Ticks(t, k) == t * k
  {
    if k == 0 {
    } else {
      TicksIsProduct(t, k - 1);
    }
  }

  lemma TicksBounds(t: nat, k: nat)
    ensures k >= 1 ==> t <= Ticks(t, k)
    ensures k <= 8 ==> Ticks(t, k) <= 8 * t
    ensures k <= 9 ==> Ticks(t, k) <= 9 * t
  {
    TicksIsProduct(t, k);
    if k >= 1 {
      assert t * k >= t * 1;
    }
    if k <= 8 {
      assert t * k <= t * 8;
    }
    if k <= 9 {
      assert t * k <= t * 9;
    }
  }

  // The wave

  /** The line during bit time k of a frame: start bit, data bits, stop bit. */
  predicate Slot(bits: Bits, k: nat) {
    if k == 0 then false else if k <= 8 then bits[k - 1] else true
  }

  /** The line just before bit time k; it idles high. */
  predicate Before(bits: Bits, k: nat) {
    k == 0 || Slot(bits, k - 1)
  }

  /** The edge at the beginning of bit time k, if there is one. */
  function EdgeAt(t: nat, f: Frame, k: nat): seq<Edge> {
    if Slot(f.bits, k) == Before(f.bits, k) then [] else [Edge(f.start + Ticks(t, k), Slot(f.bits, k))]
  }

  function EdgesBefore(t: nat, f: Frame, k: nat): seq<Edge> {
    if k == 0 then [] else EdgesBefore(t, f, k - 1) + EdgeAt(t, f, k - 1)
  }

  /** All edges of a frame: those of its ten bit times. */
  function FrameEdges(t: nat, f: Frame): seq<Edge> {
    EdgesBefore(t, f, 10)
  }

  function Wave(t: nat, frames: seq<Frame>): seq<Edge> {
    if frames == [] then [] else Wave(t, frames[..|frames| - 1]) + FrameEdges(t, frames[|frames| - 1])
  }

  function Sent(frames: seq<Frame>): (bytes: seq<Bits>)
    ensures |bytes| == |frames|
  {
    seq(|frames|, i requires 0 <= i < |frames| => frames[i].bits)
  }

  // The receiver

  /**
   Between bytes, or inside one: then sample is when the next data bit is due, deadline when the timeout comes, high
   the present level of the line and bits what has been sampled.
   */
  datatype Receiver = Idle | Busy(sample: nat, deadline: nat, high: bool, bits: seq<bool>)

  /** The receiver and the bytes that it has completed. */
  datatype Heard = Heard(rx: Receiver, bytes: seq<Bits>)

  /** c - sample as the 16-bit difference that the code tests. */
  function Offset(c: nat, sample: nat): (d: int)
    ensures -0x8000 <= d < 0x8000
  {
    var d := (c - sample) % 0x1_0000;
    if d < 0x8000 then d else d - 0x1_0000
  }

  function StopTicks(t: nat): nat {
    t * 37 / 4
  }

  /** The samples due by time c have the level that the edge at c ends. */
  function TakeSamples(t: nat, c: nat, rx: Receiver): (h: Heard)
    requires rx.Busy? && |rx.bits| < 8
    ensures h.rx.Busy? ==> |h.rx.bits| < 8
    decreases 8 - |rx.bits|
  {
    if Offset(c, rx.sample) < 0 then Heard(rx.(high := !rx.high), [])
    else
      var bits := rx.bits + [rx.high];
      if |bits| == 8 then Heard(Idle, [bits])
      else TakeSamples(t, c, rx.(sample := rx.sample + t, bits := bits))
  }

  predicate Valid(rx: Receiver) {
    rx.Busy? ==> |rx.bits| < 8
  }

  /** An edge; the capture unit reports only the polarity that it waits for. */
  function OnEdge(t: nat, rx: Receiver, e: Edge): (h: Heard)
    requires Valid(rx)
    ensures Valid(h.rx)
  {
    match rx
    case Idle =>
      Heard(if e.high then rx else Busy(e.time + t + t / 2, e.time + StopTicks(t), false, []), [])
    case Busy(_, _, high, _) =>
      if e.high == high then Heard(rx, []) else TakeSamples(t, e.time, rx)
  }

  function Fill(bits: seq<bool>, high: bool): (b: Bits)
    requires |bits| <= 8
  {
    bits + seq(8 - |bits|, i => high)
  }

  /** The timeout: the missing bits have the present level of the line. */
  function OnDeadline(rx: Receiver): (h: Heard)
    requires Valid(rx)
  {
    if rx.Idle? then Heard(Idle, []) else Heard(Idle, [Fill(rx.bits, rx.high)])
  }

  /** A pending deadline passes before the edge; in a tie the capture interrupt has priority. */
  function Next(t: nat, h: Heard, e: Edge): (h': Heard)
    requires Valid(h.rx)
    ensures Valid(h'.rx)
  {
    var due := if h.rx.Busy? && h.rx.deadline < e.time then OnDeadline(h.rx) else Heard(h.rx, []);
    var edge := OnEdge(t, due.rx, e);
    Heard(edge.rx, h.bytes + due.bytes + edge.bytes)
  }

  function Hear(t: nat, h: Heard, wave: seq<Edge>): (h': Heard)
    requires Valid(h.rx)
    ensures Valid(h'.rx)
  {
    if wave == [] then h else Next(t, Hear(t, h, wave[..|wave| - 1]), wave[|wave| - 1])
  }

  /** The bytes received once the line has been quiet for long enough. */
  function Received(t: nat, wave: seq<Edge>): seq<Bits> {
    var h := Hear(t, Heard(Idle, []), wave);
    h.bytes + OnDeadline(h.rx).bytes
  }

  // One frame

  /** The last bit time before k that begins with an edge. */
  ghost function LastEdge(bits: Bits, k: nat): (j: nat)
    requires 1 <= k <= 10
    ensures j < k && forall i :: j <= i < k ==> Slot(bits, i) == Slot(bits, j)
  {
    if k == 1 then 0 else if Slot(bits, k - 1) != Slot(bits, k - 2) then k - 1 else LastEdge(bits, k - 1)
  }

  /** The receiver after m samples of f. */
  ghost function Sampled(t: nat, f: Frame, m: nat, high: bool): Receiver
    requires m <= 8
  {
    Busy(f.start + t + t / 2 + Ticks(t, m), f.start + StopTicks(t), high, f.bits[..m])
  }

  /** What the receiver knows once the edges of f before bit time k have passed. */
  ghost function Within(t: nat, f: Frame, k: nat): Heard
    requires 1 <= k <= 10
  {
    var j := LastEdge(f.bits, k);
    if j == 9 then Heard(Idle, [f.bits])
    else Heard(Sampled(t, f, if j == 0 then 0 else j - 1, Slot(f.bits, j)), [])
  }

  /** Bit rates at which every sample falls inside its bit and the 16-bit difference does not overflow. */
  predicate Decodable(t: nat) {
    2 <= t <= 4368
  }

  /** At the edge that begins bit time k, the samples up to bit k - 2 are due and that of bit k - 1 is not. */
  lemma DueSamples(t: nat, f: Frame, k: nat, m: nat)
    requires Decodable(t) && m < k <= 9 && m <= 8
    ensures Offset(f.start + Ticks(t, k), f.start + t + t / 2 + Ticks(t, m)) >= 0 <==> m <= k - 2
  {
    SampleDistance(t, k, m);
    OffsetSign(t, f.start, Ticks(t, m), Ticks(t, k - m - 1), m <= k - 2);
  }

  lemma SampleDistance(t: nat, k: nat, m: nat)
    requires m < k <= 9
    ensures Ticks(t, k) == Ticks(t, m) + t + Ticks(t, k - m - 1)
    ensures if m <= k - 2 then t <= Ticks(t, k - m - 1) <= 8 * t else Ticks(t, k - m - 1) == 0
  {
    TicksAdd(t, m + 1, k - m - 1);
    TicksBounds(t, k - m - 1);
  }

  lemma OffsetSign(t: nat, start: nat, a: nat, d: nat, due: bool)
    requires Decodable(t) && (if due then t <= d <= 8 * t else d == 0)
    ensures Offset(start + (a + t + d), start + t + t / 2 + a) >= 0 <==> due
  {
    OffsetInRange(start + (a + t + d), start + t + t / 2 + a);
  }

  lemma OffsetInRange(c: nat, sample: nat)
    requires -0x8000 <= c - sample < 0x8000
    ensures Offset(c, sample) == c - sample
  {
  }

  lemma {:induction false} SampleRun(t: nat, f: Frame, k: nat, m: nat)
    requires Decodable(t) && m < k <= 9 && m < 8 && Slot(f.bits, k) != Slot(f.bits, k - 1)
    requires forall i :: m < i < k ==> Slot(f.bits, i) == Slot(f.bits, k - 1)
    ensures
      var high := Slot(f.bits, k - 1);
      TakeSamples(t, f.start + Ticks(t, k), Sampled(t, f, m, high))
        == if k == 9 then Heard(Idle, [f.bits]) else Heard(Sampled(t, f, k - 1, !high), [])
    decreases k - m
  {
    DueSamples(t, f, k, m);
    if k - 2 < m {
    } else {
      NextSample(f.bits, m);
      assert f.bits[m] == Slot(f.bits, m + 1);
      SampledNext(t, f, m, f.bits[m]);
      if m < 7 {
        SampleRun(t, f, k, m + 1);
      }
    }
  }

  lemma SampledNext(t: nat, f: Frame, m: nat, high: bool)
    requires m < 8 && f.bits[m] == high
    ensures
      var rx := Sampled(t, f, m, high);
      rx.(sample := rx.sample + t, bits := rx.bits + [high]) == Sampled(t, f, m + 1, high)
  {
    NextSample(f.bits, m);
  }

  lemma NextSample(bits: Bits, m: nat)
    requires m < 8
    ensures bits[..m] + [bits[m]] == bits[..m + 1] && bits[..8] == bits
  {
  }

  /** One bit time, with the edge that begins it or without. */
  lemma {:induction false} WithinStep(t: nat, f: Frame, k: nat)
    requires Decodable(t) && 1 <= k <= 9
    ensures Hear(t, Within(t, f, k), EdgeAt(t, f, k)) == Within(t, f, k + 1)
  {
    var j := LastEdge(f.bits, k);
    if Slot(f.bits, k) != Slot(f.bits, k - 1) {
      var e := Edge(f.start + Ticks(t, k), Slot(f.bits, k));
      HearOne(t, Within(t, f, k), e);
      BeforeDeadline(t, f, k);
      SampleRun(t, f, k, if j == 0 then 0 else j - 1);
    }
  }

  lemma HearOne(t: nat, h: Heard, e: Edge)
    requires Valid(h.rx)
    ensures Hear(t, h, [e]) == Next(t, h, e)
  {
    assert [e][..0] == [];
    assert Hear(t, h, []) == h;
  }

  lemma BeforeDeadline(t: nat, f: Frame, k: nat)
    requires k <= 9
    ensures f.start + Ticks(t, k) <= f.start + StopTicks(t)
  {
    TicksIsProduct(t, k);
    assert t * k <= t * 9;
  }

  // Whole waves

  lemma {:induction false} HearAppend(t: nat, h: Heard, a: seq<Edge>, b: seq<Edge>)
    requires Valid(h.rx)
    ensures Hear(t, h, a + b) == Hear(t, Hear(t, h, a), b)
  {
    if b == [] {
      assert a + b == a;
    } else {
      var n := |b| - 1;
      assert (a + b)[..|a + b| - 1] == a + b[..n] && (a + b)[|a + b| - 1] == b[n];
      HearAppend(t, h, a, b[..n]);
    }
  }

  /** The bytes heard before do not matter. */
  lemma {:induction false} HearAfter(t: nat, h: Heard, past: seq<Bits>, wave: seq<Edge>)
    requires Valid(h.rx)
    ensures
      var h' := Hear(t, h, wave);
      Hear(t, Heard(h.rx, past + h.bytes), wave) == Heard(h'.rx, past + h'.bytes)
  {
    if wave == [] {
    } else {
      var n := |wave| - 1;
      HearAfter(t, h, past, wave[..n]);
      NextAfter(t, Hear(t, h, wave[..n]), past, wave[n]);
    }
  }

  lemma NextAfter(t: nat, h: Heard, past: seq<Bits>, e: Edge)
    requires Valid(h.rx)
    ensures
      var h' := Next(t, h, e);
      Next(t, Heard(h.rx, past + h.bytes), e) == Heard(h'.rx, past + h'.bytes)
  {
    var due := if h.rx.Busy? && h.rx.deadline < e.time then OnDeadline(h.rx) else Heard(h.rx, []);
    var edge := OnEdge(t, due.rx, e);
    InnerFirst(past, h.bytes, due.bytes, edge.bytes);
  }

  lemma InnerFirst<T>(a: seq<T>, b: seq<T>, c: seq<T>, d: seq<T>)
    ensures (a + b) + c + d == a + (b + c + d)
  {
  }

  /** Idle by the time start, at the latest through the timeout. */
  predicate ReadyAt(rx: Receiver, start: nat) {
    rx.Busy? ==> rx.deadline < start
  }

  lemma {:induction false} FrameFromStart(t: nat, f: Frame, k: nat)
    requires Decodable(t) && 1 <= k <= 10
    ensures Hear(t, Heard(Idle, []), EdgesBefore(t, f, k)) == Within(t, f, k)
  {
    if k == 1 {
      HearOne(t, Heard(Idle, []), Edge(f.start, false));
      assert EdgesBefore(t, f, 1) == [Edge(f.start, false)];
    } else {
      FrameFromStart(t, f, k - 1);
      HearAppend(t, Heard(Idle, []), EdgesBefore(t, f, k - 1), EdgeAt(t, f, k - 1));
      WithinStep(t, f, k - 1);
    }
  }

  /** The frame is complete, or its timeout will complete it. */
  lemma FrameComplete(t: nat, f: Frame)
    ensures
      var h := Within(t, f, 10);
      h.bytes + OnDeadline(h.rx).bytes == [f.bits]
  {
    var j := LastEdge(f.bits, 10);
    if j < 9 {
      var m := if j == 0 then 0 else j - 1;
      assert Slot(f.bits, 9) == Slot(f.bits, j);
      forall i | m <= i < 8
        ensures f.bits[i]
      {
        assert f.bits[i] == Slot(f.bits, i + 1);
      }
      assert Fill(f.bits[..m], true) == f.bits;
    }
  }

  /** The next frame starts after the stop bit has been recognised. */
  predicate GapOk(t: nat, f: Frame, start: nat) {
    f.start + (if f.bits[7] then StopTicks(t) else Ticks(t, 9)) < start
  }

  lemma ReadyAfterFrame(t: nat, f: Frame, start: nat)
    requires GapOk(t, f, start)
    ensures ReadyAt(Within(t, f, 10).rx, start)
  {
    assert Slot(f.bits, 8) == f.bits[7];
  }

  predicate WellSpaced(t: nat, frames: seq<Frame>) {
    forall i :: 0 < i < |frames| ==> GapOk(t, frames[i - 1], frames[i].start)
  }

  /** A frame heard by a receiver that still has a byte to complete. */
  lemma FrameAfter(t: nat, h: Heard, f: Frame)
    requires Decodable(t) && Valid(h.rx) && ReadyAt(h.rx, f.start)
    ensures
      var w := Within(t, f, 10);
      Hear(t, h, FrameEdges(t, f)) == Heard(w.rx, h.bytes + OnDeadline(h.rx).bytes + w.bytes)
  {
    var first, edges := Edge(f.start, false), FrameEdges(t, f);
    var past := h.bytes + OnDeadline(h.rx).bytes;
    StartsWith(t, f, 10);
    assert edges == [first] + edges[1..];
    HearAppend(t, h, [first], edges[1..]);
    HearAppend(t, Heard(Idle, past), [first], edges[1..]);
    HearOne(t, h, first);
    HearOne(t, Heard(Idle, past), first);
    FrameFromStart(t, f, 10);
    HearAfter(t, Heard(Idle, []), past, edges);
    assert past + [] == past;
  }

  lemma {:induction false} StartsWith(t: nat, f: Frame, k: nat)
    requires k >= 1
    ensures |EdgesBefore(t, f, k)| >= 1 && EdgesBefore(t, f, k)[0] == Edge(f.start, false)
  {
    if k > 1 {
      StartsWith(t, f, k - 1);
    } else {
      assert EdgesBefore(t, f, 1) == EdgesBefore(t, f, 0) + EdgeAt(t, f, 0);
    }
  }

  lemma SentSplit(frames: seq<Frame>)
    requires frames != []
    ensures Sent(frames) == Sent(frames[..|frames| - 1]) + [frames[|frames| - 1].bits]
  {
  }

  lemma JoinLast<T>(s: seq<T>, a: seq<T>, b: seq<T>, x: T)
    requires a + b == [x]
    ensures s + a + b == s + [x]
  {
    assert s + a + b == s + (a + b);
  }

  lemma WellSpacedPrefix(t: nat, frames: seq<Frame>, n: nat)
    requires WellSpaced(t, frames) && n <= |frames|
    ensures WellSpaced(t, frames[..n])
  {
  }

  lemma {:induction false} WaveHeard(t: nat, frames: seq<Frame>)
    requires Decodable(t) && WellSpaced(t, frames)
    ensures
      var h := Hear(t, Heard(Idle, []), Wave(t, frames));
      && h.bytes + OnDeadline(h.rx).bytes == Sent(frames)
      && (frames != [] ==> h.rx == Within(t, frames[|frames| - 1], 10).rx)
  {
    if frames == [] {
    } else {
      var n := |frames| - 1;
      var f, w := frames[n], Within(t, frames[n], 10);
      WellSpacedPrefix(t, frames, n);
      WaveHeard(t, frames[..n]);
      var h := Hear(t, Heard(Idle, []), Wave(t, frames[..n]));
      if n > 0 {
        ReadyAfterFrame(t, frames[n - 1], f.start);
      }
      HearAppend(t, Heard(Idle, []), Wave(t, frames[..n]), FrameEdges(t, f));
      FrameAfter(t, h, f);
      FrameComplete(t, f);
      SentSplit(frames);
      JoinLast(Sent(frames[..n]), w.bytes, OnDeadline(w.rx).bytes, f.bits);
    }
  }

  /** The receiver undoes the transmitter. */
  lemma RoundTrip(t: nat, frames: seq<Frame>)
    requires Decodable(t) && WellSpaced(t, frames)
    ensures Received(t, Wave(t, frames)) == Sent(frames)
  {
    WaveHeard(t, frames);
  }

  // Where decoding ends

  const ZEROS: Bits := [false, false, false, false, false, false, false, false]
  const ONES: Bits := [true, true, true, true, true, true, true, true]
  const TOP: Bits := [false, false, false, false, false, false, false, true]

  lemma {:induction false} QuietUntil(t: nat, f: Frame, k: nat)
    requires 1 <= k <= 10 && forall i :: 0 <= i < k ==> !Slot(f.bits, i)
    ensures EdgesBefore(t, f, k) == [Edge(f.start, false)]
  {
    if k == 1 {
      assert EdgesBefore(t, f, 1) == EdgesBefore(t, f, 0) + EdgeAt(t, f, 0);
    } else {
      assert !Slot(f.bits, k - 1) && !Slot(f.bits, k - 2);
      QuietUntil(t, f, k - 1);
    }
  }

  lemma {:induction false} HighFrom(t: nat, f: Frame, j: nat, k: nat)
    requires j < k <= 10 && forall i :: j <= i < k ==> Slot(f.bits, i)
    ensures EdgesBefore(t, f, k) == EdgesBefore(t, f, j + 1)
    decreases k
  {
    if k <= j + 1 {
    } else {
      assert Slot(f.bits, k - 1) && Slot(f.bits, k - 2);
      HighFrom(t, f, j, k - 1);
    }
  }

  /** A frame that falls at its start and rises once, at bit time j. */
  lemma OneRise(t: nat, f: Frame, j: nat)
    requires 1 <= j <= 9 && forall i :: 0 <= i < 10 ==> Slot(f.bits, i) == (j <= i)
    ensures FrameEdges(t, f) == [Edge(f.start, false), Edge(f.start + Ticks(t, j), true)]
  {
    QuietUntil(t, f, j);
    HighFrom(t, f, j, 10);
    assert Slot(f.bits, j) && !Slot(f.bits, j - 1);
  }

  lemma HearTwo(t: nat, h: Heard, e0: Edge, e1: Edge)
    requires Valid(h.rx)
    ensures Hear(t, h, [e0, e1]) == Next(t, Next(t, h, e0), e1)
  {
    assert [e0, e1] == [e0] + [e1];
    HearAppend(t, h, [e0], [e1]);
    HearOne(t, h, e0);
    HearOne(t, Next(t, h, e0), e1);
  }

  lemma SingleFrame(t: nat, f: Frame)
    ensures Wave(t, [f]) == FrameEdges(t, f)
  {
    assert [f][..0] == [];
  }

  /** From 4369 ticks per bit on, the difference overflows: the byte 0x00 is received as 0xff. */
  lemma TooSlow(t: nat, start: nat)
    requires 4368 < t < 7085
    ensures Received(t, Wave(t, [Frame(start, ZEROS)])) == [ONES]
  {
    var f := Frame(start, ZEROS);
    OneRise(t, f, 9);
    SingleFrame(t, f);
    HearTwo(t, Heard(Idle, []), Edge(start, false), Edge(start + Ticks(t, 9), true));
    TicksIsProduct(t, 9);
    assert Offset(start + 9 * t, start + t + t / 2) < 0;
    assert Fill([], true) == ONES;
  }

  lemma SampleAtEdge(t: nat, start: nat)
    requires t == 1
    ensures TakeSamples(t, start + t, Busy(start + t, start + 9, false, []))
         == Heard(Busy(start + t + t, start + 9, true, [false]), [])
  {
    OffsetInRange(start + t, start + t);
    OffsetInRange(start + t, start + t + t);
    assert [] + [false] == [false];
  }

  /** With one tick per bit the rise at the end of the start bit is when the first sample is due. */
  lemma OneTick(t: nat, f: Frame)
    requires t == 1 && forall i :: 0 <= i < 8 ==> f.bits[i]
    ensures Received(t, Wave(t, [f])) == [Fill([false], true)]
  {
    var h := Heard(Busy(f.start + t, f.start + 9, false, []), []);
    OneRise(t, f, 1);
    SingleFrame(t, f);
    TicksIsProduct(t, 1);
    HearTwo(t, Heard(Idle, []), Edge(f.start, false), Edge(f.start + t, true));
    assert Next(t, Heard(Idle, []), Edge(f.start, false)) == h;
    SampleAtEdge(t, f.start);
  }

  /** With one tick per bit there is no middle of a bit: the byte 0xff is received as 0xfe. */
  lemma TooFast(start: nat)
    ensures Received(1, Wave(1, [Frame(start, ONES)])) == [[false, true, true, true, true, true, true, true]]
  {
    OneTick(1, Frame(start, ONES));
    assert Fill([false], true) == [false, true, true, true, true, true, true, true];
  }

  /** The exact range of bit rates, among those that init accepts, at which every byte survives. */
  lemma DecodableExactly(t: nat, start: nat)
    requires 1 <= t < 7085
    ensures Decodable(t) <==> forall b: Bits :: Received(t, Wave(t, [Frame(start, b)])) == [b]
  {
    if Decodable(t) {
      forall b: Bits
        ensures Received(t, Wave(t, [Frame(start, b)])) == [b]
      {
        RoundTrip(t, [Frame(start, b)]);
      }
    } else if t == 1 {
      TooFast(start);
      assert Received(t, Wave(t, [Frame(start, ONES)])) != [ONES];
    } else {
      TooSlow(t, start);
      assert Received(t, Wave(t, [Frame(start, ZEROS)])) != [ZEROS];
    }
  }

  /** A frame that starts before the stop bit of its predecessor is recognised gets lost. */
  lemma StopBitNeeded(t: nat, start: nat, start': nat)
    requires Decodable(t) && start + Ticks(t, 9) < start' <= start + StopTicks(t)
    ensures Received(t, Wave(t, [Frame(start, TOP), Frame(start', ONES)])) == [TOP]
  {
    Swallowed(t, Frame(start, TOP), Frame(start', ONES));
  }

  /** The start edge completes the byte before it, and the rise after it is not heard. */
  lemma Swallowed(t: nat, f: Frame, g: Frame)
    requires Decodable(t) && f.start + Ticks(t, 9) < g.start <= f.start + StopTicks(t)
    requires f.bits[7] && forall i :: 0 <= i < 8 ==> (i < 7 ==> !f.bits[i]) && g.bits[i]
    ensures Received(t, Wave(t, [f, g])) == [f.bits]
  {
    var h := Heard(Sampled(t, f, 7, true), []);
    TwoFrames(t, f, g);
    OneRise(t, g, 1);
    TopHeard(t, f);
    HearAppend(t, Heard(Idle, []), FrameEdges(t, f), FrameEdges(t, g));
    HearTwo(t, h, Edge(g.start, false), Edge(g.start + Ticks(t, 1), true));
    ByteEnds(t, f, g.start);
    RiseUnheard(t, [f.bits], g.start + Ticks(t, 1));
  }

  lemma TwoFrames(t: nat, f: Frame, g: Frame)
    ensures Wave(t, [f, g]) == FrameEdges(t, f) + FrameEdges(t, g)
  {
    assert [f, g][..1] == [f];
    SingleFrame(t, f);
  }

  lemma RiseUnheard(t: nat, bytes: seq<Bits>, c: nat)
    ensures Next(t, Heard(Idle, bytes), Edge(c, true)) == Heard(Idle, bytes) && bytes + [] == bytes
  {
    assert bytes + [] + [] == bytes;
  }

  lemma TopHeard(t: nat, f: Frame)
    requires Decodable(t) && f.bits[7] && !f.bits[6]
    ensures Hear(t, Heard(Idle, []), FrameEdges(t, f)) == Heard(Sampled(t, f, 7, true), [])
  {
    FrameFromStart(t, f, 10);
    LastRise(f.bits);
  }

  lemma ByteEnds(t: nat, f: Frame, c: nat)
    requires Decodable(t) && f.bits[7] && f.start + Ticks(t, 9) < c <= f.start + StopTicks(t)
    ensures Next(t, Heard(Sampled(t, f, 7, true), []), Edge(c, false)) == Heard(Idle, [f.bits])
  {
    TicksIsProduct(t, 9);
    TicksIsProduct(t, 7);
    OffsetInRange(c, f.start + t + t / 2 + Ticks(t, 7));
    NextSample(f.bits, 7);
  }

  lemma LastRise(bits: Bits)
    requires bits[7] && !bits[6]
    ensures LastEdge(bits, 10) == 8
  {
    assert !Slot(bits, 7) && Slot(bits, 8) && Slot(bits, 9);
    assert LastEdge(bits, 9) == 8;
  }
}
