/** How early a frame may follow another on the line of LineCode. */
module StopBit {
  import opened LineCode

  /** The part of g from bit time k on, seen as a frame of its own: the line is high after its end. */
  ghost function Tail(t: nat, g: Frame, k: nat): Frame {
    Frame(g.start + Ticks(t, k), seq(8, i requires 0 <= i < 8 => Slot(g.bits, k + 1 + i)))
  }

  /** A fall at the beginning of bit time k. */
  predicate FallsAt(bits: Bits, k: nat) {
    k >= 1 && Slot(bits, k - 1) && !Slot(bits, k)
  }

  lemma TailEdge(t: nat, g: Frame, k: nat, m: nat)
    requires FallsAt(g.bits, k) && m <= 9
    ensures Slot(Tail(t, g, k).bits, m) == Slot(g.bits, k + m)
    ensures EdgeAt(t, Tail(t, g, k), m) == EdgeAt(t, g, k + m)
  {
    var bits := Tail(t, g, k).bits;
    TicksAdd(t, k, m);
    if m == 0 {
    } else {
      assert m <= 8 ==> bits[m - 1] == Slot(g.bits, k + m);
      assert Before(bits, m) == Before(g.bits, k + m);
    }
  }

  lemma {:induction false} TailEdges(t: nat, g: Frame, k: nat, m: nat)
    requires FallsAt(g.bits, k) && k + m <= 10
    ensures EdgesBefore(t, g, k + m) == EdgesBefore(t, g, k) + EdgesBefore(t, Tail(t, g, k), m)
  {
    if m == 0 {
      assert EdgesBefore(t, g, k) + [] == EdgesBefore(t, g, k);
    } else {
      TailEdges(t, g, k, m - 1);
      TailEdge(t, g, k, m - 1);
      var f := Tail(t, g, k);
      BothLonger(EdgesBefore(t, g, k + m - 1), EdgesBefore(t, g, k), EdgesBefore(t, f, m - 1), EdgeAt(t, f, m - 1));
    }
  }

  lemma BothLonger<T>(a: seq<T>, b: seq<T>, c: seq<T>, e: seq<T>)
    requires a == b + c
    ensures a + e == b + (c + e)
  {
  }

  /** A frame from its first fall on is a frame. */
  lemma TailIsFrame(t: nat, g: Frame, k: nat)
    requires FallsAt(g.bits, k)
    ensures k <= 8 && FrameEdges(t, g) == EdgesBefore(t, g, k) + FrameEdges(t, Tail(t, g, k))
  {
    TailEdges(t, g, k, 10 - k);
    forall i | 9 - k <= i < 10
      ensures Slot(Tail(t, g, k).bits, i)
    {
      TailEdge(t, g, k, i);
    }
    HighFrom(t, Tail(t, g, k), 9 - k, 10);
  }

  /** The tail does not carry the byte of its frame: a low bit would repeat until it meets the stop bit. */
  lemma {:induction false} TailDiffers(t: nat, g: Frame, k: nat, n: nat)
    requires k >= 1 && 1 <= n && !Slot(g.bits, n)
    ensures Tail(t, g, k).bits != g.bits
    decreases 9 - n
  {
    if Tail(t, g, k).bits == g.bits {
      assert g.bits[n - 1] == Tail(t, g, k).bits[n - 1] == Slot(g.bits, k + n);
      TailDiffers(t, g, k, n + k);
    }
  }

  /** Without a fall, all edges after the first are rises. */
  lemma {:induction false} OnlyRises(t: nat, g: Frame, k: nat)
    requires k >= 1 && forall i :: 0 <= i < k ==> !FallsAt(g.bits, i)
    ensures EdgesBefore(t, g, k) != [] && EdgesBefore(t, g, k)[0] == Edge(g.start, false)
    ensures forall i :: 0 < i < |EdgesBefore(t, g, k)| ==> EdgesBefore(t, g, k)[i].high
  {
    if k == 1 {
      assert EdgesBefore(t, g, 1) == EdgesBefore(t, g, 0) + EdgeAt(t, g, 0);
    } else {
      OnlyRises(t, g, k - 1);
      assert !FallsAt(g.bits, k - 1);
    }
  }

  /** Between bytes a receiver does not see rises. */
  lemma {:induction false} RisesUnheard(t: nat, bytes: seq<Bits>, wave: seq<Edge>)
    requires forall i :: 0 <= i < |wave| ==> wave[i].high
    ensures Hear(t, Heard(Idle, bytes), wave) == Heard(Idle, bytes)
  {
    if wave == [] {
    } else {
      RisesUnheard(t, bytes, wave[..|wave| - 1]);
      assert bytes + [] + [] == bytes;
    }
  }

  /** A frame whose start is not noticed: the receiver makes nothing of it, or the byte of a tail. */
  lemma StartMissed(t: nat, bytes: seq<Bits>, g: Frame)
    requires Decodable(t)
    ensures FrameEdges(t, g) != [] && FrameEdges(t, g)[0] == Edge(g.start, false)
    ensures
      var h := Hear(t, Heard(Idle, bytes), FrameEdges(t, g)[1..]);
      h.bytes + OnDeadline(h.rx).bytes != bytes + [g.bits]
  {
    if k: nat :| k <= 9 && FallsAt(g.bits, k) && forall i :: 0 <= i < k ==> !FallsAt(g.bits, i) {
      var tail := Tail(t, g, k);
      OnlyRises(t, g, k);
      TailIsFrame(t, g, k);
      var rises := EdgesBefore(t, g, k)[1..];
      assert FrameEdges(t, g)[1..] == rises + FrameEdges(t, tail);
      HearAppend(t, Heard(Idle, bytes), rises, FrameEdges(t, tail));
      RisesUnheard(t, bytes, rises);
      FrameAfter(t, Heard(Idle, bytes), tail);
      FrameComplete(t, tail);
      assert bytes + [] == bytes;
      JoinLast(bytes, Within(t, tail, 10).bytes, OnDeadline(Within(t, tail, 10).rx).bytes, tail.bits);
      TailDiffers(t, g, k, k);
      assert (bytes + [tail.bits])[|bytes|] != (bytes + [g.bits])[|bytes|];
    } else {
      NoFall(g.bits, 10);
      OnlyRises(t, g, 10);
      RisesUnheard(t, bytes, FrameEdges(t, g)[1..]);
      assert |bytes + []| != |bytes + [g.bits]|;
    }
  }

  /** If there is no first fall, there is none. */
  lemma {:induction false} NoFall(bits: Bits, n: nat)
    requires n <= 10
    requires !exists k: nat :: k <= 9 && FallsAt(bits, k) && forall i :: 0 <= i < k ==> !FallsAt(bits, i)
    ensures forall i :: 0 <= i < n ==> !FallsAt(bits, i)
  {
    if n == 0 {
    } else {
      NoFall(bits, n - 1);
    }
  }

  /**
   A fall during the stop bit of f, before that has been recognised: it completes the byte, unless the difference to
   the first sample overflows.
   */
  lemma {:induction false} FallInStopBit(t: nat, f: Frame, c: nat, m: nat)
    requires Decodable(t) && f.start + Ticks(t, 9) < c <= f.start + StopTicks(t) && m < 8
    requires forall i :: m <= i < 8 ==> f.bits[i]
    ensures
      var rx := Sampled(t, f, m, true);
      if Offset(c, rx.sample) < 0 then m == 0 && TakeSamples(t, c, rx) == Heard(rx.(high := false), [])
      else TakeSamples(t, c, rx) == Heard(Idle, [f.bits])
    decreases 8 - m
  {
    TicksIsProduct(t, 9);
    TicksIsProduct(t, m);
    StopBitOffset(t, c - f.start, m);
    NextSample(f.bits, m);
    if m > 0 {
      OffsetInRange(c, f.start + t + t / 2 + Ticks(t, m));
    }
    if 7 <= m {
    } else {
      FallInStopBit(t, f, c, m + 1);
    }
  }

  lemma StopBitOffset(t: nat, d: nat, m: nat)
    requires Decodable(t) && 9 * t < d <= t * 37 / 4 && m < 8
    ensures 0 <= d - t - t / 2 - t * m && (m > 0 ==> d - t - t / 2 - t * m < 0x8000)
  {
    assert t * m <= t * 7;
    if m > 0 {
      assert t <= t * m;
    }
  }

  /** With the overflow, the byte becomes 0x00, whatever comes then. */
  lemma Overflowed(t: nat, past: seq<Bits>, rx: Receiver, wave: seq<Edge>)
    requires rx.Busy? && rx.bits == [] && !rx.high && wave != [] && rx.deadline < wave[0].time
    ensures
      var h := Hear(t, Heard(rx, past), wave);
      past + [ZEROS] <= h.bytes + OnDeadline(h.rx).bytes
  {
    assert Fill([], false) == ZEROS;
    var h1 := Next(t, Heard(rx, past), wave[0]);
    HearOne(t, Heard(rx, past), wave[0]);
    assert wave == [wave[0]] + wave[1..];
    HearAppend(t, Heard(rx, past), [wave[0]], wave[1..]);
    HearAfter(t, Heard(h1.rx, []), h1.bytes, wave[1..]);
    assert h1.bytes + [] == h1.bytes;
  }

  /**
   One more frame, begun after the stop bit of the one before: it comes through if and only if its predecessor's top bit
   is low or the receiver has recognised the stop bit by then.
   */
  lemma GapExactly(t: nat, frames: seq<Frame>, g: Frame)
    requires Decodable(t) && frames != [] && WellSpaced(t, frames)
    requires frames[|frames| - 1].start + Ticks(t, 9) < g.start
    ensures Received(t, Wave(t, frames + [g])) == Sent(frames + [g]) <==> GapOk(t, frames[|frames| - 1], g.start)
  {
    var f := frames[|frames| - 1];
    assert (frames + [g])[..|frames + [g]| - 1] == frames;
    if GapOk(t, f, g.start) {
      RoundTrip(t, frames + [g]);
    } else {
      EarlyFrame(t, frames, g);
    }
  }

  /** What the receiver of well-spaced frames holds when the last of them ends in a high bit. */
  lemma BusyAtEnd(t: nat, frames: seq<Frame>) returns (m: nat)
    requires Decodable(t) && frames != [] && WellSpaced(t, frames) && frames[|frames| - 1].bits[7]
    ensures
      var n := |frames| - 1;
      && m < 8 && (forall i :: m <= i < 8 ==> frames[n].bits[i])
      && Hear(t, Heard(Idle, []), Wave(t, frames)) == Heard(Sampled(t, frames[n], m, true), Sent(frames[..n]))
  {
    var n := |frames| - 1;
    var h := Hear(t, Heard(Idle, []), Wave(t, frames));
    WaveHeard(t, frames);
    FrameComplete(t, frames[n]);
    HighEnd(frames[n].bits);
    SentSplit(frames);
    m := LastEdge(frames[n].bits, 10) - 1;
    SameEnd(h.bytes, Sent(frames[..n]), OnDeadline(h.rx).bytes[0], frames[n].bits);
  }

  /** An edge that comes before the timeout, and all later ones. */
  lemma HearFrom(t: nat, h: Heard, edges: seq<Edge>, rx: Receiver, bytes: seq<Bits>)
    requires Valid(h.rx) && edges != [] && Next(t, h, edges[0]) == Heard(rx, bytes)
    ensures Hear(t, h, edges) == Hear(t, Heard(rx, bytes), edges[1..])
  {
    assert edges == [edges[0]] + edges[1..];
    HearAppend(t, h, [edges[0]], edges[1..]);
    HearOne(t, h, edges[0]);
  }

  lemma EarlyFrame(t: nat, frames: seq<Frame>, g: Frame)
    requires Decodable(t) && frames != [] && WellSpaced(t, frames)
    requires frames[|frames| - 1].start + Ticks(t, 9) < g.start && !GapOk(t, frames[|frames| - 1], g.start)
    ensures Received(t, Wave(t, frames) + FrameEdges(t, g)) != Sent(frames) + [g.bits]
  {
    var n, edges := |frames| - 1, FrameEdges(t, g);
    var m := BusyAtEnd(t, frames);
    LaterEdge(t, g);
    HearAppend(t, Heard(Idle, []), Wave(t, frames), edges);
    SentSplit(frames);
    EarlyStart(t, frames[n], g, m, Sent(frames[..n]));
  }

  lemma EarlyStart(t: nat, f: Frame, g: Frame, m: nat, past: seq<Bits>)
    requires Decodable(t) && f.start + Ticks(t, 9) < g.start <= f.start + StopTicks(t)
    requires m < 8 && forall i :: m <= i < 8 ==> f.bits[i]
    ensures
      var h := Hear(t, Heard(Sampled(t, f, m, true), past), FrameEdges(t, g));
      h.bytes + OnDeadline(h.rx).bytes != past + [f.bits] + [g.bits]
  {
    var edges, rx := FrameEdges(t, g), Sampled(t, f, m, true);
    LaterEdge(t, g);
    FallInStopBit(t, f, g.start, m);
    assert past + [] == past && Next(t, Heard(rx, past), edges[0]) ==
      Heard(TakeSamples(t, g.start, rx).rx, past + TakeSamples(t, g.start, rx).bytes);
    if Offset(g.start, rx.sample) < 0 {
      HearFrom(t, Heard(rx, past), edges, rx.(high := false), past);
      TicksIsProduct(t, 9);
      TicksIsProduct(t, 1);
      Overflowed(t, past, rx.(high := false), edges[1..]);
      assert (past + [ZEROS])[|past|] == ZEROS && (past + [f.bits] + [g.bits])[|past|] == f.bits;
      assert f.bits[0] && !ZEROS[0];
    } else {
      HearFrom(t, Heard(rx, past), edges, Idle, past + [f.bits]);
      StartMissed(t, past + [f.bits], g);
    }
  }

  /** After a high top bit the last edge is a rise before the stop bit. */
  lemma HighEnd(bits: Bits)
    requires bits[7]
    ensures 1 <= LastEdge(bits, 10) <= 8 && Slot(bits, LastEdge(bits, 10))
    ensures forall i :: LastEdge(bits, 10) - 1 <= i < 8 ==> bits[i]
  {
    var j := LastEdge(bits, 10);
    assert Slot(bits, 9) == Slot(bits, j) && Slot(bits, 8) == bits[7];
    forall i | j - 1 <= i < 8
      ensures bits[i]
    {
      assert bits[i] == Slot(bits, i + 1);
    }
  }

  lemma SameEnd<T>(a: seq<T>, b: seq<T>, x: T, y: T)
    requires a + [x] == b + [y]
    ensures a == b && x == y
  {
    assert (a + [x])[..|a|] == a && (b + [y])[..|b|] == b;
    assert (a + [x])[|a|] == x && (b + [y])[|b|] == y;
  }

  /** The second edge of a frame comes at least one bit time after its start. */
  lemma LaterEdge(t: nat, g: Frame)
    ensures |FrameEdges(t, g)| >= 2 && FrameEdges(t, g)[0] == Edge(g.start, false)
    ensures FrameEdges(t, g)[1].time >= g.start + Ticks(t, 1)
  {
    SecondEdge(t, g, 10);
  }

  lemma {:induction false} SecondEdge(t: nat, g: Frame, k: nat)
    requires 1 <= k <= 10
    ensures EdgesBefore(t, g, k) != [] && EdgesBefore(t, g, k)[0] == Edge(g.start, false)
    ensures |EdgesBefore(t, g, k)| == 1 ==> forall i :: 0 <= i < k ==> !Slot(g.bits, i)
    ensures |EdgesBefore(t, g, k)| >= 2 ==> EdgesBefore(t, g, k)[1].time >= g.start + Ticks(t, 1)
  {
    if k == 1 {
      assert EdgesBefore(t, g, 1) == EdgesBefore(t, g, 0) + EdgeAt(t, g, 0);
    } else {
      SecondEdge(t, g, k - 1);
      TicksAdd(t, 1, k - 2);
    }
  }
}
