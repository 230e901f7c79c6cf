/** Which runs of the transmitter of AltSoftSerial.cpp its receiver can follow. */
module SerialSpacing {
  import opened LineCode
  import opened SerialBits
  import opened AltSoftSerial
  import opened SerialSender
  import opened StopBit
  import opened TimerRegisters
  import Rings

  /** No frame begins before the stop bit of the one before it. */
  predicate Follow(t: nat, frames: seq<Frame>) {
    forall i :: 0 < i < |frames| ==> frames[i - 1].start + Ticks(t, 9) < frames[i].start
  }

  /** If the line falls silent after frame n, the receiver has all bytes up to there. */
  ghost predicate ReceivedUpTo(t: nat, frames: seq<Frame>, n: nat)
    requires n <= |frames|
  {
    Received(t, Wave(t, frames[..n])) == Sent(frames[..n])
  }

  ghost predicate AllReceived(t: nat, frames: seq<Frame>) {
    forall n :: 0 <= n <= |frames| ==> ReceivedUpTo(t, frames, n)
  }

  lemma AllReceivedStep(t: nat, frames: seq<Frame>, g: Frame)
    ensures AllReceived(t, frames + [g]) <==>
      AllReceived(t, frames) && Received(t, Wave(t, frames + [g])) == Sent(frames + [g])
  {
    var more := frames + [g];
    forall n | 0 <= n <= |frames|
      ensures ReceivedUpTo(t, more, n) == ReceivedUpTo(t, frames, n)
    {
      assert more[..n] == frames[..n];
    }
    assert more[..|more|] == more;
    if AllReceived(t, more) {
      assert ReceivedUpTo(t, more, |more|);
      forall n | 0 <= n <= |frames|
        ensures ReceivedUpTo(t, frames, n)
      {
        assert ReceivedUpTo(t, more, n);
      }
    }
  }

  lemma SpacedStep(t: nat, frames: seq<Frame>, g: Frame)
    ensures WellSpaced(t, frames + [g]) <==>
      WellSpaced(t, frames) && (frames != [] ==> GapOk(t, frames[|frames| - 1], g.start))
  {
    var more := frames + [g];
    if WellSpaced(t, more) {
      WellSpacedPrefix(t, more, |frames|);
      assert more[..|frames|] == frames;
      assert frames != [] ==> GapOk(t, more[|frames| - 1], more[|frames|].start);
    }
  }

  lemma LastReceived(t: nat, frames: seq<Frame>, g: Frame)
    requires Decodable(t) && WellSpaced(t, frames) && Follow(t, frames + [g])
    ensures Received(t, Wave(t, frames + [g])) == Sent(frames + [g]) <==>
      (frames != [] ==> GapOk(t, frames[|frames| - 1], g.start))
  {
    if frames == [] {
      RoundTrip(t, frames + [g]);
    } else {
      var more := frames + [g];
      assert more[|frames| - 1].start + Ticks(t, 9) < more[|frames|].start;
      GapExactly(t, frames, g);
    }
  }

  lemma SpacedLonger(t: nat, frames: seq<Frame>, g: Frame)
    requires Decodable(t) && Follow(t, frames + [g]) && (WellSpaced(t, frames) <==> AllReceived(t, frames))
    ensures WellSpaced(t, frames + [g]) <==> AllReceived(t, frames + [g])
  {
    AllReceivedStep(t, frames, g);
    SpacedStep(t, frames, g);
    if WellSpaced(t, frames) {
      LastReceived(t, frames, g);
    }
  }

  /** Frames are received one after the other exactly if they are well spaced. */
  lemma {:induction false} SpacedExactly(t: nat, frames: seq<Frame>)
    requires Decodable(t) && Follow(t, frames)
    ensures WellSpaced(t, frames) <==> AllReceived(t, frames)
  {
    if frames == [] {
      NoneReceived(t);
    } else {
      var before, g := frames[..|frames| - 1], frames[|frames| - 1];
      LastOne(frames);
      SpacedExactly(t, before);
      SpacedLonger(t, before, g);
    }
  }

  lemma NoneReceived(t: nat)
    requires Decodable(t)
    ensures WellSpaced(t, []) && AllReceived(t, [])
  {
    var none: seq<Frame> := [];
    RoundTrip(t, none);
    assert none[..0] == none;
  }

  lemma LastOne<T>(s: seq<T>)
    requires s != []
    ensures s[..|s| - 1] + [s[|s| - 1]] == s
  {
  }

  // Runs

  /** The frames begun by step i are those begun before and at most one more. */
  lemma FramesStep(t: nat, x: Tx, e: Event, x': Tx)
    requires AcceptedRate(t) && Sound(t, x) && Step(t, x, e, x') && Follow(t, Frames(x.trace, x.state != 0))
    ensures Frames(x.trace, x.state != 0) <= Frames(x'.trace, x'.state != 0)
    ensures Follow(t, Frames(x'.trace, x'.state != 0))
    ensures e.Write? && x.state == 0 ==>
      Frames(x'.trace, x'.state != 0) == x.trace.done + [Frame(e.time + 16, BitsOf(e.b))]
  {
    match e
    case Write(b, time) =>
      WriteKeepsOrder(x.trace, x.state != 0, x.queue, b, time);
    case Match(time) =>
      MatchKeepsOrder(t, x.trace, x.state, x.high, x.queue, time);
  }

  lemma {:induction false} RunFollows(t: nat, xs: seq<Tx>, es: seq<Event>, i: nat)
    requires AcceptedRate(t) && IsRun(t, xs, es) && i <= |es|
    ensures Follow(t, Frames(xs[i].trace, xs[i].state != 0))
  {
    if i == 0 {
    } else {
      RunFollows(t, xs, es, i - 1);
      FramesStep(t, xs[i - 1], es[i - 1], xs[i]);
    }
  }

  lemma RunExtends(t: nat, xs: seq<Tx>, es: seq<Event>, i: nat, j: nat)
    requires AcceptedRate(t) && IsRun(t, xs, es) && i <= j <= |es|
    ensures Frames(xs[i].trace, xs[i].state != 0) <= Frames(xs[j].trace, xs[j].state != 0)
  {
    var begun := seq(|xs|, k requires 0 <= k < |xs| => Frames(xs[k].trace, xs[k].state != 0));
    forall k | 0 <= k < |es|
      ensures begun[k] <= begun[k + 1]
    {
      RunExtendsOnce(t, xs, es, k);
    }
    Growing(begun, i, j);
  }

  lemma {:induction false} Growing<T>(ss: seq<seq<T>>, i: nat, j: nat)
    requires i <= j < |ss| && forall k :: 0 <= k < |ss| - 1 ==> ss[k] <= ss[k + 1]
    ensures ss[i] <= ss[j]
  {
    if i == j {
    } else {
      Growing(ss, i, j - 1);
      PrefixOfPrefix(ss[i], ss[j - 1], ss[j]);
    }
  }

  lemma RunExtendsOnce(t: nat, xs: seq<Tx>, es: seq<Event>, i: nat)
    requires AcceptedRate(t) && IsRun(t, xs, es) && i < |es|
    ensures Frames(xs[i].trace, xs[i].state != 0) <= Frames(xs[i + 1].trace, xs[i + 1].state != 0)
  {
    RunFollows(t, xs, es, i);
    FramesStep(t, xs[i], es[i], xs[i + 1]);
  }

  lemma PrefixOfPrefix<T>(a: seq<T>, b: seq<T>, c: seq<T>)
    requires a <= b && b <= c
    ensures a <= c
  {
  }

  /** A run writes late enough exactly if its frames are well spaced. */
  lemma RunSpacedExactly(t: nat, xs: seq<Tx>, es: seq<Event>)
    requires AcceptedRate(t) && IsRun(t, xs, es)
    ensures var x := xs[|es|];
      AllSpaced(t, xs, es) <==> WellSpaced(t, Frames(x.trace, x.state != 0))
  {
    var x := xs[|es|];
    if AllSpaced(t, xs, es) {
      RunKeepsSpacing(t, xs, es);
    } else if WellSpaced(t, Frames(x.trace, x.state != 0)) {
      forall i | 0 <= i < |es|
        ensures Spaced(t, xs[i], es[i])
      {
        SpacedAt(t, xs, es, i);
      }
    }
  }

  lemma SpacedAt(t: nat, xs: seq<Tx>, es: seq<Event>, i: nat)
    requires AcceptedRate(t) && IsRun(t, xs, es) && i < |es|
    requires WellSpaced(t, Frames(xs[|es|].trace, xs[|es|].state != 0))
    ensures Spaced(t, xs[i], es[i])
  {
    RunFollows(t, xs, es, i);
    FramesStep(t, xs[i], es[i], xs[i + 1]);
    RunExtends(t, xs, es, i + 1, |es|);
    SpacedInside(t, xs[i], es[i], xs[i + 1], Frames(xs[|es|].trace, xs[|es|].state != 0));
  }

  lemma SpacedInside(t: nat, x: Tx, e: Event, x': Tx, frames: seq<Frame>)
    requires WellSpaced(t, frames) && Frames(x'.trace, x'.state != 0) <= frames
    requires e.Write? && x.state == 0 ==>
      Frames(x'.trace, x'.state != 0) == x.trace.done + [Frame(e.time + 16, BitsOf(e.b))]
    ensures Spaced(t, x, e)
  {
    var done := x.trace.done;
    if e.Write? && x.state == 0 && done != [] {
      var g := Frame(e.time + 16, BitsOf(e.b));
      assert frames[|done|] == (done + [g])[|done|] == g;
      assert frames[|done| - 1] == (done + [g])[|done| - 1] == done[|done| - 1];
    }
  }

  /**
   The receiver can follow a run exactly if no write on an idle line is too early: then, and only then, it has after
   each frame the bytes written up to there.
   */
  lemma RunIsReceivedExactly(t: nat, xs: seq<Tx>, es: seq<Event>)
    requires Decodable(t) && IsRun(t, xs, es) && xs[|es|].state == 0
    ensures
      var done, bytes := xs[|es|].trace.done, BytesWritten(es);
      && |done| == |bytes|
      && (AllSpaced(t, xs, es) <==>
        forall n :: 0 <= n <= |done| ==> Carries(Received(t, Wave(t, done[..n])), bytes[..n]))
  {
    var r := xs[|es|].trace;
    RunKeepsOrder(t, xs, es);
    NothingBusy(r);
    RunSpacedExactly(t, xs, es);
    RunFollows(t, xs, es, |es|);
    SpacedExactly(t, r.done);
    forall n | 0 <= n <= |r.done|
      ensures ReceivedUpTo(t, r.done, n) <==> Carries(Received(t, Wave(t, r.done[..n])), r.sent[..n])
    {
      CarriesSent(Received(t, Wave(t, r.done[..n])), r, n);
    }
  }

  lemma CarriesSent(received: seq<Bits>, r: Trace, n: nat)
    requires Carried(r) && n <= |r.done|
    ensures received == Sent(r.done[..n]) <==> Carries(received, r.sent[..n])
  {
    if Carries(received, r.sent[..n]) {
      forall i | 0 <= i < n
        ensures received[i] == Sent(r.done[..n])[i]
      {
        assert received[i] == BitsOf(r.sent[..n][i]);
      }
      assert received == Sent(r.done[..n]);
    }
  }

  // How soon the program can write

  /** The moment at which the line falls idle leaves less than the distance needed exactly from 64 ticks per bit on. */
  lemma EarliestWrite(t: nat)
    ensures Ticks(t, 9) + 16 <= StopTicks(t) <==> 64 <= t
  {
    TicksIsProduct(t, 9);
  }

  /** Below 64 ticks per bit no write comes too early. */
  lemma AlwaysSpaced(t: nat, xs: seq<Tx>, es: seq<Event>)
    requires AcceptedRate(t) && t < 64 && IsRun(t, xs, es)
    ensures AllSpaced(t, xs, es)
  {
    EarliestWrite(t);
    TicksIsProduct(t, 9);
    forall i | 0 <= i < |es|
      ensures Spaced(t, xs[i], es[i])
    {
      assert Sound(t, xs[i]) && Step(t, xs[i], es[i], xs[i + 1]);
    }
  }

  /** Compare interrupts until the frame in progress has been sent. */
  method Rest(unit: Transmitter, ghost xs: seq<Tx>, ghost es: seq<Event>, now: nat)
    returns (ghost xs': seq<Tx>, ghost es': seq<Event>, last: nat)
    requires unit.Valid() && IsRun(unit.ticksPerBit, xs, es) && xs[|es|] == unit.View() && now == unit.trace.now
    requires unit.txState != 0 && unit.Queue() == []
    modifies unit, unit.buffer
    ensures unit.Valid() && unit.txState == 0 && last == unit.trace.now
    ensures Continues(unit.ticksPerBit, xs, es, xs', es') && xs'[|es'|] == unit.View()
    ensures unit.trace.done == old(unit.trace.done) + [old(unit.trace.frame)]
    ensures last == old(unit.trace.frame).start + Ticks(unit.ticksPerBit, 9)
  {
    xs', es', last := xs, es, now;
    ghost var done, f := unit.trace.done, unit.trace.frame;
    while unit.txState != 0
      invariant unit.Valid() && last == unit.trace.now && Sending(unit.ticksPerBit, unit.View(), done, f)
      invariant Continues(unit.ticksPerBit, xs, es, xs', es') && xs'[|es'|] == unit.View()
      decreases if unit.txState == 0 then 0 else 11 - unit.txState
    {
      ghost var x := unit.View();
      last := Interrupted(unit, last);
      OneMatch(unit.ticksPerBit, xs, es, xs', es', last, unit.View());
      SendingStep(unit.ticksPerBit, x, last, unit.View());
      xs', es' := xs' + [unit.View()], es' + [Match(last)];
    }
  }

  /** A run that goes on from another. */
  ghost predicate Continues(t: nat, xs: seq<Tx>, es: seq<Event>, xs': seq<Tx>, es': seq<Event>) {
    IsRun(t, xs', es') && xs <= xs' && es <= es'
  }

  lemma OneMatch(t: nat, xs: seq<Tx>, es: seq<Event>, xs': seq<Tx>, es': seq<Event>, time: nat, x: Tx)
    requires Continues(t, xs, es, xs', es') && Sound(t, x) && Step(t, xs'[|es'|], Match(time), x)
    ensures Continues(t, xs, es, xs' + [x], es' + [Match(time)])
  {
    RunGoesOn(t, xs', es', Match(time), x);
  }

  lemma SendingStep(t: nat, x: Tx, time: nat, x': Tx)
    requires x.state != 0 && x.state <= 10 && x.queue == [] && Step(t, x, Match(time), x')
    ensures Sending(t, x', x.trace.done, x.trace.frame)
  {
  }

  /** The frame f is in progress behind those done, or has just been sent. */
  ghost predicate Sending(t: nat, x: Tx, done: seq<Frame>, f: Frame) {
    if x.state != 0 then x.queue == [] && x.trace.done == done && x.trace.frame == f
    else x.trace.done == done + [f] && x.trace.now == f.start + Ticks(t, 9)
  }

  /**
   From 64 ticks per bit on, for every two bytes of which the first has its top bit set: writing the second as soon
   as the line is idle is too early, and the receiver cannot follow.
   */
  method WriteTooEarly(ticksPerBit: nat, first: Byte, second: Byte)
    returns (unit: Transmitter, ghost xs: seq<Tx>, ghost es: seq<Event>)
    requires AcceptedRate(ticksPerBit) && 64 <= ticksPerBit && BitsOf(first)[7]
    ensures unit.Valid() && unit.txState == 0 && unit.ticksPerBit == ticksPerBit
    ensures IsRun(ticksPerBit, xs, es) && xs[|es|] == unit.View() && !AllSpaced(ticksPerBit, xs, es)
  {
    unit := new Transmitter(ticksPerBit);
    var now;
    xs, es, now := SendFirst(unit, first);
    ghost var xs0, es0 := xs, es;
    EarliestWrite(ticksPerBit);
    xs, es := WriteNow(unit, xs, es, second, now);
    xs, es, now := Rest(unit, xs, es, now);
    EarlyWrite(ticksPerBit, xs0, es0, second, xs, es);
  }

  method SendFirst(unit: Transmitter, b: Byte) returns (ghost xs: seq<Tx>, ghost es: seq<Event>, now: nat)
    requires unit.Valid() && Started(unit.View()) && unit.trace.now == 0
    modifies unit, unit.buffer
    ensures unit.Valid() && unit.txState == 0 && IsRun(unit.ticksPerBit, xs, es) && xs[|es|] == unit.View()
    ensures unit.trace.done == [Frame(16, BitsOf(b))] && now == unit.trace.now == 16 + Ticks(unit.ticksPerBit, 9)
  {
    unit.ValidIsSound();
    xs, es := [unit.View()], [];
    xs, es := WriteNow(unit, xs, es, b, 0);
    xs, es, now := Rest(unit, xs, es, 0);
  }

  /** A write that comes too early makes its run one that is not spaced, however that goes on. */
  lemma EarlyWrite(t: nat, xs: seq<Tx>, es: seq<Event>, b: Byte, xs': seq<Tx>, es': seq<Event>)
    requires |xs| == |es| + 1 <= |es'| && |xs'| == |es'| + 1 && xs <= xs' && es + [Write(b, xs[|es|].trace.now)] <= es'
    requires !Spaced(t, xs[|es|], Write(b, xs[|es|].trace.now))
    ensures !AllSpaced(t, xs', es')
  {
    var n := |es|;
    assert es'[n] == (es + [Write(b, xs[n].trace.now)])[n] && xs'[n] == xs[n];
  }

  method WriteNow(unit: Transmitter, ghost xs: seq<Tx>, ghost es: seq<Event>, b: Byte, now: nat)
    returns (ghost xs': seq<Tx>, ghost es': seq<Event>)
    requires unit.Valid() && IsRun(unit.ticksPerBit, xs, es) && xs[|es|] == unit.View()
    requires now == unit.trace.now && unit.txState == 0
    modifies unit, unit.buffer
    ensures unit.Valid() && unit.txState != 0 && unit.Queue() == [] && unit.trace.now == now
    ensures unit.trace.done == old(unit.trace.done) && unit.trace.frame == Frame(now + 16, BitsOf(b))
    ensures xs' == xs + [unit.View()] && es' == es + [Write(b, now)] && IsRun(unit.ticksPerBit, xs', es')
  {
    Rings.IsFull(unit.head, unit.tail, TX_BUFFER_SIZE);
    unit.WriteByte(b, now);
    unit.ValidIsSound();
    RunGoesOn(unit.ticksPerBit, xs, es, Write(b, now), unit.View());
    xs', es' := xs + [unit.View()], es + [Write(b, now)];
  }
}
