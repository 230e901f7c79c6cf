/** The transmitter of AltSoftSerial.cpp, driven through whole runs. */
module SerialSender {
  import opened LineCode
  import opened SerialBits
  import opened AltSoftSerial
  import opened Sequences
  import opened TimerRegisters
  import Rings

  /** What the source lets happen: a write when there is room, and a match exactly when the timer reaches it. */
  ghost predicate Admissible(t: nat, x: Tx, e: Event) {
    match e
    case Write(b, time) =>
      && x.trace.now <= time && (x.state != 0 ==> time < Due(t, x.trace, x.state))
      && |x.queue| < TX_BUFFER_SIZE - 1
    case Match(time) =>
      x.state != 0 && time == Due(t, x.trace, x.state)
  }

  /** A transmitter is driven through events as far as they are admissible. */
  method Drive(ticksPerBit: nat, es: seq<Event>) returns (unit: Transmitter, done: nat, ghost xs: seq<Tx>)
    requires AcceptedRate(ticksPerBit)
    ensures done <= |es| && unit.Valid() && unit.ticksPerBit == ticksPerBit
    ensures IsRun(ticksPerBit, xs, es[..done]) && xs[done] == unit.View()
    ensures done < |es| ==> !Admissible(ticksPerBit, xs[done], es[done])
    ensures Written(unit.trace, unit.txState != 0, unit.Queue()) == BytesWritten(es[..done])
    ensures Decodable(ticksPerBit) && AllSpaced(ticksPerBit, xs, es[..done]) && unit.txState == 0 ==>
      Carries(Received(ticksPerBit, unit.trace.edges), BytesWritten(es[..done]))
  {
    unit := new Transmitter(ticksPerBit);
    done, xs := DriveOn(unit, es);
    RunEnds(ticksPerBit, xs, es[..done]);
  }

  method DriveOn(unit: Transmitter, es: seq<Event>) returns (done: nat, ghost xs: seq<Tx>)
    requires unit.Valid() && Started(unit.View()) && unit.trace.now == 0
    modifies unit, unit.buffer
    ensures done <= |es| && unit.Valid()
    ensures IsRun(unit.ticksPerBit, xs, es[..done]) && xs[done] == unit.View()
    ensures done < |es| ==> !Admissible(unit.ticksPerBit, xs[done], es[done])
  {
    var now: nat := 0;
    done, xs := 0, [unit.View()];
    unit.ValidIsSound();
    while done < |es|
      invariant done <= |es| && unit.Valid() && unit.trace.now == now
      invariant IsRun(unit.ticksPerBit, xs, es[..done]) && xs[done] == unit.View()
    {
      var possible := Happen(unit, es[done], now);
      if !possible {
        break;
      }
      unit.ValidIsSound();
      RunGoesOn(unit.ticksPerBit, xs, es[..done], es[done], unit.View());
      OneMore(es, done);
      xs := xs + [unit.View()];
      now := es[done].time;
      done := done + 1;
    }
  }

  /** One event, if it is admissible. */
  method Happen(unit: Transmitter, e: Event, now: nat) returns (possible: bool)
    requires unit.Valid() && now == unit.trace.now
    modifies unit, unit.buffer
    ensures unit.Valid() && possible == Admissible(unit.ticksPerBit, old(unit.View()), e)
    ensures if possible then unit.trace.now == e.time && Step(unit.ticksPerBit, old(unit.View()), e, unit.View())
      else unit.View() == old(unit.View())
  {
    ghost var x := unit.View();
    var due: nat := 0;
    if unit.txState != 0 {
      due := NextMatch(now, unit.compareA);
      FirstMatch(now, Due(unit.ticksPerBit, unit.trace, unit.txState), due);
    }
    match e
    case Write(b, time) =>
      Rings.IsFull(unit.head, unit.tail, TX_BUFFER_SIZE);
      var room := Rings.Next(unit.head, TX_BUFFER_SIZE) != unit.tail;
      possible := now <= time && (unit.txState != 0 ==> time < due) && room;
      if possible {
        unit.WriteByte(b, time);
      }
    case Match(time) =>
      possible := unit.txState != 0 && time == due;
      if possible {
        unit.CompareA(time);
      }
  }

  /** Compare interrupts of a transmitter one after the other. */
  ghost predicate AreMatches(t: nat, xs: seq<Tx>, es: seq<Event>) {
    |xs| == |es| + 1 && forall i :: 0 <= i < |es| ==> es[i].Match? && Step(t, xs[i], es[i], xs[i + 1])
  }

  lemma PathGoesOn(t: nat, xs: seq<Tx>, es: seq<Event>, e: Event, x: Tx)
    requires AreMatches(t, xs, es) && e.Match? && Step(t, xs[|es|], e, x)
    ensures AreMatches(t, xs + [x], es + [e]) && (xs + [x])[0] == xs[0]
  {
  }

  /**
   writeByte with its wait: as long as the ring is full nothing but compare interrupts happens; one of them makes room,
   and then the byte is taken.
   */
  method WriteByte(unit: Transmitter, b: Byte, time: nat, now: nat)
    returns (ghost xs: seq<Tx>, ghost es: seq<Event>, written: nat)
    requires unit.Valid() && now == unit.trace.now <= time
    requires unit.txState != 0 ==> time < Due(unit.ticksPerBit, unit.trace, unit.txState)
    modifies unit, unit.buffer
    ensures unit.Valid() && time <= written
    ensures es == [] <==> |old(unit.Queue())| < TX_BUFFER_SIZE - 1
    ensures AreMatches(unit.ticksPerBit, xs, es) && xs[0] == old(unit.View())
    ensures Step(unit.ticksPerBit, xs[|es|], Write(b, written), unit.View())
  {
    Rings.IsFull(unit.head, unit.tail, TX_BUFFER_SIZE);
    xs, es, written := AwaitRoom(unit, time, now);
    unit.WriteByte(b, written);
  }

  method AwaitRoom(unit: Transmitter, time: nat, now: nat)
    returns (ghost xs: seq<Tx>, ghost es: seq<Event>, written: nat)
    requires unit.Valid() && now == unit.trace.now <= time
    requires unit.txState != 0 ==> time < Due(unit.ticksPerBit, unit.trace, unit.txState)
    modifies unit, unit.buffer
    ensures unit.Valid() && time <= written && unit.trace.now <= written
    ensures unit.txState != 0 ==> written < Due(unit.ticksPerBit, unit.trace, unit.txState)
    ensures Rings.Next(unit.head, TX_BUFFER_SIZE) != unit.tail
    ensures es == [] <==> old(Rings.Next(unit.head, TX_BUFFER_SIZE) != unit.tail)
    ensures AreMatches(unit.ticksPerBit, xs, es) && xs[0] == old(unit.View()) && xs[|es|] == unit.View()
  {
    xs, es, written := [unit.View()], [], time;
    var last := now;
    while Rings.Next(unit.head, TX_BUFFER_SIZE) == unit.tail
      invariant unit.Valid() && last == unit.trace.now <= written && time <= written
      invariant unit.txState != 0 ==> written < Due(unit.ticksPerBit, unit.trace, unit.txState)
      invariant if es == [] then unit.head == old(unit.head) && unit.tail == old(unit.tail)
        else old(Rings.Next(unit.head, TX_BUFFER_SIZE) == unit.tail)
      invariant AreMatches(unit.ticksPerBit, xs, es) && xs[0] == old(unit.View()) && xs[|es|] == unit.View()
      decreases |unit.Queue()|, 11 - unit.txState
    {
      Rings.IsFull(unit.head, unit.tail, TX_BUFFER_SIZE);
      unit.ValidIsSound();
      last := Interrupted(unit, last);
      PathGoesOn(unit.ticksPerBit, xs, es, Match(last), unit.View());
      xs, es := xs + [unit.View()], es + [Match(last)];
      written := last;
    }
  }

  /** The next compare interrupt of a busy transmitter: a byte leaves the ring, or the frame in progress goes on. */
  method Interrupted(unit: Transmitter, now: nat) returns (due: nat)
    requires unit.Valid() && unit.txState != 0 && now == unit.trace.now
    modifies unit, unit.buffer
    ensures unit.Valid() && now < due == unit.trace.now
    ensures due == old(Due(unit.ticksPerBit, unit.trace, unit.txState))
    ensures Sound(unit.ticksPerBit, unit.View())
    ensures Step(unit.ticksPerBit, old(unit.View()), Match(due), unit.View())
    ensures unit.txState <= 10 && (unit.txState != 0 ==> due < Due(unit.ticksPerBit, unit.trace, unit.txState))
    ensures |unit.Queue()| < |old(unit.Queue())|
         || (|unit.Queue()| == |old(unit.Queue())| && (unit.txState == 0 || old(unit.txState) < unit.txState))
    ensures unit.txState == 0 ==> old(unit.Queue()) == []
  {
    due := NextMatch(now, unit.compareA);
    FirstMatch(now, Due(unit.ticksPerBit, unit.trace, unit.txState), due);
    unit.CompareA(due);
    unit.ValidIsSound();
  }

  lemma RunEnds(t: nat, xs: seq<Tx>, es: seq<Event>)
    requires IsRun(t, xs, es)
    ensures
      var x := xs[|es|];
      && Written(x.trace, x.state != 0, x.queue) == BytesWritten(es)
      && (Decodable(t) && AllSpaced(t, xs, es) && x.state == 0 ==>
        Carries(Received(t, x.trace.edges), BytesWritten(es)))
  {
    RunKeepsOrder(t, xs, es);
    if Decodable(t) && AllSpaced(t, xs, es) && xs[|es|].state == 0 {
      RunIsReceived(t, xs, es);
    }
  }
}
