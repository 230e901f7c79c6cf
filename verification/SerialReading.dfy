/** A program that reads while the receiver of AltSoftSerial.cpp listens to the line. */
module SerialReading {
  import opened LineCode
  import opened Options
  import opened Recurrence
  import opened SerialBits
  import opened AltSoftSerial
  import opened SerialReceiver
  import opened TimerRegisters
  import Rings

  /** What happens to the ring: an interrupt completes a byte, or the program calls read. */
  datatype Moment = Completes(b: Byte) | Reads

  /** The bytes that wait, and those that the program has read. */
  datatype Desk = Desk(queue: seq<Byte>, read: seq<Byte>)

  function Play(d: Desk, m: Moment): Desk {
    match m
    case Completes(b) => d.(queue := Pushed(d.queue, b))
    case Reads => if d.queue == [] then d else Desk(d.queue[1..], d.read + [d.queue[0]])
  }

  function PlayAll(ms: seq<Moment>): Desk {
    Fold(Play, Desk([], []), ms)
  }

  function Completed(ms: seq<Moment>): seq<Byte> {
    if ms == [] then []
    else
      var n := |ms| - 1;
      Completed(ms[..n]) + if ms[n].Completes? then [ms[n].b] else []
  }

  /** Whenever a byte is completed, the ring has room for it. */
  ghost predicate Roomy(ms: seq<Moment>) {
    forall i :: 0 <= i < |ms| && ms[i].Completes? ==> |PlayAll(ms[..i]).queue| < Rings.RX_BUFFER_SIZE - 1
  }

  lemma RoomyStep(ms: seq<Moment>, m: Moment)
    ensures Roomy(ms + [m]) <==>
      Roomy(ms) && (m.Completes? ==> |PlayAll(ms).queue| < Rings.RX_BUFFER_SIZE - 1)
  {
    var longer := ms + [m];
    assert longer[..|ms|] == ms && longer[|ms|] == m;
    forall i | 0 <= i < |ms|
      ensures longer[..i] == ms[..i] && longer[i] == ms[i]
    {
    }
    if Roomy(longer) {
      forall i | 0 <= i < |ms| && ms[i].Completes?
        ensures |PlayAll(ms[..i]).queue| < Rings.RX_BUFFER_SIZE - 1
      {
        assert longer[i].Completes?;
      }
      assert m.Completes? ==> longer[|ms|].Completes?;
    }
  }

  /** Bytes read and then bytes waiting are all bytes completed, exactly if the ring had room for each of them. */
  lemma {:induction false} KeptExactly(ms: seq<Moment>)
    ensures
      var d := PlayAll(ms);
      && |d.queue| < Rings.RX_BUFFER_SIZE && |d.read + d.queue| <= |Completed(ms)|
      && (d.read + d.queue == Completed(ms) <==> Roomy(ms))
  {
    if ms == [] {
    } else {
      var n := |ms| - 1;
      KeptExactly(ms[..n]);
      assert ms[..n] + [ms[n]] == ms;
      RoomyStep(ms[..n], ms[n]);
      KeptStep(PlayAll(ms[..n]), ms[n], Completed(ms[..n]));
    }
  }

  lemma KeptStep(d: Desk, m: Moment, bytes: seq<Byte>)
    requires |d.queue| < Rings.RX_BUFFER_SIZE && |d.read + d.queue| <= |bytes|
    ensures
      var d', bytes' := Play(d, m), bytes + if m.Completes? then [m.b] else [];
      && |d'.queue| < Rings.RX_BUFFER_SIZE && |d'.read + d'.queue| <= |bytes'|
      && (d'.read + d'.queue == bytes' <==>
        d.read + d.queue == bytes && (m.Completes? ==> |d.queue| < Rings.RX_BUFFER_SIZE - 1))
  {
    match m
    case Completes(b) =>
      assert d.read + (d.queue + [b]) == (d.read + d.queue) + [b];
      if (d.read + d.queue) + [b] == bytes + [b] {
        assert ((d.read + d.queue) + [b])[..|bytes|] == d.read + d.queue && (bytes + [b])[..|bytes|] == bytes;
      }
    case Reads =>
      if d.queue != [] {
        assert d.read + [d.queue[0]] + d.queue[1..] == d.read + d.queue;
      }
  }

  // The moments of a wave

  function Decoded(bytes: seq<Bits>): (s: seq<Byte>)
    ensures |s| == |bytes|
  {
    seq(|bytes|, i requires 0 <= i < |bytes| => ByteOf(bytes[i]))
  }

  function Completing(bytes: seq<Bits>): (ms: seq<Moment>)
    ensures |ms| == |bytes|
  {
    seq(|bytes|, i requires 0 <= i < |bytes| => Completes(ByteOf(bytes[i])))
  }

  function Reading(k: nat): (ms: seq<Moment>)
    ensures |ms| == k
  {
    seq(k, i => Reads)
  }

  /** The timeout that passes before the edge, if there is one. */
  function DueBefore(rx: Receiver, e: Edge): (h: Heard)
    requires Valid(rx)
    ensures Valid(h.rx)
  {
    if rx.Busy? && rx.deadline < e.time then OnDeadline(rx) else Heard(rx, [])
  }

  /** Around one edge: early reads, the timeout that is due, late reads, the edge. */
  function AroundEdge(t: nat, rx: Receiver, e: Edge, early: nat, late: nat): seq<Moment>
    requires Valid(rx)
  {
    var due := DueBefore(rx, e);
    Reading(early) + Completing(due.bytes) + Reading(late) + Completing(OnEdge(t, due.rx, e).bytes)
  }

  /** The moments up to edge n; the reads around edge i are early[i] and late[i]. */
  function Moments(t: nat, wave: seq<Edge>, early: seq<nat>, late: seq<nat>, n: nat): seq<Moment>
    requires n <= |wave| && |wave| < |early| == |late|
  {
    if n == 0 then []
    else
      var rx := Hear(t, Heard(Idle, []), wave[..n - 1]).rx;
      Moments(t, wave, early, late, n - 1) + AroundEdge(t, rx, wave[n - 1], early[n - 1], late[n - 1])
  }

  /** The moments of a whole wave and the silence after it. */
  function AllMoments(t: nat, wave: seq<Edge>, early: seq<nat>, late: seq<nat>): seq<Moment>
    requires |early| == |late| == |wave| + 1
  {
    var rx := Hear(t, Heard(Idle, []), wave).rx;
    Moments(t, wave, early, late, |wave|) + (Reading(early[|wave|]) + Completing(OnDeadline(rx).bytes) +
    Reading(late[|wave|])) }

  lemma {:induction false} CompletedAppend(a: seq<Moment>, b: seq<Moment>)
    ensures Completed(a + b) == Completed(a) + Completed(b)
  {
    if b == [] {
      assert a + b == a;
    } else {
      var n := |b| - 1;
      assert (a + b)[..|a + b| - 1] == a + b[..n];
      CompletedAppend(a, b[..n]);
    }
  }

  lemma {:induction false} CompletedReading(k: nat)
    ensures Completed(Reading(k)) == []
  {
    if k == 0 {
    } else {
      CompletedReading(k - 1);
      assert Reading(k)[..k - 1] == Reading(k - 1);
    }
  }

  lemma {:induction false} CompletedCompleting(bytes: seq<Bits>)
    ensures Completed(Completing(bytes)) == Decoded(bytes)
  {
    if bytes == [] {
    } else {
      var n := |bytes| - 1;
      CompletedCompleting(bytes[..n]);
      assert Completing(bytes)[..n] == Completing(bytes[..n]);
      assert Decoded(bytes) == Decoded(bytes[..n]) + [ByteOf(bytes[n])];
    }
  }

  lemma DecodedAppend(a: seq<Bits>, b: seq<Bits>)
    ensures Decoded(a + b) == Decoded(a) + Decoded(b)
  {
  }

  /** Reads around a run of completed bytes do not show in the bytes. */
  lemma CompletedAround(early: nat, bytes: seq<Bits>, late: nat)
    ensures Completed(Reading(early) + Completing(bytes) + Reading(late)) == Decoded(bytes)
  {
    CompletedAppend(Reading(early), Completing(bytes));
    CompletedAppend(Reading(early) + Completing(bytes), Reading(late));
    CompletedReading(early);
    CompletedReading(late);
    CompletedCompleting(bytes);
  }

  lemma {:induction false} MomentsComplete(t: nat, wave: seq<Edge>, early: seq<nat>, late: seq<nat>, n: nat)
    requires n <= |wave| && |wave| < |early| == |late|
    ensures Completed(Moments(t, wave, early, late, n)) == Decoded(Hear(t, Heard(Idle, []), wave[..n]).bytes)
  {
    if n == 0 {
    } else {
      var h, e := Hear(t, Heard(Idle, []), wave[..n - 1]), wave[n - 1];
      var due := DueBefore(h.rx, e);
      var edge := OnEdge(t, due.rx, e).bytes;
      MomentsComplete(t, wave, early, late, n - 1);
      assert wave[..n][..n - 1] == wave[..n - 1];
      CompletedAround(early[n - 1], due.bytes, late[n - 1]);
      CompletedCompleting(edge);
      CompletedAppend(Reading(early[n - 1]) + Completing(due.bytes) + Reading(late[n - 1]), Completing(edge));
      CompletedAppend(Moments(t, wave, early, late, n - 1), AroundEdge(t, h.rx, e, early[n - 1], late[n - 1]));
      DecodedThrice(h.bytes, due.bytes, edge);
    }
  }

  lemma DecodedThrice(a: seq<Bits>, b: seq<Bits>, c: seq<Bits>)
    ensures Decoded(a + b + c) == Decoded(a) + (Decoded(b) + Decoded(c))
  {
  }

  /** Whatever is read when: the bytes completed are those that the line code receives. */
  lemma AllMomentsComplete(t: nat, wave: seq<Edge>, early: seq<nat>, late: seq<nat>)
    requires |early| == |late| == |wave| + 1
    ensures Completed(AllMoments(t, wave, early, late)) == Decoded(Received(t, wave))
  {
    var n := |wave|;
    var h := Hear(t, Heard(Idle, []), wave);
    assert wave[..n] == wave;
    MomentsComplete(t, wave, early, late, n);
    CompletedAround(early[n], OnDeadline(h.rx).bytes, late[n]);
    CompletedAppend(Moments(t, wave, early, late, n),
      Reading(early[n]) + Completing(OnDeadline(h.rx).bytes) + Reading(late[n]));
    DecodedAppend(h.bytes, OnDeadline(h.rx).bytes);
  }

  lemma DecodedCarries(received: seq<Bits>, bytes: seq<Byte>)
    requires Carries(received, bytes)
    ensures Decoded(received) == bytes
  {
    forall i | 0 <= i < |bytes|
      ensures Decoded(received)[i] == bytes[i]
    {
      ByteOfBits(bytes[i], 0, BitsOf(bytes[i]));
    }
  }

  /**
   Whatever the interleaving of writes and compare interrupts at the sender, and of reads with the interrupts of the
   receiver, and for any number of bytes: what the program has read and what waits for it are the bytes written, in
   order, if and only if the ring was never full when a byte was completed.
   */
  lemma WrittenIsReceived(t: nat, xs: seq<Tx>, es: seq<AltSoftSerial.Event>, early: seq<nat>, late: seq<nat>)
    requires Decodable(t) && AltSoftSerial.IsRun(t, xs, es) && AllSpaced(t, xs, es) && xs[|es|].state == 0
    requires |early| == |late| == |xs[|es|].trace.edges| + 1
    ensures
      var ms := AllMoments(t, xs[|es|].trace.edges, early, late);
      PlayAll(ms).read + PlayAll(ms).queue == BytesWritten(es) <==> Roomy(ms)
  {
    var wave := xs[|es|].trace.edges;
    RunIsReceived(t, xs, es);
    DecodedCarries(Received(t, wave), BytesWritten(es));
    AllMomentsComplete(t, wave, early, late);
    KeptExactly(AllMoments(t, wave, early, late));
  }

  // A program that does not read

  predicate NeverReads(ms: seq<Moment>) {
    forall i :: 0 <= i < |ms| ==> ms[i].Completes?
  }

  lemma {:induction false} PlayUnread(ms: seq<Moment>)
    requires NeverReads(ms)
    ensures PlayAll(ms) == Desk(PushedAll([], Completed(ms)), [])
  {
    if ms == [] {
    } else {
      PlayUnread(ms[..|ms| - 1]);
    }
  }

  lemma {:induction false} MomentsUnread(t: nat, wave: seq<Edge>, none: seq<nat>, n: nat)
    requires n <= |wave| < |none| && forall i :: 0 <= i < |none| ==> none[i] == 0
    ensures NeverReads(Moments(t, wave, none, none, n))
  {
    if n == 0 {
    } else {
      MomentsUnread(t, wave, none, n - 1);
    }
  }

  /** The receiver alone: what waits in the end is what the line code receives, as far as the ring holds it. */
  lemma Unread(t: nat, wave: seq<Edge>, none: seq<nat>)
    requires |none| == |wave| + 1 && forall i :: 0 <= i < |none| ==> none[i] == 0
    ensures PlayAll(AllMoments(t, wave, none, none)) == Desk(PushedAll([], Decoded(Received(t, wave))), [])
  {
    MomentsUnread(t, wave, none, |wave|);
    PlayUnread(AllMoments(t, wave, none, none));
    AllMomentsComplete(t, wave, none, none);
  }

  // The receiver and its program

  lemma DeadlineKept(t: nat, h: Heard, e: Edge)
    requires Valid(h.rx)
    ensures
      var rx := Next(t, h, e).rx;
      rx.Busy? ==>
        if h.rx.Idle? || h.rx.deadline < e.time then rx.deadline == e.time + StopTicks(t)
        else rx.deadline == h.rx.deadline
  {
    var due := if h.rx.Busy? && h.rx.deadline < e.time then OnDeadline(h.rx) else Heard(h.rx, []);
    if due.rx.Busy? && e.high != due.rx.high {
      SamplesKeepDeadline(t, e.time, due.rx);
    }
  }

  lemma {:induction false} SamplesKeepDeadline(t: nat, c: nat, rx: Receiver)
    requires rx.Busy? && |rx.bits| < 8
    ensures
      var h := TakeSamples(t, c, rx);
      h.rx.Busy? ==> h.rx.deadline == rx.deadline
    decreases 8 - |rx.bits|
  {
    if Offset(c, rx.sample) >= 0 && |rx.bits| < 7 {
      SamplesKeepDeadline(t, c, rx.(sample := rx.sample + t, bits := rx.bits + [rx.high]));
    }
  }

  lemma HearStep(t: nat, wave: seq<Edge>, i: nat, rx: Receiver)
    requires i < |wave| && Valid(rx) && rx == Hear(t, Heard(Idle, []), wave[..i]).rx
    ensures
      var h := Hear(t, Heard(Idle, []), wave[..i]);
      var n := Next(t, Heard(rx, []), wave[i]);
      Hear(t, Heard(Idle, []), wave[..i + 1]) == Heard(n.rx, h.bytes + n.bytes)
  {
    var h := Hear(t, Heard(Idle, []), wave[..i]);
    assert wave[..i + 1][..i] == wave[..i];
    NextAfter(t, Heard(rx, []), h.bytes, wave[i]);
    assert h.bytes + [] == h.bytes;
  }

  lemma {:induction false} PlayStored(d: Desk, bytes: seq<Bits>)
    ensures Fold(Play, d, Completing(bytes)) == d.(queue := Stored(d.queue, bytes))
  {
    if bytes == [] {
    } else {
      var n := |bytes| - 1;
      PlayStored(d, bytes[..n]);
      assert Completing(bytes)[..n] == Completing(bytes[..n]);
    }
  }

  /** k calls of read. */
  method ReadMany(unit: ReceiveUnit, k: nat, before: seq<Byte>) returns (read: seq<Byte>)
    requires unit.Valid()
    modifies unit`head, unit`tail, unit.buffer
    ensures unit.Valid() && Desk(unit.Queue(), read) == Fold(Play, Desk(old(unit.Queue()), before), Reading(k))
  {
    read := before;
    var i := 0;
    while i < k
      invariant 0 <= i <= k && unit.Valid()
      invariant Desk(unit.Queue(), read) == Fold(Play, Desk(old(unit.Queue()), before), Reading(i))
    {
      assert Reading(i + 1)[..i] == Reading(i);
      var out := unit.Read([], []);
      if out.Some? {
        read := read + [out.value];
      }
      i := i + 1;
    }
  }

  lemma PlayAround(d: Desk, early: nat, bytes: seq<Bits>, late: nat, d1: Desk, d2: Desk)
    requires d1 == Fold(Play, d, Reading(early))
    requires d2 == Fold(Play, d1.(queue := Stored(d1.queue, bytes)), Reading(late))
    ensures Fold(Play, d, Reading(early) + Completing(bytes) + Reading(late)) == d2
  {
    PlayStored(d1, bytes);
    FoldAppend(Play, d, Reading(early), Completing(bytes));
    FoldAppend(Play, d, Reading(early) + Completing(bytes), Reading(late));
  }

  /** The timeout, with the reads before and after it, if it is due. */
  method Silence(unit: ReceiveUnit, due: bool, ghost armed: nat, early: nat, late: nat, before: seq<Byte>)
    returns (read: seq<Byte>)
    requires unit.Valid() && (due ==> unit.rx.Busy? && unit.rx.deadline == armed + StopTicks(unit.ticksPerBit))
    modifies unit, unit.buffer
    ensures unit.Valid() && unit.rx == if due then Idle else old(unit.rx)
    ensures
      var h := if due then OnDeadline(old(unit.rx)) else Heard(old(unit.rx), []);
      Desk(unit.Queue(), read)
        == Fold(Play, Desk(old(unit.Queue()), before), Reading(early) + Completing(h.bytes) + Reading(late))
  {
    ghost var h := if due then OnDeadline(unit.rx) else Heard(unit.rx, []);
    ghost var d := Desk(unit.Queue(), before);
    read := ReadMany(unit, early, before);
    ghost var d1 := Desk(unit.Queue(), read);
    if due {
      StopTicksFit(unit.ticksPerBit);
      unit.CompareB(unit.rx.deadline, armed);
    }
    read := ReadMany(unit, late, read);
    PlayAround(d, early, h.bytes, late, d1, Desk(unit.Queue(), read));
  }

  /** One edge and what comes before it. */
  method Around(unit: ReceiveUnit, e: Edge, due: bool, ghost armed: nat, early: nat, late: nat, before: seq<Byte>)
    returns (read: seq<Byte>)
    requires unit.Valid() && (due <==> unit.rx.Busy? && unit.rx.deadline < e.time)
    requires unit.rx.Busy? ==> unit.rx.deadline == armed + StopTicks(unit.ticksPerBit)
    modifies unit, unit.buffer
    ensures unit.Valid() && unit.rx == Next(unit.ticksPerBit, Heard(old(unit.rx), []), e).rx
    ensures Desk(unit.Queue(), read) == Fold(Play, Desk(old(unit.Queue()), before),
      AroundEdge(unit.ticksPerBit, old(unit.rx), e, early, late))
  {
    ghost var rx, d := unit.rx, Desk(unit.Queue(), before);
    ghost var h := DueBefore(rx, e);
    read := Silence(unit, due, armed, early, late, before);
    ghost var edge := OnEdge(unit.ticksPerBit, h.rx, e).bytes;
    PlayStored(Desk(unit.Queue(), read), edge);
    FoldAppend(Play, d, Reading(early) + Completing(h.bytes) + Reading(late), Completing(edge));
    assert [] + [] + edge == edge;
    unit.OnWire(e, false, armed);
  }

  /** A receiver hears a whole wave and the silence after it, while the program reads now and then. */
  method Converse(ticksPerBit: nat, wave: seq<Edge>, early: seq<nat>, late: seq<nat>)
    returns (unit: ReceiveUnit, read: seq<Byte>)
    requires AcceptedRate(ticksPerBit) && |early| == |late| == |wave| + 1
    ensures unit.Valid() && unit.rx == Idle
    ensures Desk(unit.Queue(), read) == PlayAll(AllMoments(ticksPerBit, wave, early, late))
  {
    unit := new ReceiveUnit(ticksPerBit);
    read := [];
    var armed: nat, i: nat := 0, 0;
    while i < |wave|
      invariant 0 <= i <= |wave| && fresh(unit) && fresh(unit.buffer) && unit.Valid() && unit.ticksPerBit == ticksPerBit
      invariant unit.rx == Hear(ticksPerBit, Heard(Idle, []), wave[..i]).rx
      invariant Desk(unit.Queue(), read) == PlayAll(Moments(ticksPerBit, wave, early, late, i))
      invariant unit.rx.Busy? ==> unit.rx.deadline == armed + StopTicks(ticksPerBit)
    {
      var due := unit.interruptB && armed + StopTicks(ticksPerBit) < wave[i].time;
      var starts := !unit.interruptB || due;
      DeadlineKept(ticksPerBit, Heard(unit.rx, []), wave[i]);
      HearStep(ticksPerBit, wave, i, unit.rx);
      assert wave[..i + 1][..i] == wave[..i];
      FoldAppend(Play, Desk([], []), Moments(ticksPerBit, wave, early, late, i),
        AroundEdge(ticksPerBit, unit.rx, wave[i], early[i], late[i]));
      read := Around(unit, wave[i], due, armed, early[i], late[i], read);
      if starts {
        armed := wave[i].time;
      }
      i := i + 1;
    }
    assert wave[..i] == wave;
    ghost var rest := OnDeadline(unit.rx).bytes;
    FoldAppend(Play, Desk([], []), Moments(ticksPerBit, wave, early, late, i),
      Reading(early[i]) + Completing(rest) + Reading(late[i]));
    read := Silence(unit, unit.interruptB, armed, early[i], late[i], read);
  }
}
