/** The last call times of the tasks during a walk, and which callbacks are called. */
module TaskTimes {
  import opened Clocks
  import opened TaskChains

  type Time = t: nat | t < CLOCK_RANGE

  /** The difference of two times of a clock that overflows. */
  function Elapsed(now: Time, since: Time): (d: Time) {
    (now - since) % CLOCK_RANGE
  }

  /** One turn of a walk: when the task is tested, and what its callback does, if it is called, at which times. */
  datatype Turn<T> = Turn(now: Time, ops: seq<Op<T>>, clock: seq<Time>)

  /** A task that is added is due at once. */
  function AfterOp<T(==)>(last: map<T, Time>, period: map<T, Time>, op: Op<T>, micros: Time): map<T, Time> {
    if op.Add? && op.task in period then last[op.task := Elapsed(micros, period[op.task])] else last
  }

  function AfterOps<T(==)>(last: map<T, Time>, period: map<T, Time>, ops: seq<Op<T>>, clock: seq<Time>): map<T, Time>
    requires |ops| <= |clock|
  {
    if ops == [] then last
    else
      var n := |ops| - 1;
      AfterOp(AfterOps(last, period, ops[..n], clock), period, ops[n], clock[n])
  }

  /** The period of x has passed since its last call. */
  predicate Due<T(==)>(last: map<T, Time>, period: map<T, Time>, x: T, now: Time) {
    x in last && x in period && Elapsed(now, last[x]) >= period[x]
  }

  function AfterTurn<T(==)>(last: map<T, Time>, period: map<T, Time>, x: T, turn: Turn<T>): map<T, Time>
    requires |turn.ops| <= |turn.clock|
  {
    if Due(last, period, x, turn.now) then AfterOps(last, period, turn.ops, turn.clock)[x := turn.now] else last
  }

  ghost predicate Timed<T>(script: seq<Turn<T>>) {
    forall i :: 0 <= i < |script| ==> |script[i].ops| <= |script[i].clock|
  }

  /** After the turns in which the tasks of tested were tested. */
  ghost function AfterTurns<T>(last: map<T, Time>, period: map<T, Time>, tested: seq<T>, script: seq<Turn<T>>)
    : map<T, Time>
    requires |tested| <= |script| && Timed(script)
  {
    if tested == [] then last
    else
      var n := |tested| - 1;
      AfterTurn(AfterTurns(last, period, tested[..n], script), period, tested[n], script[n])
  }

  /** In turn i the callback has been called exactly if the period of its task had passed when it was tested. */
  ghost predicate CalledIfDue<T>(last: map<T, Time>, period: map<T, Time>, tested: seq<T>, script: seq<Turn<T>>,
                                 done: seq<seq<Op<T>>>, i: nat)
    requires i < |tested| == |done| <= |script| && Timed(script)
  {
    var before := AfterTurns(last, period, tested[..i], script);
    done[i] == if Due(before, period, tested[i], script[i].now) then script[i].ops else []
  }

  ghost predicate CalledWhenDue<T>(last: map<T, Time>, period: map<T, Time>, tested: seq<T>, script: seq<Turn<T>>,
                                   done: seq<seq<Op<T>>>)
    requires |tested| == |done| <= |script| && Timed(script)
  {
    forall i :: 0 <= i < |tested| ==> CalledIfDue(last, period, tested, script, done, i)
  }

  lemma {:induction false} OneTurn<T>(last: map<T, Time>, period: map<T, Time>, tested: seq<T>, script: seq<Turn<T>>,
                                      done: seq<seq<Op<T>>>, x: T, ops: seq<Op<T>>)
    requires |tested| == |done| < |script| && Timed(script) && CalledWhenDue(last, period, tested, script, done)
    requires
      var before, turn := AfterTurns(last, period, tested, script), script[|tested|];
      ops == if Due(before, period, x, turn.now) then turn.ops else []
    ensures CalledWhenDue(last, period, tested + [x], script, done + [ops])
    ensures AfterTurns(last, period, tested + [x], script)
         == AfterTurn(AfterTurns(last, period, tested, script), period, x, script[|tested|])
  {
    var n := |tested|;
    assert (tested + [x])[..n] == tested;
    forall i | 0 <= i < n + 1
      ensures CalledIfDue(last, period, tested + [x], script, done + [ops], i)
    {
      if i < n {
        EarlierTurn(last, period, tested, script, done, x, ops, i);
      }
    }
  }

  lemma {:induction false} EarlierTurn<T>(last: map<T, Time>, period: map<T, Time>, tested: seq<T>,
                                          script: seq<Turn<T>>, done: seq<seq<Op<T>>>, x: T, ops: seq<Op<T>>, i: nat)
    requires i < |tested| == |done| < |script| && Timed(script)
    requires CalledIfDue(last, period, tested, script, done, i)
    ensures CalledIfDue(last, period, tested + [x], script, done + [ops], i)
  {
    assert (tested + [x])[..i] == tested[..i];
  }

  /** A task that is called has the time of its turn as its last call time. */
  lemma {:induction false} CalledAtItsTime<T>(last: map<T, Time>, period: map<T, Time>, tested: seq<T>,
                                              script: seq<Turn<T>>, i: nat)
    requires i < |tested| <= |script| && Timed(script)
    ensures
      var before := AfterTurns(last, period, tested[..i], script);
      var after := AfterTurns(last, period, tested[..i + 1], script);
      if Due(before, period, tested[i], script[i].now) then
        tested[i] in after && after[tested[i]] == script[i].now
      else
        after == before
  {
    assert tested[..i + 1][..i] == tested[..i];
  }
}
