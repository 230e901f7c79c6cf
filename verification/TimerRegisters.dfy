/** The 16-bit timer registers that AltSoftSerial.cpp works with, and the bit rates that its init accepts. */
module TimerRegisters {
  import Remainders

  const TIMER_RANGE := 0x1_0000
  /** init refuses this many ticks per bit and more. */
  const TICKS_LIMIT := 7085

  predicate AcceptedRate(t: nat) {
    1 <= t < TICKS_LIMIT
  }

  /** A time as a 16-bit register holds it. */
  function Register(time: nat): (r: nat)
    ensures r < TIMER_RANGE
  {
    if time < TIMER_RANGE then time else Register(time - TIMER_RANGE)
  }

  lemma {:induction false} RegisterIsRemainder(time: nat)
    ensures Register(time) == time % TIMER_RANGE
  {
    if time < TIMER_RANGE {
    } else {
      RegisterIsRemainder(time - TIMER_RANGE);
      assert time % TIMER_RANGE == (time - TIMER_RANGE) % TIMER_RANGE;
    }
  }

  lemma RegisterAdd(time: nat, d: nat)
    ensures Register(Register(time) + d) == Register(time + d)
  {
    RegisterIsRemainder(time);
    RegisterIsRemainder(Register(time) + d);
    RegisterIsRemainder(time + d);
    Remainders.WordSum(time, d);
  }

  /** A compare register matches when the timer next has its value, which identifies the time meant. */
  lemma FirstMatch(now: nat, due: nat, time: nat)
    requires now < due <= now + TIMER_RANGE && now < time <= now + TIMER_RANGE && Register(time) == Register(due)
    ensures time == due
  {
    RegisterIsRemainder(time);
    RegisterIsRemainder(due);
    SameRemainder(now, due, time);
  }

  lemma SameRemainder(now: nat, due: nat, time: nat)
    requires now < due <= now + TIMER_RANGE && now < time <= now + TIMER_RANGE
    requires time % TIMER_RANGE == due % TIMER_RANGE
    ensures time == due
  {
  }

  /** When a timer that is at now next matches a compare register. */
  function NextMatch(now: nat, compare: nat): (time: nat)
    requires compare < TIMER_RANGE
    ensures now < time <= now + TIMER_RANGE && Register(time) == compare
  {
    var wait: nat := (compare - now - 1) % TIMER_RANGE;
    RegisterIsRemainder(now + 1 + wait);
    WaitedOut(now + 1, compare);
    now + 1 + wait
  }

  lemma WaitedOut(start: nat, compare: nat)
    requires compare < TIMER_RANGE
    ensures (start + (compare - start) % TIMER_RANGE) % TIMER_RANGE == compare
  {
  }
}
