/**
 The two recurrences inside a compression function, for any type of words and of states: a schedule whose entries
 depend on entries 16, 15, 7 and 2 places back, and a run of rounds that each consume one entry.  The schedule
 can be kept in a ring of sixteen entries.
 */
module Recurrence {

  ghost predicate IsEntry<T>(w: seq<T>, f: (T, T, T, T) -> T, t: nat)
    requires 16 <= t < |w|
  {
    w[t] == f(w[t - 16], w[t - 15], w[t - 7], w[t - 2])
  }

  /** w continues the sixteen entries of the block by the recurrence f. */
  ghost predicate IsSchedule<T>(w: seq<T>, block: seq<T>, f: (T, T, T, T) -> T) {
    && |block| == 16 <= |w|
    && (forall t :: 0 <= t < 16 ==> w[t] == block[t])
    && (forall t :: 16 <= t < |w| ==> IsEntry(w, f, t))
  }

  lemma ExtendSchedule<T>(w: seq<T>, block: seq<T>, f: (T, T, T, T) -> T)
    requires IsSchedule(w, block, f)
    ensures IsSchedule(w + [f(w[|w| - 16], w[|w| - 15], w[|w| - 7], w[|w| - 2])], block, f)
  {
    var v := w + [f(w[|w| - 16], w[|w| - 15], w[|w| - 7], w[|w| - 2])];
    forall t | 16 <= t < |v|
      ensures IsEntry(v, f, t)
    {
      if t < |w| {
        assert IsEntry(w, f, t);
      }
    }
  }

  /** The schedule of 16 + n entries. */
  function Schedule<T>(f: (T, T, T, T) -> T, block: seq<T>, n: nat): (w: seq<T>)
    requires |block| == 16
    ensures |w| == 16 + n && IsSchedule(w, block, f)
  {
    if n == 0 then block
    else
      var w := Schedule(f, block, n - 1);
      ExtendSchedule(w, block, f);
      w + [f(w[|w| - 16], w[|w| - 15], w[|w| - 7], w[|w| - 2])]
  }

  /** The states passed through when step consumes the entries of w one after the other. */
  ghost predicate IsRun<S, T>(states: seq<S>, step: (S, nat, T) -> S, s: S, w: seq<T>) {
    && |states| == |w| + 1 && states[0] == s
    && forall t :: 0 <= t < |w| ==> states[t + 1] == step(states[t], t, w[t])
  }

  function Run<S, T>(step: (S, nat, T) -> S, s: S, w: seq<T>): (states: seq<S>)
    ensures IsRun(states, step, s, w)
  {
    if w == [] then [s]
    else
      var n := |w| - 1;
      var states := Run(step, s, w[..n]);
      states + [step(states[n], n, w[n])]
  }

  // The ring

  /** The ring holds the entries m - 16 to m - 1 of w, each at its index modulo 16. */
  ghost predicate Rolling<T>(ring: seq<T>, w: seq<T>, m: nat) {
    |ring| == 16 && 16 <= m <= |w| && forall t :: m - 16 <= t < m ==> ring[t % 16] == w[t]
  }

  lemma RollingReads<T>(ring: seq<T>, w: seq<T>, m: nat, block: seq<T>, f: (T, T, T, T) -> T)
    requires Rolling(ring, w, m) && m < |w| && IsSchedule(w, block, f)
    ensures w[m] == f(ring[m % 16], ring[(m - 15) % 16], ring[(m - 7) % 16], ring[(m - 2) % 16])
  {
    assert IsEntry(w, f, m);
    assert (m - 16) % 16 == m % 16;
    assert ring[(m - 16) % 16] == w[m - 16];
  }

  lemma RollingWrite<T>(ring: seq<T>, w: seq<T>, m: nat)
    requires Rolling(ring, w, m) && m < |w|
    ensures Rolling(ring[m % 16 := w[m]], w, m + 1)
  {
    forall t | m - 15 <= t < m
      ensures t % 16 != m % 16
    {
    }
  }

  /** A fold from the left. */
  function Fold<S, B>(f: (S, B) -> S, s: S, blocks: seq<B>): S {
    if blocks == [] then s else f(Fold(f, s, blocks[..|blocks| - 1]), blocks[|blocks| - 1])
  }

  lemma {:induction false} FoldAppend<S, B>(f: (S, B) -> S, s: S, a: seq<B>, b: seq<B>)
    ensures Fold(f, Fold(f, s, a), b) == Fold(f, s, a + b)
  {
    if b == [] {
      assert a + b == a;
    } else {
      var n := |b| - 1;
      assert (a + b)[..|a + b| - 1] == a + b[..n];
      FoldAppend(f, s, a, b[..n]);
    }
  }

  lemma FoldStep<S, B>(f: (S, B) -> S, s: S, blocks: seq<B>, n: nat)
    requires n < |blocks|
    ensures Fold(f, s, blocks[..n + 1]) == f(Fold(f, s, blocks[..n]), blocks[n])
  {
    assert blocks[..n + 1][..n] == blocks[..n];
  }

  lemma FoldEight<S, B>(f: (S, B) -> S, s: S, b: seq<B>)
    requires |b| == 8
    ensures Fold(f, s, b) == f(f(f(f(f(f(f(f(s, b[0]), b[1]), b[2]), b[3]), b[4]), b[5]), b[6]), b[7])
  {
    FoldStep(f, s, b, 0);
    FoldStep(f, s, b, 1);
    FoldStep(f, s, b, 2);
    FoldStep(f, s, b, 3);
    FoldStep(f, s, b, 4);
    FoldStep(f, s, b, 5);
    FoldStep(f, s, b, 6);
    FoldStep(f, s, b, 7);
    assert b[..8] == b && b[..0] == [];
  }
}
