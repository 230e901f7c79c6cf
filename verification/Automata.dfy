/** Runs of an automaton that takes one input at a time and may answer with outputs. */
module Automata {

  /** The state after all inputs, and all outputs. */
  function Run<S, B, O>(step: (S, B) -> (S, seq<O>), s: S, inputs: seq<B>): (S, seq<O>) {
    if inputs == [] then (s, [])
    else
      var (r, outputs) := Run(step, s, inputs[..|inputs| - 1]);
      var (t, more) := step(r, inputs[|inputs| - 1]);
      (t, outputs + more)
  }

  lemma {:induction false} RunStep<S, B, O>(step: (S, B) -> (S, seq<O>), s: S, inputs: seq<B>, b: B)
    ensures
      var (r, outputs) := Run(step, s, inputs);
      Run(step, s, inputs + [b]) == (step(r, b).0, outputs + step(r, b).1)
  {
    assert (inputs + [b])[..|inputs|] == inputs;
  }

  lemma {:induction false} RunOne<S, B, O>(step: (S, B) -> (S, seq<O>), s: S, b: B)
    ensures Run(step, s, [b]) == step(s, b)
  {
    RunStep(step, s, [], b);
    assert [] + [b] == [b] && [] + step(s, b).1 == step(s, b).1;
  }

  lemma {:induction false} RunAppend<S, B, O>(step: (S, B) -> (S, seq<O>), s: S, a: seq<B>, b: seq<B>)
    ensures
      var (r, first) := Run(step, s, a);
      var (t, second) := Run(step, r, b);
      Run(step, s, a + b) == (t, first + second)
  {
    var (r, first) := Run(step, s, a);
    if b == [] {
      assert a + b == a && first + [] == first;
    } else {
      var n := |b| - 1;
      assert (a + b)[..|a + b| - 1] == a + b[..n];
      RunAppend(step, s, a, b[..n]);
      var (t, second) := Run(step, r, b[..n]);
      assert first + second + step(t, b[n]).1 == first + (second + step(t, b[n]).1);
    }
  }

  /** A step without output. */
  lemma {:induction false} RunQuietly<S, B, O>(step: (S, B) -> (S, seq<O>), s: S, inputs: seq<B>, b: B, r: S, t: S)
    requires Run(step, s, inputs) == (r, []) && step(r, b) == (t, [])
    ensures Run(step, s, inputs + [b]) == (t, [])
  {
    RunStep(step, s, inputs, b);
    var none: seq<O> := [];
    assert none + none == none;
  }

  lemma {:induction false} QuietTake<S, B, O>(step: (S, B) -> (S, seq<O>), s: S, inputs: seq<B>, n: nat, k: nat)
    requires k <= n <= |inputs| && Run(step, s, inputs[..n]).1 == []
    ensures Run(step, s, inputs[..k]).1 == []
  {
    RunAppend(step, s, inputs[..k], inputs[..n][k..]);
    assert inputs[..n] == inputs[..k] + inputs[..n][k..];
  }

  /** inv holds of the inputs so far and the state, and every step keeps it. */
  ghost predicate Inductive<S(!new), B(!new), O>(step: (S, B) -> (S, seq<O>), inv: (seq<B>, S) -> bool) {
    forall inputs, s, b :: inv(inputs, s) ==> inv(inputs + [b], step(s, b).0)
  }

  lemma {:induction false} RunKeeps<S(!new), B(!new), O>(step: (S, B) -> (S, seq<O>), inv: (seq<B>, S) -> bool, s: S,
                                                         inputs: seq<B>)
    requires inv([], s) && Inductive(step, inv)
    ensures inv(inputs, Run(step, s, inputs).0)
  {
    if inputs == [] {
    } else {
      var n := |inputs| - 1;
      RunKeeps(step, inv, s, inputs[..n]);
      assert inputs[..n] + [inputs[n]] == inputs;
    }
  }

  /** The first output comes with the last input. */
  ghost predicate AnswersLast<S, B, O>(step: (S, B) -> (S, seq<O>), s: S, inputs: seq<B>) {
    inputs != [] && Run(step, s, inputs).1 != [] && Run(step, s, inputs[..|inputs| - 1]).1 == []
  }

  /** Reading until the first output takes the same inputs however they are cut out of the stream. */
  lemma {:induction false} SameRun<S, B, O>(step: (S, B) -> (S, seq<O>), s: S, a: seq<B>, left: seq<B>, f: seq<B>,
                                           rest: seq<B>)
    requires a + left == f + rest && AnswersLast(step, s, f)
    requires AnswersLast(step, s, a) || (Run(step, s, a).1 == [] && left == [])
    ensures a == f && left == rest
  {
    Overlap(a, left, f, rest);
    assert a[..|a|] == a;
    if |a| < |f| {
      QuietTake(step, s, f, |f| - 1, |a|);
    } else if |f| < |a| {
      QuietTake(step, s, a, if AnswersLast(step, s, a) then |a| - 1 else |a|, |f|);
    }
  }

  lemma Overlap<T>(a: seq<T>, b: seq<T>, c: seq<T>, d: seq<T>)
    requires a + b == c + d
    ensures |a| < |c| ==> a == c[..|a|] && b != []
    ensures |c| < |a| ==> c == a[..|c|]
    ensures |a| == |c| ==> a == c && b == d
  {
    assert a == (c + d)[..|a|] && c == (a + b)[..|c|];
    assert b == (c + d)[|a|..] && d == (a + b)[|c|..];
  }
}
