/**
 What callbacks can do to a chain of tasks while it is walked.  A task that leaves the chain keeps the link that it had,
 and a walk that stands on it goes on there.
 */
module TaskChains {
  import opened Options
  import opened Recurrence
  import opened Sequences

  datatype Op<T> = Add(task: T) | Remove(task: T)

  /** The tasks in the chain, and those that have left it with what they were linked to. */
  datatype Chain<T> = Chain(tasks: seq<T>, left: map<T, Option<T>>)

  function First<T>(s: seq<T>): Option<T> {
    if s == [] then None else Some(s[0])
  }

  /** The task behind x. */
  function Follower<T(==)>(s: seq<T>, x: T): Option<T>
    requires x in s
  {
    if s[0] == x then First(s[1..]) else Follower(s[1..], x)
  }

  function Removed<T(==)>(c: Chain<T>, x: T): Chain<T> {
    if x in c.tasks then Chain(Without(c.tasks, x), c.left[x := Follower(c.tasks, x)]) else c
  }

  function Apply<T(==)>(c: Chain<T>, op: Op<T>): Chain<T> {
    match op
    case Remove(x) => Removed(c, x)
    case Add(x) => Chain(Without(c.tasks, x) + [x], c.left - {x})
  }

  function ApplyAll<T(==)>(c: Chain<T>, ops: seq<Op<T>>): Chain<T> {
    if ops == [] then c else Apply(ApplyAll(c, ops[..|ops| - 1]), ops[|ops| - 1])
  }

  /** Where a walk goes on that stands on x. */
  function Next<T(==)>(c: Chain<T>, x: T): Option<T> {
    if x in c.tasks then Follower(c.tasks, x) else if x in c.left then c.left[x] else None
  }

  /** Each task once, in the chain or outside. */
  ghost predicate Sound<T>(c: Chain<T>) {
    Distinct(c.tasks) && forall x :: x in c.tasks ==> x !in c.left
  }

  lemma {:induction false} FollowerAt<T>(a: seq<T>, x: T, b: seq<T>)
    requires Distinct(a + [x] + b)
    ensures Follower(a + [x] + b, x) == First(b)
  {
    var s := a + [x] + b;
    if a == [] {
      assert s[0] == x && s[1..] == b;
    } else {
      assert s[0] == a[0] && s[|a|] == x;
      assert s[1..] == a[1..] + [x] + b;
      FollowerAt(a[1..], x, b);
    }
  }

  lemma WithoutBetween<T>(a: seq<T>, x: T, b: seq<T>)
    requires Distinct(a + [x] + b)
    ensures Without(a + [x] + b, x) == a + b && Distinct(a + b) && x !in a + b
  {
    var s := a + [x] + b;
    assert s[|a|] == x;
    WithoutAt(s, |a|);
    DistinctDropAt(s, |a|);
    assert DropAt(s, |a|) == a + b;
  }

  /** What is left when task i goes, and what it was linked to. */
  lemma LeftOver<T>(s: seq<T>, i: nat)
    requires Distinct(s) && i < |s|
    ensures Without(s, s[i]) == DropAt(s, i) && Distinct(DropAt(s, i)) && s[i] !in DropAt(s, i) && s[i] in s
    ensures Follower(s, s[i]) == First(s[i + 1..])
  {
    WithoutAt(s, i);
    DistinctDropAt(s, i);
    FollowerOf(s, i);
  }

  lemma {:induction false} FollowerOf<T>(s: seq<T>, i: nat)
    requires Distinct(s) && i < |s|
    ensures Follower(s, s[i]) == First(s[i + 1..])
  {
    if i == 0 {
    } else {
      FollowerOf(s[1..], i - 1);
      assert s[1..][i..] == s[i + 1..];
    }
  }

  lemma SplitAt<T>(s: seq<T>, x: T) returns (a: seq<T>, b: seq<T>)
    requires x in s
    ensures s == a + [x] + b
  {
    var i :| 0 <= i < |s| && s[i] == x;
    a, b := s[..i], s[i + 1..];
  }

  /** What has left is linked to tasks that are in the chain or have left it. */
  ghost predicate Closed<T>(c: Chain<T>) {
    forall x :: x in c.left && c.left[x].Some? ==> Met(c, c.left[x].value)
  }

  predicate Met<T(==)>(c: Chain<T>, x: T) {
    x in c.tasks || x in c.left
  }

  lemma ApplyClosed<T>(c: Chain<T>, op: Op<T>)
    requires Sound(c) && Closed(c)
    ensures Closed(Apply(c, op)) && forall x :: Met(c, x) ==> Met(Apply(c, op), x)
  {
    var x := op.task;
    if x in c.tasks {
      var a, b := SplitAt(c.tasks, x);
      WithoutBetween(a, x, b);
      FollowerAt(a, x, b);
      assert b != [] ==> b[0] in a + b;
    } else {
      WithoutStranger(c.tasks, x);
    }
  }

  lemma NextIsMet<T>(c: Chain<T>, x: T)
    requires Sound(c) && Closed(c) && Next(c, x).Some?
    ensures Met(c, Next(c, x).value)
  {
    if x in c.tasks {
      var a, b := SplitAt(c.tasks, x);
      FollowerAt(a, x, b);
      assert b != [] ==> b[0] in a + [x] + b;
    }
  }

  lemma ApplySound<T>(c: Chain<T>, op: Op<T>)
    requires Sound(c)
    ensures Sound(Apply(c, op))
  {
    var x := op.task;
    if x in c.tasks {
      var a, b := SplitAt(c.tasks, x);
      WithoutBetween(a, x, b);
    } else {
      WithoutStranger(c.tasks, x);
    }
  }

  /** A task is added by removing it and putting it at the end. */
  lemma AddIsBoth<T>(c: Chain<T>, x: T)
    ensures
      var gone := Apply(c, Remove(x));
      x !in gone.tasks && Apply(c, Add(x)) == Chain(gone.tasks + [x], gone.left - {x})
  {
    if x in c.tasks {
      assert c.left[x := Follower(c.tasks, x)] - {x} == c.left - {x};
    } else {
      WithoutStranger(c.tasks, x);
    }
  }

  // Walks

  /** The chain, the task to be tested next, and the tasks tested so far. */
  datatype Walk<T> = Walk(chain: Chain<T>, at: Option<T>, tested: seq<T>)

  function Start<T>(c: Chain<T>): Walk<T> {
    Walk(c, First(c.tasks), [])
  }

  /** The task is tested, and its callback, if it is called, does ops. */
  function Visit<T(==)>(w: Walk<T>, ops: seq<Op<T>>): Walk<T> {
    if w.at == None then w
    else
      var c := ApplyAll(w.chain, ops);
      Walk(c, Next(c, w.at.value), w.tested + [w.at.value])
  }

  function WalkAll<T(==)>(w: Walk<T>, script: seq<seq<Op<T>>>): Walk<T> {
    if script == [] then w else Visit(WalkAll(w, script[..|script| - 1]), script[|script| - 1])
  }

  lemma OneVisit<T>(start: Walk<T>, script: seq<seq<Op<T>>>, c: Chain<T>, x: T, tested: seq<T>, ops: seq<Op<T>>)
    requires WalkAll(start, script) == Walk(c, Some(x), tested)
    ensures
      var c' := ApplyAll(c, ops);
      WalkAll(start, script + [ops]) == Walk(c', Next(c', x), tested + [x])
  {
    assert (script + [ops])[..|script|] == script;
  }

  lemma {:induction false} StillMet<T>(c: Chain<T>, ops: seq<Op<T>>, x: T)
    requires Sound(c) && Closed(c) && Met(c, x)
    ensures Sound(ApplyAll(c, ops)) && Closed(ApplyAll(c, ops)) && Met(ApplyAll(c, ops), x)
  {
    if ops == [] {
    } else {
      var n := |ops| - 1;
      StillMet(c, ops[..n], x);
      ApplySound(ApplyAll(c, ops[..n]), ops[n]);
      ApplyClosed(ApplyAll(c, ops[..n]), ops[n]);
    }
  }

  /** A walk that goes on at at has the rest of the chain before it. */
  predicate Onward<T(==)>(c: Chain<T>, at: Option<T>, behind: seq<T>, ahead: seq<T>) {
    at == First(ahead) && c.tasks == behind + ahead
  }

  function Quiet<T>(n: nat): seq<seq<Op<T>>> {
    seq(n, i => [])
  }

  lemma QuietVisit<T>(w: Walk<T>, a: seq<T>, x: T, b: seq<T>)
    requires Distinct(w.chain.tasks) && w.chain.tasks == a + [x] + b && w.at == Some(x)
    ensures Visit(w, []) == Walk(w.chain, First(b), w.tested + [x])
  {
    FollowerAt(a, x, b);
  }

  /** If nothing more is done, the walk tests just the rest. */
  lemma {:induction false} OnwardIsTested<T>(w: Walk<T>, behind: seq<T>, ahead: seq<T>, n: nat)
    requires Distinct(w.chain.tasks) && Onward(w.chain, w.at, behind, ahead) && n <= |ahead|
    ensures WalkAll(w, Quiet(n)) == Walk(w.chain, First(ahead[n..]), w.tested + ahead[..n])
  {
    if n == 0 {
      assert ahead[..0] == [] && w.tested + [] == w.tested;
    } else {
      OnwardIsTested(w, behind, ahead, n - 1);
      assert Quiet<T>(n)[..n - 1] == Quiet<T>(n - 1);
      QuietStep(w, behind, ahead, n - 1);
    }
  }

  lemma QuietStep<T>(w: Walk<T>, behind: seq<T>, ahead: seq<T>, n: nat)
    requires Distinct(w.chain.tasks) && w.chain.tasks == behind + ahead && n < |ahead|
    ensures Visit(Walk(w.chain, First(ahead[n..]), w.tested + ahead[..n]), [])
         == Walk(w.chain, First(ahead[n + 1..]), w.tested + ahead[..n + 1])
  {
    var v := Walk(w.chain, First(ahead[n..]), w.tested + ahead[..n]);
    assert behind + ahead == behind + ahead[..n] + [ahead[n]] + ahead[n + 1..];
    QuietVisit(v, behind + ahead[..n], ahead[n], ahead[n + 1..]);
    assert w.tested + ahead[..n] + [ahead[n]] == w.tested + ahead[..n + 1];
  }

  // One callback

  lemma Follows<T>(c: Chain<T>, a: seq<T>, x: T, b: seq<T>)
    requires Distinct(c.tasks) && c.tasks == a + [x] + b
    ensures Next(c, x) == First(b)
  {
    FollowerAt(a, x, b);
    assert (a + [x] + b)[|a|] == x;
  }

  /** What is left to test behind x when its callback has added or removed one task. */
  function Ahead<T(==)>(x: T, rest: seq<T>, op: Op<T>): seq<T> {
    match op
    case Remove(y) => Without(rest, y)
    case Add(y) => if y == x then [] else Without(rest, y) + [y]
  }

  /** A task that is added comes last; one that adds itself ends the walk. */
  lemma OneOperation<T>(c: Chain<T>, kept: seq<T>, x: T, rest: seq<T>, op: Op<T>) returns (behind: seq<T>)
    requires Sound(c) && c.tasks == kept + [x] + rest
    ensures
      var c' := Apply(c, op);
      Sound(c') && Onward(c', Next(c', x), behind, Ahead(x, rest, op))
  {
    var y := op.task;
    var a, b := Without(kept, y), Without(rest, y);
    ApplySound(c, op);
    if y == x {
      WithoutBetween(kept, x, rest);
      behind := if op.Add? then kept + rest + [x] else kept;
      if op.Add? {
        Follows(Apply(c, op), kept + rest, x, []);
      } else {
        FollowerAt(kept, x, rest);
        WithoutStranger(rest, x);
      }
    } else {
      WithoutAppend(kept + [x], rest, y);
      WithoutAppend(kept, [x], y);
      WithoutStranger([x], y);
      behind := a + [x];
      if op.Add? {
        Follows(Apply(c, op), a, x, b + [y]);
      } else {
        if y !in c.tasks {
          WithoutStranger(c.tasks, y);
        }
        Follows(Apply(c, op), a, x, b);
      }
    }
  }

  lemma FrontKept<T>(s: seq<T>, y: T)
    requires s != [] && s[0] != y
    ensures First(Without(s, y)) == Some(s[0])
  {
    assert s == [s[0]] + s[1..];
    WithoutAppend([s[0]], s[1..], y);
    WithoutStranger([s[0]], y);
  }

  /**
   The callback of x takes x out and then adds y: the walk goes on where x was linked to when it left.  A task added
   behind the last one is not before the walk any more, and adding the follower of x ends the walk behind that.
   */
  lemma LeavesAndAdds<T>(c: Chain<T>, kept: seq<T>, x: T, rest: seq<T>, y: T) returns (behind: seq<T>)
    requires Sound(c) && c.tasks == kept + [x] + rest
    ensures
      var ahead :=
        if y == x || rest == [] then []
        else if y == rest[0] then [y]
        else Without(rest, y) + [y];
      var c' := Apply(Apply(c, Remove(x)), Add(y));
      Sound(c') && Onward(c', Next(c', x), behind, ahead)
  {
    var gone := Apply(c, Remove(x));
    Leaves(c, kept, x, rest);
    if y == x {
      ApplySound(gone, Add(y));
      WithoutStranger(kept + rest, x);
      Follows(Apply(gone, Add(x)), kept + rest, x, []);
      behind := kept + rest + [x];
    } else {
      behind := AddsBehind(gone, kept, x, rest, y);
    }
  }

  lemma Leaves<T>(c: Chain<T>, kept: seq<T>, x: T, rest: seq<T>)
    requires Sound(c) && c.tasks == kept + [x] + rest
    ensures
      var gone := Apply(c, Remove(x));
      Sound(gone) && gone.tasks == kept + rest && x !in gone.tasks && x in gone.left && gone.left[x] == First(rest)
  {
    ApplySound(c, Remove(x));
    assert (kept + [x] + rest)[|kept|] == x;
    WithoutBetween(kept, x, rest);
    FollowerAt(kept, x, rest);
  }

  lemma AddsBehind<T>(gone: Chain<T>, kept: seq<T>, x: T, rest: seq<T>, y: T) returns (behind: seq<T>)
    requires Sound(gone) && gone.tasks == kept + rest && x !in gone.tasks && x in gone.left
    requires gone.left[x] == First(rest)
    requires y != x
    ensures
      var ahead := if rest == [] then [] else if y == rest[0] then [y] else Without(rest, y) + [y];
      var c' := Apply(gone, Add(y));
      Sound(c') && Onward(c', Next(c', x), behind, ahead)
  {
    ApplySound(gone, Add(y));
    WithoutAppend(kept, rest, y);
    if rest == [] {
      behind := Apply(gone, Add(y)).tasks;
    } else if y == rest[0] {
      behind := Without(kept + rest, y);
    } else {
      FrontKept(rest, y);
      behind := Without(kept, y);
    }
  }

  // Callbacks that add new tasks and remove only their own

  function Added<T>(ops: seq<Op<T>>): seq<T> {
    if ops == [] then []
    else
      var n := |ops| - 1;
      Added(ops[..n]) + if ops[n].Add? then [ops[n].task] else []
  }

  function AllAdded<T>(script: seq<seq<Op<T>>>): seq<T> {
    if script == [] then [] else AllAdded(script[..|script| - 1]) + Added(script[|script| - 1])
  }

  /** Task x takes nothing out but itself. */
  predicate RemovesOnly<T(==)>(ops: seq<Op<T>>, x: T) {
    forall i :: 0 <= i < |ops| && ops[i].Remove? ==> ops[i].task == x
  }

  /** During the callback of x: more has been added, and the link of x, if it has left, is to what followed it then. */
  predicate Stands<T(==)>(c: Chain<T>, x: T, kept: seq<T>, after: seq<T>, more: seq<T>) {
    || (c.tasks == kept + [x] + (after + more))
    || (x !in c.tasks && c.tasks == kept + (after + more)
        && (Next(c, x) == First(after + more) || (after == [] && Next(c, x) == None)))
  }

  lemma StandsStep<T>(c: Chain<T>, x: T, kept: seq<T>, after: seq<T>, more: seq<T>, op: Op<T>)
    requires Sound(c) && Stands(c, x, kept, after, more)
    requires if op.Remove? then op.task == x else op.task != x && op.task !in kept + after + more
    ensures Sound(Apply(c, op)) && Stands(Apply(c, op), x, kept, after, more + if op.Add? then [op.task] else [])
  {
    ApplySound(c, op);
    if op.Remove? {
      assert more + [] == more;
      StandsRemoved(c, x, kept, after, more);
    } else {
      StandsAdded(c, x, kept, after, more, op.task);
    }
  }

  lemma StandsRemoved<T>(c: Chain<T>, x: T, kept: seq<T>, after: seq<T>, more: seq<T>)
    requires Sound(c) && Stands(c, x, kept, after, more)
    ensures Stands(Apply(c, Remove(x)), x, kept, after, more)
  {
    if c.tasks == kept + [x] + (after + more) {
      Leaves(c, kept, x, after + more);
    }
  }

  lemma StandsAdded<T>(c: Chain<T>, x: T, kept: seq<T>, after: seq<T>, more: seq<T>, y: T)
    requires Sound(c) && Stands(c, x, kept, after, more) && y != x && y !in kept + after + more
    ensures Stands(Apply(c, Add(y)), x, kept, after, more + [y])
  {
    var rest := after + more;
    assert after + (more + [y]) == rest + [y];
    assert kept + [x] + (rest + [y]) == kept + [x] + rest + [y] && kept + (rest + [y]) == kept + rest + [y];
    WithoutStranger(c.tasks, y);
  }

  lemma {:induction false} StandsAll<T>(c: Chain<T>, x: T, kept: seq<T>, after: seq<T>, ops: seq<Op<T>>)
    requires Sound(c) && c.tasks == kept + [x] + after
    requires RemovesOnly(ops, x) && Distinct(kept + [x] + after + Added(ops))
    ensures Sound(ApplyAll(c, ops)) && Stands(ApplyAll(c, ops), x, kept, after, Added(ops))
  {
    if ops == [] {
      assert after + [] == after;
    } else {
      var n := |ops| - 1;
      var before, all := ops[..n], kept + [x] + after + Added(ops);
      assert kept + [x] + after + Added(before) == all[..|kept + [x] + after + Added(before)|];
      StandsAll(c, x, kept, after, before);
      if ops[n].Add? {
        assert all[|all| - 1] == ops[n].task && all == kept + [x] + after + Added(before) + [ops[n].task];
        LastIsNew(kept + [x] + after + Added(before), ops[n].task);
      }
      StandsStep(ApplyAll(c, before), x, kept, after, Added(before), ops[n]);
    }
  }

  lemma LastIsNew<T>(s: seq<T>, y: T)
    requires Distinct(s + [y])
    ensures y !in s
  {
    forall i | 0 <= i < |s|
      ensures s[i] != y
    {
      assert (s + [y])[i] == s[i] && (s + [y])[|s|] == y;
    }
  }

  /** Some of the elements of b, in their order. */
  predicate IsAmong<T(==)>(a: seq<T>, b: seq<T>) {
    if b == [] then a == []
    else
      var n := |b| - 1;
      IsAmong(a, b[..n]) || (a != [] && a[|a| - 1] == b[n] && IsAmong(a[..|a| - 1], b[..n]))
  }

  lemma {:induction false} AmongMore<T>(a: seq<T>, b: seq<T>, x: T)
    requires IsAmong(a, b)
    ensures IsAmong(a, b + [x]) && IsAmong(a + [x], b + [x])
  {
    assert (b + [x])[..|b|] == b && (a + [x])[..|a|] == a;
  }

  lemma {:induction false} AmongInside<T>(a: seq<T>, b: seq<T>, x: T)
    requires IsAmong(a, b) && x in a
    ensures x in b
  {
    if b == [] {
    } else {
      var n := |b| - 1;
      if IsAmong(a, b[..n]) {
        AmongInside(a, b[..n], x);
      } else if x != b[n] {
        AmongInside(a[..|a| - 1], b[..n], x);
      }
    }
  }

  /**
   Of the tasks tested the chain has kept some; rest is before the walk, and late is in the chain but behind its end. 
   All together are the tasks that were in the chain before and those added.
   */
  ghost predicate Walked<T>(w: Walk<T>, before: seq<T>, added: seq<T>, kept: seq<T>, rest: seq<T>, late: seq<T>) {
    && Sound(w.chain) && w.chain.tasks == kept + rest + late && w.at == First(rest)
    && w.tested + (rest + late) == before + added && |before| <= |w.tested| + |rest|
    && (late == [] || rest == []) && IsAmong(kept, w.tested)
  }

  lemma DistinctJoin<T>(a: seq<T>, all: seq<T>, b: seq<T>)
    requires Distinct(a) && Distinct(all + b) && forall x :: x in a ==> x in all
    ensures Distinct(a + b)
  {
    forall i, j | 0 <= i < j < |a + b|
      ensures (a + b)[i] != (a + b)[j]
    {
      if i < |a| <= j {
        assert a[i] in all;
        var k :| 0 <= k < |all| && all[k] == a[i];
        assert (all + b)[k] == a[i] && (all + b)[|all| + j - |a|] == b[j - |a|];
      } else if |a| <= i {
        assert (all + b)[|all| + i - |a|] == b[i - |a|] && (all + b)[|all| + j - |a|] == b[j - |a|];
      }
    }
  }

  lemma VisitOrderly<T>(w: Walk<T>, ops: seq<Op<T>>, before: seq<T>, added: seq<T>, kept: seq<T>, rest: seq<T>)
    returns (kept': seq<T>, rest': seq<T>, late': seq<T>)
    requires Walked(w, before, added, kept, rest, []) && rest != []
    requires RemovesOnly(ops, rest[0]) && Distinct(before + (added + Added(ops)))
    ensures Walked(Visit(w, ops), before, added + Added(ops), kept', rest', late')
  {
    var x, after, more := rest[0], rest[1..], Added(ops);
    var c := ApplyAll(w.chain, ops);
    assert kept + rest + [] == kept + [x] + after && before + (added + more) == before + added + more;
    forall y | y in kept + [x] + after
      ensures y in before + added
    {
      if y in kept {
        AmongInside(kept, w.tested, y);
      }
      assert y in w.tested + (rest + []);
    }
    DistinctJoin(kept + [x] + after, before + added, more);
    StandsAll(w.chain, x, kept, after, ops);
    AmongMore(kept, w.tested, x);
    Onwards(w.tested, rest, before + added, more);
    kept', rest', late' := kept, after + more, [];
    if c.tasks == kept + [x] + (after + more) {
      Follows(c, kept, x, after + more);
      kept' := kept + [x];
    } else if Next(c, x) != First(after + more) {
      rest', late' := [], more;
    }
    Ends(kept', after + more, more);
  }

  lemma Onwards<T>(tested: seq<T>, rest: seq<T>, all: seq<T>, more: seq<T>)
    requires tested + (rest + []) == all && rest != []
    ensures tested + [rest[0]] + (rest[1..] + more) == all + more
  {
    assert rest + [] == rest == [rest[0]] + rest[1..];
  }

  lemma Ends<T>(kept: seq<T>, rest: seq<T>, more: seq<T>)
    ensures kept + rest + [] == kept + rest && kept + [] + more == kept + more && rest + [] == rest && [] + more == more
  {
  }

  /** Each callback adds tasks that are new, and removes no task but its own. */
  ghost predicate Orderly<T>(c: Chain<T>, script: seq<seq<Op<T>>>) {
    && Sound(c) && Distinct(c.tasks + AllAdded(script))
    && forall i :: 0 <= i < |script| ==> OrderlyAt(c, script, i)
  }

  ghost predicate OrderlyAt<T>(c: Chain<T>, script: seq<seq<Op<T>>>, i: nat)
    requires i < |script|
  {
    var at := WalkAll(Start(c), script[..i]).at;
    at.Some? && RemovesOnly(script[i], at.value)
  }

  lemma OrderlyBefore<T>(c: Chain<T>, script: seq<seq<Op<T>>>)
    requires Orderly(c, script) && script != []
    ensures Orderly(c, script[..|script| - 1])
  {
    var first := script[..|script| - 1];
    var all := c.tasks + AllAdded(script);
    assert c.tasks + AllAdded(first) == all[..|c.tasks + AllAdded(first)|];
    forall i | 0 <= i < |first|
      ensures OrderlyAt(c, first, i)
    {
      assert OrderlyAt(c, script, i) && first[..i] == script[..i];
    }
  }

  /**
   Each task of the chain is tested once and in order, although tasks leave and are added on the way; then the tasks
   added, in the order of adding.  Only those that the last task adds when it has left are late.
   */
  lemma {:induction false} OrderlyWalk<T>(c: Chain<T>, script: seq<seq<Op<T>>>)
    returns (kept: seq<T>, rest: seq<T>, late: seq<T>)
    requires Orderly(c, script)
    ensures Walked(WalkAll(Start(c), script), c.tasks, AllAdded(script), kept, rest, late)
  {
    if script == [] {
      kept, rest, late := [], c.tasks, [];
      assert c.tasks + [] == c.tasks && [] + c.tasks == c.tasks;
    } else {
      var n := |script| - 1;
      OrderlyBefore(c, script);
      kept, rest, late := OrderlyWalk(c, script[..n]);
      assert OrderlyAt(c, script, n);
      kept, rest, late := VisitOrderly(WalkAll(Start(c), script[..n]), script[n], c.tasks, AllAdded(script[..n]),
        kept, rest);
    }
  }

  /** A walk that has come to its end. */
  lemma OrderlyEnd<T>(c: Chain<T>, script: seq<seq<Op<T>>>) returns (kept: seq<T>, late: seq<T>)
    requires Orderly(c, script) && WalkAll(Start(c), script).at == None
    ensures
      var w := WalkAll(Start(c), script);
      && w.tested + late == c.tasks + AllAdded(script) && c.tasks <= w.tested
      && w.chain.tasks == kept + late && IsAmong(kept, w.tested)
  {
    var rest;
    kept, rest, late := OrderlyWalk(c, script);
    var w := WalkAll(Start(c), script);
    assert rest == [] && [] + late == late && kept + [] == kept;
    var n := |c.tasks|;
    assert c.tasks == (c.tasks + AllAdded(script))[..n] && (w.tested + late)[..n] == w.tested[..n];
  }
}
