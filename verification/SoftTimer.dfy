/** The scheduler of SoftTimer.cpp: tasks in an intrusive linked list, tested one after the other. */
module SoftTimer {
  import opened Clocks
  import opened Options
  import opened Sequences
  import opened TaskChains
  import opened TaskTimes

  class Task {
    var periodMicros: Time
    var lastCallTimeMicros: Time
    var nowMicros: Time
    var nextTask: Task?

    constructor (periodMicros: Time)
      ensures this.periodMicros == periodMicros && nextTask == null
    {
      this.periodMicros, lastCallTimeMicros, nowMicros, nextTask := periodMicros, 0, 0, null;
    }
  }

  /** The test of testAndCall; end is where the period ends, computed with overflow. */
  predicate IsDue(now: Time, last: Time, period: Time) {
    var end := (last + period) % CLOCK_RANGE;
    (now >= end && (end >= last || last > now)) || (now < last && last <= end)
  }

  /** Whatever overflows, a task is due exactly when its period has passed since its last call. */
  lemma DueExactly(now: Time, last: Time, period: Time)
    ensures IsDue(now, last, period) <==> Elapsed(now, last) >= period
  {
    assert Elapsed(now, last) == if now >= last then now - last else now - last + CLOCK_RANGE;
  }

  /** Element i of the chain, or the end. */
  function At(s: seq<Task>, i: nat): Task? {
    if i < |s| then s[i] else null
  }

  function Ref(x: Option<Task>): Task? {
    if x.Some? then x.value else null
  }

  /** The tasks of s, each linked to the next. */
  ghost predicate Linked(s: seq<Task>, known: set<Task>)
    reads known
  {
    && Distinct(s)
    && forall i :: 0 <= i < |s| ==> s[i] in known && s[i].nextTask == At(s, i + 1)
  }

  /** Tasks outside the chain keep the link with which they left it. */
  ghost predicate Kept(s: seq<Task>, left: map<Task, Option<Task>>, known: set<Task>)
    reads known
  {
    forall t :: t in left ==> t in known && t !in s && t.nextTask == Ref(left[t])
  }

  class SoftTimerClass {
    var tasks: Task?
    /** The registered tasks in the order in which they are tested. */
    ghost var chain: seq<Task>
    /** What the tasks that have been removed were linked to. */
    ghost var left: map<Task, Option<Task>>
    /** The tasks that are or may come to be registered. */
    ghost var known: set<Task>

    constructor (ghost known: set<Task>)
      ensures Valid() && View() == Chain([], map[]) && this.known == known
    {
      tasks, chain, left, this.known := null, [], map[], known;
    }

    ghost predicate Valid()
      reads this, known
    {
      tasks == At(chain, 0) && Linked(chain, known) && Kept(chain, left, known) && Closed(View())
    }

    ghost function View(): (c: Chain<Task>)
      reads this
    {
      Chain(chain, left)
    }

    lemma ValidIsSound()
      requires Valid()
      ensures Sound(View())
    {
    }

    /** remove.  The removed task keeps its link to its successor. */
    method Remove(task: Task)
      requires Valid()
      modifies this`tasks, this`chain, this`left, known`nextTask
      ensures Valid() && View() == Apply(old(View()), TaskChains.Remove(task))
    {
      ValidIsSound();
      ApplyClosed(View(), TaskChains.Remove(task));
      if tasks != null {
        if tasks == task {
          TakeFirst();
        } else {
          var lastTask := tasks;
          ghost var i := 0;
          while lastTask.nextTask != null
            invariant Valid() && View() == old(View()) && 0 <= i < |chain| && lastTask == chain[i]
            invariant task !in chain[..i + 1]
            decreases |chain| - i
          {
            if lastTask.nextTask == task {
              UnlinkAfter(lastTask, i);
              return;
            }
            lastTask := lastTask.nextTask;
            i := i + 1;
          }
        }
      }
    }

    /** The first task leaves. */
    method TakeFirst()
      requires Valid() && tasks != null
      modifies this`tasks, this`chain, this`left
      ensures Valid() && View() == Apply(old(View()), TaskChains.Remove(old(chain)[0]))
    {
      tasks := tasks.nextTask;
      Relink(0);
      LeaveOut(0);
    }

    /** The chain is joined around the task behind lastTask. */
    method UnlinkAfter(lastTask: Task, ghost i: nat)
      requires Valid() && i + 1 < |chain| && lastTask == chain[i]
      modifies this`tasks, this`chain, this`left, lastTask`nextTask
      ensures Valid() && View() == Apply(old(View()), TaskChains.Remove(old(chain)[i + 1]))
    {
      lastTask.nextTask := lastTask.nextTask.nextTask;
      Relink(i + 1);
      LeaveOut(i + 1);
    }

    /** The links lead around task i. */
    lemma Relink(i: nat)
      requires i < |chain| && Distinct(chain)
      requires forall j :: 0 <= j < |chain| ==>
        chain[j] in known && chain[j].nextTask == if j + 1 == i then At(chain, i + 1) else At(chain, j + 1)
      ensures Linked(DropAt(chain, i), known)
    {
      var s := DropAt(chain, i);
      DistinctDropAt(chain, i);
      forall j | 0 <= j < |s|
        ensures s[j] in known && s[j].nextTask == At(s, j + 1)
      {
        Dropped(chain, i, j);
      }
    }

    /** The record of the chain follows: task i has left. */
    ghost method LeaveOut(i: nat)
      requires i < |chain| && Distinct(chain) && Closed(View()) && Kept(chain, left, known)
      requires Linked(DropAt(chain, i), known) && chain[i] in known && chain[i].nextTask == At(chain, i + 1)
      requires tasks == At(DropAt(chain, i), 0)
      modifies this`chain, this`left
      ensures Valid() && View() == Apply(old(View()), TaskChains.Remove(old(chain)[i]))
    {
      var x := chain[i];
      var c := Apply(View(), TaskChains.Remove(x));
      ApplyClosed(View(), TaskChains.Remove(x));
      LeftOver(chain, i);
      KeptBeside(chain, left, known, c.tasks, x, First(chain[i + 1..]));
      chain, left := c.tasks, c.left;
    }

    /** add: a task is registered once, at the end, and is due at once. */
    method Add(task: Task, micros: Time)
      requires Valid()
      modifies this, known`nextTask, task`nextTask, task`lastCallTimeMicros
      ensures Valid() && View() == Apply(old(View()), TaskChains.Add(task)) && known == old(known) + {task}
      ensures Elapsed(micros, task.lastCallTimeMicros) == task.periodMicros
      ensures IsDue(micros, task.lastCallTimeMicros, task.periodMicros)
    {
      ghost var c := View();
      ValidIsSound();
      ApplyClosed(c, TaskChains.Add(task));
      AddIsBoth(c, task);
      Remove(task);
      Append(task);
      task.lastCallTimeMicros := (micros - task.periodMicros) % CLOCK_RANGE;
      DueAtOnce(micros, task.periodMicros);
    }

    /** The new end of the chain. */
    method Append(task: Task)
      requires Valid() && task !in chain && Closed(Chain(chain + [task], left - {task}))
      modifies this`tasks, this`chain, this`left, this`known, known`nextTask, task`nextTask
      ensures Valid() && View() == Chain(old(chain) + [task], old(left) - {task}) && known == old(known) + {task}
    {
      PutLast(task);
      TakeIn(task);
    }

    /** The record of the chain follows: task is its end. */
    ghost method TakeIn(task: Task)
      requires Distinct(chain) && task !in chain && task.nextTask == null && tasks == At(chain + [task], 0)
      requires LinkedUpTo(task)
      requires Kept(chain + [task], left - {task}, known + {task}) && Closed(Chain(chain + [task], left - {task}))
      modifies this`chain, this`left, this`known
      ensures Valid() && View() == Chain(old(chain) + [task], old(left) - {task}) && known == old(known) + {task}
    {
      Longer(task);
      chain, left, known := chain + [task], left - {task}, known + {task};
    }

    method PutLast(task: Task)
      requires Valid() && task !in chain
      modifies this`tasks, known`nextTask, task`nextTask
      ensures task.nextTask == null && tasks == At(chain + [task], 0) && Distinct(chain)
      ensures LinkedUpTo(task)
      ensures Kept(chain + [task], left - {task}, known + {task})
    {
      if tasks == null {
        tasks := task;
      } else {
        var lastTask := FindLast();
        lastTask.nextTask := task;
      }
      task.nextTask := null;
    }

    /** The chain, whose last task is linked to task. */
    ghost predicate LinkedUpTo(task: Task)
      reads this, known
    {
      forall j :: 0 <= j < |chain| ==> chain[j] in known && chain[j].nextTask == LinkBefore(task, j)
    }

    /** The task behind task j of the chain, if task is put at its end. */
    ghost function LinkBefore(task: Task, j: nat): Task
      requires j < |chain|
      reads this
    {
      if j + 1 < |chain| then chain[j + 1] else task
    }

    /** The links lead on to task. */
    lemma Longer(task: Task)
      requires Distinct(chain) && task !in chain && task.nextTask == null
      requires LinkedUpTo(task)
      ensures Linked(chain + [task], known + {task})
    {
      var s := chain + [task];
      forall j | 0 <= j < |s|
        ensures s[j] in known + {task} && s[j].nextTask == At(s, j + 1)
      {
        if j < |chain| {
          assert chain[j].nextTask == LinkBefore(task, j);
        }
      }
    }

    method FindLast() returns (lastTask: Task)
      requires Valid() && tasks != null
      ensures chain != [] && lastTask == chain[|chain| - 1]
    {
      lastTask := tasks;
      ghost var i := 0;
      while lastTask.nextTask != null
        invariant 0 <= i < |chain| && lastTask == chain[i]
        decreases |chain| - i
      {
        lastTask := lastTask.nextTask;
        i := i + 1;
      }
    }

    // The times

    ghost function Lasts(): (m: map<Task, Time>)
      reads this`known, known`lastCallTimeMicros
      ensures m.Keys == known
    {
      map t | t in known :: t.lastCallTimeMicros
    }

    ghost function Periods(): (m: map<Task, Time>)
      reads this`known, known`periodMicros
      ensures m.Keys == known
    {
      map t | t in known :: t.periodMicros
    }

    method Perform(op: Op<Task>, micros: Time)
      requires Valid() && op.task in known
      modifies this, known`nextTask, known`lastCallTimeMicros
      ensures Valid() && known == old(known) && View() == Apply(old(View()), op)
      ensures Lasts() == AfterOp(old(Lasts()), old(Periods()), op, micros)
    {
      match op
      case Add(task) => PerformAdd(task, micros);
      case Remove(task) => PerformRemove(task);
    }

    method PerformAdd(task: Task, micros: Time)
      requires Valid() && task in known
      modifies this, known`nextTask, known`lastCallTimeMicros
      ensures Valid() && known == old(known) && View() == Apply(old(View()), TaskChains.Add(task))
      ensures Lasts() == old(Lasts())[task := Elapsed(micros, task.periodMicros)]
    {
      ghost var last := Lasts();
      Add(task, micros);
      ElapsedTwice(micros, task.lastCallTimeMicros);
      assert Lasts() == last[task := task.lastCallTimeMicros];
    }

    method PerformRemove(task: Task)
      requires Valid() && task in known
      modifies this, known`nextTask
      ensures Valid() && known == old(known) && View() == Apply(old(View()), TaskChains.Remove(task))
      ensures Lasts() == old(Lasts())
    {
      Remove(task);
    }

    /** A callback: any tasks are added and removed, its own task as well as others, registered or not. */
    method Callback(ops: seq<Op<Task>>, clock: seq<Time>)
      requires Valid() && |ops| <= |clock| && forall i :: 0 <= i < |ops| ==> ops[i].task in known
      modifies this, known`nextTask, known`lastCallTimeMicros
      ensures Valid() && known == old(known) && View() == ApplyAll(old(View()), ops)
      ensures Lasts() == AfterOps(old(Lasts()), old(Periods()), ops, clock)
    {
      var i := 0;
      while i < |ops|
        invariant 0 <= i <= |ops| && Valid() && known == old(known) && View() == ApplyAll(old(View()), ops[..i])
        invariant Lasts() == AfterOps(old(Lasts()), old(Periods()), ops[..i], clock)
      {
        assert ops[..i + 1][..i] == ops[..i];
        Perform(ops[i], clock[i]);
        i := i + 1;
      }
      assert ops[..i] == ops;
    }

    /** testAndCall. */
    method TestAndCall(task: Task, turn: Turn<Task>) returns (called: bool)
      requires Valid() && task in known && |turn.ops| <= |turn.clock|
      requires forall i :: 0 <= i < |turn.ops| ==> turn.ops[i].task in known
      modifies this, known`nextTask, known`lastCallTimeMicros, task`nowMicros
      ensures Valid() && known == old(known) && View() == ApplyAll(old(View()), if called then turn.ops else [])
      ensures called <==> Elapsed(turn.now, old(task.lastCallTimeMicros)) >= old(task.periodMicros)
      ensures called ==> task.lastCallTimeMicros == turn.now && task.nowMicros == turn.now
      ensures !called ==> task.lastCallTimeMicros == old(task.lastCallTimeMicros)
      ensures Lasts() == AfterTurn(old(Lasts()), old(Periods()), task, turn)
    {
      DueExactly(turn.now, task.lastCallTimeMicros, task.periodMicros);
      called := IsDue(turn.now, task.lastCallTimeMicros, task.periodMicros);
      if called {
        Call(task, turn);
      }
    }

    /** The part of testAndCall behind the test. */
    method Call(task: Task, turn: Turn<Task>)
      requires Valid() && task in known && |turn.ops| <= |turn.clock|
      requires forall i :: 0 <= i < |turn.ops| ==> turn.ops[i].task in known
      modifies this, known`nextTask, known`lastCallTimeMicros, task`nowMicros
      ensures Valid() && known == old(known) && View() == ApplyAll(old(View()), turn.ops)
      ensures task.lastCallTimeMicros == turn.now && task.nowMicros == turn.now
      ensures Lasts() == AfterOps(old(Lasts()), old(Periods()), turn.ops, turn.clock)[task := turn.now]
    {
      SetNow(task, turn.now);
      Callback(turn.ops, turn.clock);
      SetLast(task, turn.now);
    }

    method SetNow(task: Task, now: Time)
      requires Valid() && task in known
      modifies task`nowMicros
      ensures Valid() && Lasts() == old(Lasts()) && Periods() == old(Periods()) && task.nowMicros == now
    {
      task.nowMicros := now;
    }

    method SetLast(task: Task, now: Time)
      requires Valid() && task in known
      modifies task`lastCallTimeMicros
      ensures Valid() && Lasts() == old(Lasts())[task := now] && task.lastCallTimeMicros == now
    {
      task.lastCallTimeMicros := now;
    }

    /**
     One walk of run.  The script says for each turn at what time the task is tested, and what its callback does if it
     is called; it is called exactly if the period of the task has passed since its last call.  The walk is the one of
     TaskChains, and the last call times are those of TaskTimes, as far as the script goes.
     */
    method Walk(script: seq<Turn<Task>>) returns (tested: seq<Task>, ghost done: seq<seq<Op<Task>>>)
      requires Valid() && InScript(script, known) && Timed(script)
      modifies this, known`nextTask, known`lastCallTimeMicros, known`nowMicros
      ensures Valid() && |done| == |tested| <= |script| && known == old(known)
      ensures CalledWhenDue(old(Lasts()), old(Periods()), tested, script, done)
      ensures Lasts() == AfterTurns(old(Lasts()), old(Periods()), tested, script)
      ensures
        var w := WalkAll(Start(old(View())), done);
        w.chain == View() && w.tested == tested && (|tested| < |script| ==> w.at == None)
    {
      var task := tasks;
      tested, done := [], [];
      ghost var c, last, period := View(), Lasts(), Periods();
      StartsAt();
      while task != null && |tested| < |script|
        invariant |done| == |tested| <= |script| && Valid() && known == old(known) && StandsOn(task)
        invariant WalkAll(Start(c), done) == TaskChains.Walk.Walk(View(), Opt(task), tested)
        invariant Periods() == period && Lasts() == AfterTurns(last, period, tested, script)
        invariant CalledWhenDue(last, period, tested, script, done)
      {
        ghost var before := View();
        ghost var ops := TestOne(task, script[|tested|]);
        OneVisit(Start(c), done, before, task, tested, ops);
        OneTurn(last, period, tested, script, done, task, ops);
        tested, done := tested + [task], done + [ops];
        task := task.nextTask;
      }
    }

    /** The walk is on a task that is or has been in the chain, or over. */
    ghost predicate StandsOn(task: Task?)
      reads this
    {
      task != null ==> task in known && Met(View(), task)
    }

    lemma StartsAt()
      requires Valid()
      ensures StandsOn(tasks) && Opt(tasks) == First(chain)
    {
    }

    /** One task is tested; ops is what its callback has done. */
    method TestOne(task: Task, turn: Turn<Task>) returns (ghost ops: seq<Op<Task>>)
      requires Valid() && task in known && Met(View(), task) && |turn.ops| <= |turn.clock|
      requires forall i :: 0 <= i < |turn.ops| ==> turn.ops[i].task in known
      modifies this, known`nextTask, known`lastCallTimeMicros, known`nowMicros
      ensures Valid() && known == old(known) && View() == ApplyAll(old(View()), ops)
      ensures ops == if Due(old(Lasts()), old(Periods()), task, turn.now) then turn.ops else []
      ensures Lasts() == AfterTurn(old(Lasts()), old(Periods()), task, turn)
      ensures Opt(task.nextTask) == Next(View(), task) && StandsOn(task.nextTask)
    {
      ValidIsSound();
      ghost var c := View();
      var called := TestAndCall(task, turn);
      ops := if called then turn.ops else [];
      StillMet(c, ops, task);
      Linking(task);
    }

    /** What a task is linked to, in the chain or outside. */
    lemma Linking(task: Task)
      requires Valid() && Met(View(), task)
      ensures Opt(task.nextTask) == Next(View(), task) && StandsOn(task.nextTask)
    {
      ValidIsSound();
      if Next(View(), task).Some? {
        NextIsMet(View(), task);
      }
      if task in chain {
        var i :| 0 <= i < |chain| && chain[i] == task;
        FollowerOf(chain, i);
      }
    }
  }

  function Opt(task: Task?): Option<Task> {
    if task == null then None else Some(task)
  }

  ghost predicate InScript(script: seq<Turn<Task>>, known: set<Task>) {
    forall i, j :: 0 <= i < |script| && 0 <= j < |script[i].ops| ==> script[i].ops[j].task in known
  }

  lemma KeptBeside(s: seq<Task>, left: map<Task, Option<Task>>, known: set<Task>, s': seq<Task>, x: Task,
                   next: Option<Task>)
    requires Kept(s, left, known) && x in known && x !in s' && x.nextTask == Ref(next)
    requires forall t :: t in s' ==> t in s
    ensures Kept(s', left[x := next], known)
  {
  }

  lemma Dropped(s: seq<Task>, i: nat, j: nat)
    requires i < |s| && j < |DropAt(s, i)|
    ensures DropAt(s, i)[j] == (if j < i then s[j] else s[j + 1])
    ensures At(DropAt(s, i), j + 1) == if j + 1 < i then s[j + 1] else At(s, j + 2)
  {
  }

  lemma ElapsedTwice(now: Time, since: Time)
    ensures Elapsed(now, Elapsed(now, since)) == since
  {
  }

  lemma DueAtOnce(micros: Time, period: Time)
    ensures Elapsed(micros, (micros - period) % CLOCK_RANGE) == period
    ensures IsDue(micros, (micros - period) % CLOCK_RANGE, period)
  {
    DueExactly(micros, (micros - period) % CLOCK_RANGE, period);
  }
}
