/** The queue drains: with no further additions, every run of the workers, however it is
    scheduled, empties the queue within a bound known in advance. */
module PoolProgress {
  import opened Bytes
  import opened PoolModel
  import opened PoolSafety
  import opened PoolTasks

  /** How far a worker can get before it pops a task or is gone, while tasks are queued. */
  function Distance(w: Worker): nat {
    match w.pc
    case Gone => 0
    case ExitIn => 1
    case ExitWait => 2
    case Exit => 3
    case PollIn => 1
    case Top => 2
    case Wait => 3
    case CheckIn => 4
    case CheckWait => 5
    case Decide => 6
    case Clear => 7
    case Busy => 8
    case Got => 9
    case RegIn => 3
    case RegWait => 4
    case Start => 5
  }

  /** The bound on the number of worker steps until the queue is empty. */
  function Work(s: State): nat {
    9 * |s.queue| + Sum(s.threads, Distance)
  }

  /** Every step but an empty poll brings the worker nearer to its next poll, whether it
      has run a task, waited, or failed to be released. */
  lemma DistanceDrops(c: Config, s: State, i: nat, t: State)
    requires i < |s.threads| && WorkerStep(c, s, i) == Some(t)
    ensures t.threads == s.threads[i := t.threads[i]]
    ensures s.threads[i].pc != PollIn ==> t.queue == s.queue && Distance(t.threads[i]) < Distance(s.threads[i])
    ensures s.threads[i].pc == PollIn && s.queue != [] ==>
              t.queue == s.queue[1..] && Distance(t.threads[i]) == Distance(s.threads[i]) + 8
    ensures s.threads[i].pc == PollIn && s.queue == [] ==>
              t.queue == [] && Distance(t.threads[i]) == Distance(s.threads[i]) + 6
  {
    WorkerMoves(c, s, i, t);
    WorkerServes(c, s, i, t);
    if s.threads[i].pc == Decide {
    } else if s.threads[i].pc == CheckIn {
    }
  }

  /** While tasks are queued, every worker step costs. */
  lemma WorkDecreases(c: Config, s: State, i: nat, t: State)
    requires i < |s.threads| && WorkerStep(c, s, i) == Some(t)
    ensures s.queue != [] || s.threads[i].pc != PollIn ==> Work(t) < Work(s)
    ensures s.queue == [] ==> t.queue == [] && Work(t) <= Work(s) + 6
    ensures t.adder == s.adder && t.ready == s.ready
  {
    WorkerMoves(c, s, i, t);
    DistanceDrops(c, s, i, t);
    SumUpdate(s.threads, i, t.threads[i], Distance);
  }

  predicate OnlyWorkers(ls: seq<Label>) {
    forall l :: l in ls ==> l.W?
  }

  lemma {:induction false} WorkersDrain(c: Config, s: State, ls: seq<Label>)
    requires OnlyWorkers(ls) && Exec(c, s, ls).Some?
    ensures var t := Exec(c, s, ls).value;
            && (|ls| > Work(s) || s.queue == [] ==> t.queue == [])
            && t.adder == s.adder && t.ready == s.ready
    decreases |ls|
  {
    if ls != [] {
      var s' := Apply(c, s, ls[0]).value;
      WorkDecreases(c, s, ls[0].i, s');
      WorkersDrain(c, s', ls[1..]);
    }
  }

  /** A worker that is neither leaving nor gone lets some worker make a step. */
  lemma SomeoneMoves(c: Config, s: State)
    requires Inv(c, s) && TasksOk(s) && s.adder.Idle? && Count(s.threads, Present) >= 1
    ensures exists i :: 0 <= i < |s.threads| && WorkerStep(c, s, i).Some?
  {
    if s.mtx.By? {
      assert InSection(s.threads[s.mtx.i]);
      assert WorkerStep(c, s, s.mtx.i).Some?;
    } else {
      CountZero(s.threads, Present);
      var i :| 0 <= i < |s.threads| && Is(s.threads[i], Present);
      assert HeldOk(s, s.threads[i]);
      assert WorkerStep(c, s, i).Some?;
    }
  }

  lemma ReachableTasks(c: Config, s: State)
    requires Reachable(c, s)
    ensures TasksOk(s)
  {
    var ls :| Exec(c, INITIAL, ls) == Some(s);
    TasksRun(c, INITIAL, ls);
  }

  /** Exactly who can make a step: all but those that have gone and those that wait for the
      mutex while somebody holds it. */
  lemma GoesOnExactly(c: Config, s: State, i: nat)
    requires ConfigOk(c) && Reachable(c, s) && i < |s.threads|
    ensures WorkerStep(c, s, i).Some? <==>
              s.threads[i].pc != Gone && (s.threads[i].pc in {RegWait, Top, CheckWait, ExitWait} ==> s.mtx == Free)
  {
    ReachableTasks(c, s);
    assert HeldOk(s, s.threads[i]);
  }

  /** And when the adder can: it never waits but for a new worker to start, which in an
      impatient pool it may give up; and `addTask` begins whenever the mutex is free. */
  lemma AdderGoesOnExactly(c: Config, s: State, t: Task)
    requires ConfigOk(c) && Reachable(c, s)
    ensures s.adder.Await? ==> s.threads != []
    ensures Apply(c, s, A).Some? <==>
              s.adder != Idle && (s.adder.Await? ==> s.threads[|s.threads| - 1].st != 0)
    ensures Apply(c, s, Timeout).Some? <==>
              !c.patient && s.adder.Await? && s.threads[|s.threads| - 1].st == 0
    ensures Apply(c, s, AddLock(t)).Some? <==> s.mtx == Free
  {
    ReachableInv(c, s);
  }

  /** No stranded task. Take any reachable state with nobody in `addTask`, and any run of
      the workers from it. After more steps than the bound the queue is empty. And as long
      as no more than `min` workers were ever leaving at once, the run cannot stop before:
      while a task is queued, a worker that is not leaving exists and some worker can go on. */
  lemma NoStrandedTask(c: Config, s: State, ls: seq<Label>, t: State)
    requires ConfigOk(c) && Reachable(c, s) && s.ready && s.adder.Idle?
    requires OnlyWorkers(ls) && Exec(c, s, ls) == Some(t)
    ensures Work(s) <= 9 * (|s.queue| + |s.threads|)
    ensures |ls| > Work(s) ==> t.queue == []
    ensures t.peak <= c.min ==> Count(t.threads, Present) >= 1
                                && exists i :: 0 <= i < |t.threads| && WorkerStep(c, t, i).Some?
  {
    SumBound(s.threads, Distance, 9);
    WorkersDrain(c, s, ls);
    assert Leads(c, s, t);
    LeadsTrans(c, INITIAL, s, t);
    ReachableTasks(c, t);
    ReachableInv(c, t);
    if t.peak <= c.min {
      PoolFloor(c, t, Max(1, t.peak));
      SomeoneMoves(c, t);
    }
  }
}
