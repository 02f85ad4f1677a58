/** From which states the pool can get all its tasks done. One schedule does it wherever any
    can: the holder of the mutex goes on, then those with a task in hand, then those on
    their way out, and only then the others. */
module PoolSettles {
  import opened Bytes
  import opened PoolModel
  import opened PoolSafety
  import opened PoolTasks
  import opened PoolProgress

  /** Nothing is added and no handshake is given up. */
  predicate Quiet(ls: seq<Label>) {
    forall l :: l in ls ==> l.A? || l.W?
  }

  ghost predicate Comes(c: Config, s: State, t: State) {
    exists ls :: Quiet(ls) && Exec(c, s, ls) == Some(t)
  }

  lemma ComesSelf(c: Config, s: State)
    ensures Comes(c, s, s)
  {
    assert Quiet([]) && Exec(c, s, []) == Some(s);
  }

  lemma ComesFirst(c: Config, s: State, l: Label, t: State, u: State)
    requires (l.A? || l.W?) && Apply(c, s, l) == Some(t) && Comes(c, t, u)
    ensures Comes(c, s, u)
  {
    var ls :| Quiet(ls) && Exec(c, t, ls) == Some(u);
    var ms := [l] + ls;
    assert ms[1..] == ls;
    assert Quiet(ms) && Exec(c, s, ms) == Some(u);
  }

  lemma ComesTrans(c: Config, s: State, t: State, u: State)
    requires Comes(c, s, t) && Comes(c, t, u)
    ensures Comes(c, s, u)
  {
    var a :| Quiet(a) && Exec(c, s, a) == Some(t);
    var b :| Quiet(b) && Exec(c, t, b) == Some(u);
    ExecAppend(c, s, a, b);
    assert Quiet(a + b);
  }

  ghost predicate AllOk(c: Config, s: State) {
    ConfigOk(c) && Inv(c, s) && TasksOk(s)
  }

  lemma StepOk(c: Config, s: State, l: Label, t: State)
    requires AllOk(c, s) && Apply(c, s, l) == Some(t)
    ensures AllOk(c, t)
  {
    InvStep(c, s, l, t);
    TasksStep(c, s, l, t);
  }

  // ----- What every step of the schedule costs -----

  function Left(n: nat, m: nat): nat {
    if m < n then n - m else 0
  }

  /** How far the holder in `initTaskPool` or `addTask` is from letting go, counting what its
      steps add to the work of the others. */
  function AdderDistance(c: Config, s: State): nat {
    match s.adder
    case Idle => 0
    case Unlock => 1
    case Init => 3 + 9 * Left(c.min, s.listed)
    case Spawn(boot) => if boot then 2 + 9 * Left(c.min, s.listed) else 8
    case Await(boot) => if boot then 4 + 9 * Left(c.min, s.listed + 1) else 2
    case Scan(i) => 9 + Left(s.listed, i)
    case Push(_) => 20 + s.listed
  }

  predicate HolderAt(s: State, pc: Pc) {
    s.mtx.By? && s.mtx.i < |s.threads| && s.threads[s.mtx.i].pc == pc
  }

  function Energy(c: Config, s: State): nat {
    Work(s) + AdderDistance(c, s) + if s.queue == [] && HolderAt(s, PollIn) then 10 else 0
  }

  /** What a step of the holder adds to the work of the others, it is nearer to its end. */
  lemma AdderNears(c: Config, s: State, t: State)
    requires ConfigOk(c) && MutexOk(s) && BootOk(c, s) && AdderStep(c, s) == Some(t)
    ensures AdderDistance(c, t) + 9 * (|t.queue| - |s.queue|) + 5 * (|t.threads| - |s.threads|) < AdderDistance(c, s)
  {
    if s.adder.Push? {
      assert |t.queue| == |s.queue| + 1 && t.threads == s.threads;
    } else if s.adder.Spawn? {
      assert |t.threads| == |s.threads| + 1 && t.queue == s.queue;
    } else {
      assert t.threads == s.threads && t.queue == s.queue;
    }
  }

  lemma AdderCosts(c: Config, s: State, t: State)
    requires ConfigOk(c) && MutexOk(s) && BootOk(c, s) && AdderStep(c, s) == Some(t)
    ensures Energy(c, t) < Energy(c, s)
  {
    AdderNears(c, s, t);
    SumAppend(s.threads, NEW_WORKER, Distance);
    assert t.threads == if s.adder.Spawn? then s.threads + [NEW_WORKER] else s.threads;
    assert s.mtx == Adder && (t.mtx == Adder || t.mtx == Free);
    assert Work(t) == Work(s) + 9 * (|t.queue| - |s.queue|) + 5 * (|t.threads| - |s.threads|);
  }

  /** Only a worker that goes to poll an empty queue does not pay for it. */
  lemma WorkerCosts(c: Config, s: State, i: nat, t: State)
    requires MutexOk(s) && i < |s.threads| && WorkerStep(c, s, i) == Some(t)
    requires s.queue == [] ==> s.threads[i].pc != Top
    ensures Energy(c, t) < Energy(c, s)
  {
    WorkDecreases(c, s, i, t);
    WorkerMoves(c, s, i, t);
    DistanceDrops(c, s, i, t);
    if t.queue == [] && HolderAt(t, PollIn) {
      assert InSection(t.threads[t.mtx.i]);
      AcquiresOnly(c, s, i, t);
    }
  }

  lemma AcquiresOnly(c: Config, s: State, i: nat, t: State)
    requires MutexOk(s) && i < |s.threads| && WorkerStep(c, s, i) == Some(t) && HolderAt(t, PollIn)
    ensures s.queue == t.queue
    ensures (t.mtx.i == i && s.threads[i].pc == Top) || HolderAt(s, PollIn)
  {
    WorkerMoves(c, s, i, t);
    DistanceDrops(c, s, i, t);
  }

  // ----- Which states can settle -----

  /** The one in the mutex is about to learn that it may leave. */
  predicate Poised(c: Config, s: State) {
    HolderAt(s, CheckIn) && s.valid > c.min
  }

  /** Some worker will still be there when the mutex is free again. */
  predicate Stays(c: Config, s: State) {
    Count(s.threads, Present) >= if Poised(c, s) then 2 else 1
  }

  /** `addTask` is about to start a worker, or will if it sees none idle. */
  predicate WillSpawn(c: Config, s: State) {
    s.adder.Scan? || s.adder == Spawn(false) || (s.adder.Push? && s.valid < c.max)
  }

  predicate Hope(c: Config, s: State) {
    (s.queue == [] && !s.adder.Push?) || Stays(c, s) || WillSpawn(c, s)
  }

  /** Nobody holds the mutex and there is nothing to do. */
  predicate AtRest(s: State) {
    && s.adder.Idle? && s.mtx == Free && s.queue == []
    && forall i :: 0 <= i < |s.threads| ==> s.threads[i].held.None?
  }

  lemma PresentAt(ws: seq<Worker>, i: nat)
    requires i < |ws| && Is(ws[i], Present)
    ensures Count(ws, Present) >= 1
  {
    CountZero(ws, Present);
  }

  /** Steps of workers that are not released by them leave hope as it is. */
  lemma HopeKept(c: Config, s: State, i: nat, t: State)
    requires ConfigOk(c) && Inv(c, s) && i < |s.threads| && WorkerStep(c, s, i) == Some(t)
    requires s.threads[i].pc == CheckWait ==> Count(s.threads, Leaving) == 0
    ensures Hope(c, s) ==> Hope(c, t)
  {
    WorkerMoves(c, s, i, t);
    CountUpdate(s.threads, i, t.threads[i], Present);
    if s.threads[i].pc == CheckIn {
      assert s.mtx == By(i);
    } else if s.threads[i].pc == CheckWait {
      CountPresent(s.threads);
      CheckMeansMore(c, s);
    } else {
      CheckInIsOld(c, s, i, t);
    }
  }

  lemma CheckInIsOld(c: Config, s: State, i: nat, t: State)
    requires MutexOk(s) && i < |s.threads| && WorkerStep(c, s, i) == Some(t)
    requires s.threads[i].pc != CheckWait && s.threads[i].pc != CheckIn
    ensures s.adder.Idle? && Poised(c, t) ==> Poised(c, s)
    ensures Is(t.threads[i], Present) == Is(s.threads[i], Present)
  {
    WorkerMoves(c, s, i, t);
  }

  // ----- The schedule -----

  predicate Enabled(c: Config, s: State, i: nat) {
    i < |s.threads| && WorkerStep(c, s, i).Some?
  }

  /** Worker i goes on, one that is not about to poll an empty queue nor to ask whether it
      may leave while others do. */
  lemma GoesOn(c: Config, s: State, i: nat) returns (t: State)
    requires AllOk(c, s) && Enabled(c, s, i)
    requires s.queue == [] ==> s.threads[i].pc != Top
    requires s.threads[i].pc == CheckWait ==> Count(s.threads, Leaving) == 0
    ensures Apply(c, s, W(i)) == Some(t) && Energy(c, t) < Energy(c, s)
    ensures t.adder == s.adder && (Hope(c, s) ==> Hope(c, t))
  {
    t := WorkerStep(c, s, i).value;
    WorkDecreases(c, s, i, t);
    WorkerCosts(c, s, i, t);
    HopeKept(c, s, i, t);
  }

  /** While somebody is in `addTask` or `initTaskPool`: the new worker if it is waited for,
      else a leaving worker that still counts as idle, else the holder goes on. */
  lemma AdderGoesOn(c: Config, s: State) returns (l: Label, t: State)
    requires AllOk(c, s) && !s.adder.Idle?
    ensures (l.A? || l.W?) && Apply(c, s, l) == Some(t) && Energy(c, t) < Energy(c, s)
    ensures Hope(c, s) ==> Hope(c, t)
  {
    var n := |s.threads| - 1;
    if s.adder.Await? && s.threads[n].st == 0 {
      assert StateOk(s.threads[n]) && s.threads[n].pc == Start;
      l := W(n);
      t := GoesOn(c, s, n);
    } else if i :| 0 <= i < |s.threads| && s.threads[i].pc == Exit {
      l := W(i);
      t := GoesOn(c, s, i);
    } else {
      l := A;
      t := AdderStep(c, s).value;
      AdderCosts(c, s, t);
      HopeKeptByAdder(c, s, t);
    }
  }

  /** The worker that is waited for stays. */
  lemma AwaitHasHope(c: Config, s: State)
    requires AllOk(c, s) && s.adder.Await?
    ensures Count(s.threads, Present) >= 1 && Hope(c, s)
  {
    PresentAt(s.threads, |s.threads| - 1);
  }

  /** A scan that ends with an idle worker has found one that stays. */
  lemma ScanHasHope(c: Config, s: State, t: State)
    requires AllOk(c, s) && AdderStep(c, s) == Some(t) && s.adder.Scan? && t.adder.Unlock?
    requires forall i :: 0 <= i < |s.threads| ==> s.threads[i].pc != Exit
    ensures Count(s.threads, Present) >= 1
  {
    var i := s.adder.i;
    assert StateOk(s.threads[i]) && s.threads[i].st == 1 && !InSection(s.threads[i]);
    PresentAt(s.threads, i);
  }

  /** No worker counts as idle that is about to leave, so either the scan meets one that
      stays, or there is a new one. */
  lemma HopeKeptByAdder(c: Config, s: State, t: State)
    requires AllOk(c, s) && AdderStep(c, s) == Some(t) && forall i :: 0 <= i < |s.threads| ==> s.threads[i].pc != Exit
    ensures Hope(c, s) ==> Hope(c, t)
  {
    assert !HolderAt(s, CheckIn) && !HolderAt(t, CheckIn);
    if s.adder.Spawn? {
      PresentAt(t.threads, |s.threads|);
    } else {
      assert t.threads == s.threads;
      if s.adder.Await? {
        AwaitHasHope(c, s);
      } else if s.adder.Scan? && t.adder.Unlock? {
        ScanHasHope(c, s, t);
      }
    }
  }

  /** The holder of the mutex in a critical section of a worker goes on. */
  lemma HolderGoesOn(c: Config, s: State) returns (l: Label, t: State)
    requires AllOk(c, s) && s.adder.Idle? && s.mtx.By?
    ensures l.W? && Apply(c, s, l) == Some(t) && Energy(c, t) < Energy(c, s)
    ensures t.adder.Idle? && t.mtx == Free && (Hope(c, s) ==> Hope(c, t))
  {
    var i := s.mtx.i;
    assert InSection(s.threads[i]);
    l := W(i);
    t := GoesOn(c, s, i);
    WorkerMoves(c, s, i, t);
  }

  /** With the mutex free every worker that is not gone can go on. */
  lemma AllEnabled(c: Config, s: State, i: nat)
    requires MutexOk(s) && TasksOk(s) && s.mtx == Free && i < |s.threads| && s.threads[i].pc != Gone
    ensures Enabled(c, s, i)
  {
    assert HeldOk(s, s.threads[i]) && !InSection(s.threads[i]);
  }

  /** Who goes on when the mutex is free: a worker with a task in hand, else one on its way
      out, else, while tasks are queued, one of those that stay. */
  lemma NextWorker(c: Config, s: State) returns (i: nat)
    requires AllOk(c, s) && s.adder.Idle? && s.mtx == Free && Hope(c, s) && !AtRest(s)
    ensures i < |s.threads| && s.threads[i].pc != Gone
    ensures s.queue == [] ==> s.threads[i].pc != Top
    ensures s.threads[i].pc == CheckWait ==> Count(s.threads, Leaving) == 0
  {
    if k :| 0 <= k < |s.threads| && s.threads[k].held.Some? {
      i := k;
      assert HeldOk(s, s.threads[i]);
    } else if k :| 0 <= k < |s.threads| && Is(s.threads[k], Leaving) {
      i := k;
    } else {
      CountZero(s.threads, Present);
      CountZero(s.threads, Leaving);
      i :| i < |s.threads| && Is(s.threads[i], Present);
    }
  }

  lemma WorkerGoesOn(c: Config, s: State) returns (l: Label, t: State)
    requires AllOk(c, s) && s.adder.Idle? && s.mtx == Free && Hope(c, s) && !AtRest(s)
    ensures l.W? && Apply(c, s, l) == Some(t) && Energy(c, t) < Energy(c, s)
    ensures t.adder.Idle? && Hope(c, t)
  {
    var i := NextWorker(c, s);
    AllEnabled(c, s, i);
    l := W(i);
    t := GoesOn(c, s, i);
  }

  /** Hope is enough: the pool comes to rest with nothing left to do. */
  lemma {:induction false} ComesToRest(c: Config, s: State) returns (t: State)
    requires AllOk(c, s) && Hope(c, s)
    ensures Comes(c, s, t) && AllOk(c, t) && AtRest(t)
    decreases Energy(c, s)
  {
    if AtRest(s) {
      t := s;
      ComesSelf(c, s);
    } else {
      var l, u;
      if !s.adder.Idle? {
        l, u := AdderGoesOn(c, s);
      } else if s.mtx.By? {
        l, u := HolderGoesOn(c, s);
      } else {
        l, u := WorkerGoesOn(c, s);
      }
      StepOk(c, s, l, u);
      t := ComesToRest(c, u);
      ComesFirst(c, s, l, u, t);
    }
  }

  // ----- Before the next task is added -----

  /** Whoever is in `addTask` or `initTaskPool` gets out of it. */
  lemma {:induction false} AdderEnds(c: Config, s: State) returns (t: State)
    requires AllOk(c, s)
    ensures Comes(c, s, t) && AllOk(c, t) && t.adder.Idle?
    decreases Energy(c, s)
  {
    if s.adder.Idle? {
      t := s;
      ComesSelf(c, s);
    } else {
      var l, u := AdderGoesOn(c, s);
      StepOk(c, s, l, u);
      t := AdderEnds(c, u);
      ComesFirst(c, s, l, u, t);
    }
  }

  /** When no worker stays, those leaving leave, and the counter goes down to zero. */
  lemma {:induction false} AllLeave(c: Config, s: State) returns (t: State)
    requires AllOk(c, s) && s.adder.Idle? && Count(s.threads, Present) == 0
    ensures Comes(c, s, t) && AllOk(c, t) && t.adder.Idle? && t.mtx == Free && t.valid == 0
    decreases Work(s)
  {
    CountZero(s.threads, Present);
    if i :| 0 <= i < |s.threads| && Is(s.threads[i], Leaving) && (s.mtx.By? ==> s.mtx.i == i) {
      assert InSection(s.threads[i]) <==> s.mtx == By(i);
      var u := WorkerStep(c, s, i).value;
      StepOk(c, s, W(i), u);
      WorkDecreases(c, s, i, u);
      WorkerMoves(c, s, i, u);
      CountUpdate(s.threads, i, u.threads[i], Present);
      t := AllLeave(c, u);
      ComesFirst(c, s, W(i), u, t);
    } else {
      assert s.mtx.By? ==> InSection(s.threads[s.mtx.i]);
      t := s;
      ComesSelf(c, s);
      CountZero(s.threads, Registered);
    }
  }

  /** From any state with nobody in `addTask` the next call of it can be made to help: a
      worker stays, or there is room for a new one and nobody seems idle. */
  lemma MakesRoom(c: Config, s: State) returns (t: State)
    requires AllOk(c, s) && s.adder.Idle?
    ensures Comes(c, s, t) && AllOk(c, t) && t.adder.Idle? && t.mtx == Free
    ensures Count(t.threads, Present) >= 1 || t.valid < c.max
  {
    var u := s;
    ComesSelf(c, s);
    if s.mtx.By? {
      var l;
      l, u := HolderGoesOn(c, s);
      StepOk(c, s, l, u);
      ComesSelf(c, u);
      ComesFirst(c, s, l, u, u);
    }
    if Count(u.threads, Present) == 0 {
      t := AllLeave(c, u);
      ComesTrans(c, s, u, t);
    } else {
      t := u;
    }
  }

  // ----- Without hope -----

  /** And nothing else is enough: what has no hope does not get any, whoever moves. */
  lemma NoHopeStays(c: Config, s: State, l: Label, t: State)
    requires AllOk(c, s) && !Hope(c, s) && !l.AddLock? && Apply(c, s, l) == Some(t)
    ensures !Hope(c, t)
  {
    if s.adder.Await? {
      AwaitHasHope(c, s);
      assert false;
    } else if l.W? {
      NoHopeWorker(c, s, l.i, t);
    } else {
      assert t.threads == s.threads;
    }
  }

  lemma NoHopeWorker(c: Config, s: State, i: nat, t: State)
    requires AllOk(c, s) && !Hope(c, s) && i < |s.threads| && WorkerStep(c, s, i) == Some(t)
    ensures !Hope(c, t)
  {
    WorkerMoves(c, s, i, t);
    CountUpdate(s.threads, i, t.threads[i], Present);
    CountZero(s.threads, Present);
  }
}
