/** How far the pool's promises reach, exactly: for which pool sizes it can fall below its
    minimum or strand a task, and what the cap hangs on. */
module PoolLimits {
  import opened Bytes
  import opened Streams
  import opened PoolModel
  import opened PoolSafety
  import opened PoolProgress

  /** One more step of a run. */
  lemma Go(c: Config, s: State, t: State, l: Label) returns (u: State)
    requires Leads(c, s, t) && Apply(c, t, l).Some?
    ensures Some(u) == Apply(c, t, l) && Leads(c, s, u)
  {
    u := Apply(c, t, l).value;
    LeadsStep(c, s, t, l, u);
  }

  /** Workers lo to hi are at one place. */
  predicate At(s: State, lo: nat, hi: nat, pc: Pc, st: int, free: nat) {
    lo <= hi <= |s.threads| && forall j :: lo <= j < hi ==>
      s.threads[j].pc == pc && s.threads[j].st == st && s.threads[j].free == free
  }

  /** Nobody holds the mutex, and there are n workers. */
  predicate Calm(s: State, n: nat) {
    s.mtx == Free && s.adder == Idle && s.ready && s.listed == |s.threads| == n
  }

  /** Nothing but worker i changed. */
  predicate Only(s: State, i: nat, t: State) {
    && |t.threads| == |s.threads| && (forall j :: 0 <= j < |s.threads| && j != i ==> t.threads[j] == s.threads[j])
    && t.listed == s.listed && t.adder == s.adder && t.ready == s.ready && t.timeouts == s.timeouts
  }

  const SOME_TASK: Task := Some(Queued(1, []))

  lemma Boot(c: Config) returns (s: State)
    requires ConfigOk(c)
    ensures Leads(c, INITIAL, s) && Calm(s, c.min) && At(s, 0, c.min, RegWait, 1, 0)
    ensures s.valid == 0 && s.queue == [] && s.timeouts == 0
  {
    s := INITIAL;
    LeadsSelf(c, s);
    var k := 0;
    while k < c.min
      invariant k <= c.min && Leads(c, INITIAL, s)
      invariant s.mtx == Adder && s.adder == Init && s.listed == |s.threads| == k
      invariant At(s, 0, k, RegWait, 1, 0) && s.valid == 0 && s.queue == [] && s.timeouts == 0
    {
      s := Go(c, INITIAL, s, A);
      s := Go(c, INITIAL, s, A);
      s := Go(c, INITIAL, s, W(k));
      s := Go(c, INITIAL, s, A);
      k := k + 1;
    }
    s := Go(c, INITIAL, s, A);
    s := Go(c, INITIAL, s, A);
  }

  lemma Register(c: Config, s: State, i: nat) returns (t: State)
    requires i < |s.threads| && s.threads[i].pc == RegWait && s.mtx == Free && s.valid < 65535
    ensures Leads(c, s, t) && Only(s, i, t) && t.mtx == Free && t.queue == s.queue
    ensures t.threads[i].pc == Top && t.threads[i].st == s.threads[i].st && t.threads[i].free == 0
    ensures t.valid == s.valid + 1
  {
    LeadsSelf(c, s);
    t := Go(c, s, s, W(i));
    t := Go(c, s, t, W(i));
  }

  /** The first n of m workers register; the others have not reached their first line. */
  lemma RegisterAll(c: Config, s: State, n: nat, m: nat) returns (t: State)
    requires Calm(s, m) && At(s, 0, n, RegWait, 1, 0) && At(s, n, m, Start, 0, 0) && s.valid == 0 && n <= 65535
    ensures Leads(c, s, t) && Calm(t, m) && At(t, 0, n, Top, 1, 0) && At(t, n, m, Start, 0, 0)
    ensures t.valid == n && t.queue == s.queue && t.timeouts == s.timeouts
  {
    t := s;
    LeadsSelf(c, s);
    for i := 0 to n
      invariant Leads(c, s, t) && Calm(t, m) && At(t, 0, i, Top, 1, 0) && At(t, i, n, RegWait, 1, 0)
      invariant At(t, n, m, Start, 0, 0) && t.valid == i && t.queue == s.queue && t.timeouts == s.timeouts
    {
      var u := Register(c, t, i);
      LeadsTrans(c, s, t, u);
      t := u;
    }
  }

  /** `addTask` up to worker n: none of the workers before it is idle. */
  lemma AddAndScan(c: Config, s: State, n: nat) returns (t: State)
    requires s.mtx == Free && s.adder == Idle && s.ready && n <= s.listed <= |s.threads| && s.valid < c.max
    requires forall j :: 0 <= j < n ==> s.threads[j].st != 1
    ensures Leads(c, s, t)
    ensures t == s.(mtx := Adder, adder := Scan(n), queue := s.queue + [SOME_TASK], added := s.added + [SOME_TASK])
  {
    LeadsSelf(c, s);
    t := Go(c, s, s, AddLock(SOME_TASK));
    t := Go(c, s, t, A);
    for i := 0 to n
      invariant Leads(c, s, t)
      invariant t == s.(mtx := Adder, adder := Scan(i), queue := s.queue + [SOME_TASK], added := s.added + [SOME_TASK])
    {
      t := Go(c, s, t, A);
    }
  }

  /** Worker i takes the one queued task and is busy with it. */
  lemma TakeTask(c: Config, s: State, i: nat) returns (t: State)
    requires i < |s.threads| && s.threads[i].pc == Top && s.mtx == Free && s.queue == [SOME_TASK]
    ensures Leads(c, s, t) && Only(s, i, t) && t.mtx == Free && t.queue == [] && t.valid == s.valid
    ensures t.threads[i].pc == Busy && t.threads[i].st == 2 && t.threads[i].free == 0
  {
    LeadsSelf(c, s);
    t := Go(c, s, s, W(i));
    t := Go(c, s, t, W(i));
    t := Go(c, s, t, W(i));
  }

  lemma BusyAll(c: Config, s: State, n: nat, m: nat) returns (t: State)
    requires Calm(s, m) && At(s, 0, n, Top, 1, 0) && At(s, n, m, Start, 0, 0) && s.valid == n < c.max && s.queue == []
    ensures Leads(c, s, t) && Calm(t, m) && At(t, 0, n, Busy, 2, 0) && At(t, n, m, Start, 0, 0)
    ensures t.valid == n && t.queue == [] && t.timeouts == s.timeouts
  {
    t := s;
    LeadsSelf(c, s);
    for i := 0 to n
      invariant Leads(c, s, t) && Calm(t, m) && At(t, 0, i, Busy, 2, 0) && At(t, i, n, Top, 1, 0)
      invariant At(t, n, m, Start, 0, 0) && t.valid == n && t.queue == [] && t.timeouts == s.timeouts
    {
      var u := AddAndScan(c, t, i);
      LeadsTrans(c, s, t, u);
      u := Go(c, s, u, A);
      u := Go(c, s, u, A);
      assert u.queue == [SOME_TASK];
      var v := TakeTask(c, u, i);
      LeadsTrans(c, s, u, v);
      t := v;
    }
  }

  /** With all workers busy, one more task starts one more worker. */
  lemma Grow(c: Config, s: State, n: nat) returns (t: State)
    requires ConfigOk(c) && Calm(s, n) && At(s, 0, n, Busy, 2, 0) && s.valid == n < c.max && s.queue == []
    ensures Leads(c, s, t) && Calm(t, n + 1) && At(t, 0, n + 1, Busy, 2, 0)
    ensures t.valid == n + 1 && t.queue == [] && t.timeouts == s.timeouts
  {
    var u := StartOne(c, s, n);
    var v := Register(c, u, n);
    LeadsTrans(c, s, u, v);
    t := TakeTask(c, v, n);
    LeadsTrans(c, s, v, t);
  }

  /** None of the workers is idle, the counter is below the maximum, and the new worker sets
      its state before the creator looks again. */
  lemma StartOne(c: Config, s: State, n: nat) returns (t: State)
    requires Calm(s, n) && s.valid < c.max && forall j :: 0 <= j < n ==> s.threads[j].st != 1
    ensures Leads(c, s, t) && Calm(t, n + 1) && t.valid == s.valid && t.queue == s.queue + [SOME_TASK]
    ensures t.threads[..n] == s.threads && At(t, n, n + 1, RegWait, 1, 0) && t.timeouts == s.timeouts
  {
    t := AddAndScan(c, s, n);
    t := Go(c, s, t, A);
    t := Go(c, s, t, A);
    t := Go(c, s, t, W(n));
    t := Go(c, s, t, A);
    t := Go(c, s, t, A);
  }

  /** The same, but the creator gives up waiting. */
  lemma StartLate(c: Config, s: State, n: nat) returns (t: State)
    requires !c.patient && Calm(s, n) && s.valid < c.max && forall j :: 0 <= j < n ==> s.threads[j].st != 1
    ensures Leads(c, s, t) && Calm(t, n + 1) && t.valid == s.valid && t.queue == s.queue + [SOME_TASK]
    ensures t.threads[..n] == s.threads && At(t, n, n + 1, Start, 0, 0) && t.timeouts == s.timeouts + 1
  {
    t := AddAndScan(c, s, n);
    t := Go(c, s, t, A);
    t := Go(c, s, t, A);
    t := Go(c, s, t, Timeout);
    t := Go(c, s, t, A);
  }

  lemma FinishTask(c: Config, s: State, i: nat) returns (t: State)
    requires i < |s.threads| && s.threads[i].pc == Busy && s.threads[i].free == 0 && s.mtx == Free && s.queue == []
    ensures Leads(c, s, t) && Only(s, i, t) && t.mtx == Free && t.queue == [] && t.valid == s.valid
    ensures t.threads[i].pc == Top && t.threads[i].st == 1 && t.threads[i].free == 0
  {
    LeadsSelf(c, s);
    t := Go(c, s, s, W(i));
    t := Go(c, s, t, W(i));
    t := Go(c, s, t, W(i));
  }

  lemma FinishAll(c: Config, s: State, n: nat) returns (t: State)
    requires Calm(s, n) && At(s, 0, n, Busy, 2, 0) && s.valid == n && s.queue == []
    ensures Leads(c, s, t) && Calm(t, n) && At(t, 0, n, Top, 1, 0) && t.valid == n && t.queue == []
  {
    t := s;
    LeadsSelf(c, s);
    for i := 0 to n
      invariant Leads(c, s, t) && Calm(t, n) && At(t, 0, i, Top, 1, 0) && At(t, i, n, Busy, 2, 0)
      invariant t.valid == n && t.queue == []
    {
      var u := FinishTask(c, t, i);
      LeadsTrans(c, s, t, u);
      t := u;
    }
  }

  /** Worker i finds the queue empty four times. */
  lemma GetIdle(c: Config, s: State, i: nat) returns (t: State)
    requires i < |s.threads| && s.threads[i].pc == Top && s.threads[i].st == 1 && s.threads[i].free == 0
    requires s.mtx == Free && s.queue == []
    ensures Leads(c, s, t) && Only(s, i, t) && t.mtx == Free && t.queue == [] && t.valid == s.valid
    ensures t.threads[i].pc == Decide && t.threads[i].st == 1 && t.threads[i].free == 4
  {
    t := s;
    LeadsSelf(c, s);
    var f := 0;
    while f < 3
      invariant f <= 3 && Leads(c, s, t) && Only(s, i, t) && t.mtx == Free && t.queue == [] && t.valid == s.valid
      invariant t.threads[i].pc == Top && t.threads[i].st == 1 && t.threads[i].free == f
    {
      t := EmptyPoll(c, s, t, i);
      t := WaitOnce(c, s, t, i);
      f := f + 1;
    }
    t := EmptyPoll(c, s, t, i);
  }

  lemma WaitOnce(c: Config, s: State, t: State, i: nat) returns (u: State)
    requires Leads(c, s, t) && i < |t.threads| && t.threads[i].pc == Decide && t.mtx == Free
    requires t.threads[i].st == 1 && 0 < t.threads[i].free < 4
    ensures Leads(c, s, u) && Only(t, i, u) && u.mtx == Free && u.queue == t.queue && u.valid == t.valid
    ensures u.threads[i].pc == Top && u.threads[i].st == 1 && u.threads[i].free == t.threads[i].free
  {
    u := Go(c, s, t, W(i));
    u := Go(c, s, u, W(i));
  }

  lemma EmptyPoll(c: Config, s: State, t: State, i: nat) returns (u: State)
    requires Leads(c, s, t) && i < |t.threads| && t.threads[i].pc == Top && t.mtx == Free && t.queue == []
    requires t.threads[i].st == 1 && t.threads[i].free < 65535
    ensures Leads(c, s, u) && Only(t, i, u) && u.mtx == Free && u.queue == [] && u.valid == t.valid
    ensures u.threads[i].pc == Decide && u.threads[i].st == 1 && u.threads[i].free == t.threads[i].free + 1
  {
    u := Go(c, s, t, W(i));
    u := Go(c, s, u, W(i));
    u := Go(c, s, u, W(i));
  }

  lemma IdleAll(c: Config, s: State, n: nat) returns (t: State)
    requires Calm(s, n) && At(s, 0, n, Top, 1, 0) && s.valid == n && s.queue == []
    ensures Leads(c, s, t) && Calm(t, n) && At(t, 0, n, Decide, 1, 4) && t.valid == n && t.queue == []
  {
    t := s;
    LeadsSelf(c, s);
    for i := 0 to n
      invariant Leads(c, s, t) && Calm(t, n) && At(t, 0, i, Decide, 1, 4) && At(t, i, n, Top, 1, 0)
      invariant t.valid == n && t.queue == []
    {
      var u := GetIdle(c, t, i);
      LeadsTrans(c, s, t, u);
      t := u;
    }
  }

  /** A task comes while the workers, all about to ask for their release, still count as
      idle: no worker is started for it. */
  lemma AddUnseen(c: Config, s: State, n: nat) returns (t: State)
    requires Calm(s, n) && n > 0 && At(s, 0, n, Decide, 1, 4) && s.valid == n && s.queue == []
    ensures Leads(c, s, t) && Calm(t, n) && At(t, 0, n, Decide, 1, 4) && t.valid == n && t.queue == [SOME_TASK]
  {
    LeadsSelf(c, s);
    t := Go(c, s, s, AddLock(SOME_TASK));
    t := Go(c, s, t, A);
    if s.valid < c.max {
      t := Go(c, s, t, A);
    }
    t := Go(c, s, t, A);
  }

  /** Worker i passes the release check. */
  lemma GetReleased(c: Config, s: State, t: State, i: nat) returns (u: State)
    requires Leads(c, s, t) && i < |t.threads| && t.threads[i].pc == Decide && t.threads[i].free == 4
    requires t.mtx == Free && t.valid > c.min
    ensures Leads(c, s, u) && Only(t, i, u) && u.mtx == Free && u.queue == t.queue && u.valid == t.valid
    ensures u.threads[i].pc == Exit && u.threads[i].st == t.threads[i].st && u.threads[i].free == 4
  {
    u := Go(c, s, t, W(i));
    u := Go(c, s, u, W(i));
    u := Go(c, s, u, W(i));
  }

  /** All pass the release check before any of them is subtracted. */
  lemma ReleaseAll(c: Config, s: State, n: nat) returns (t: State)
    requires Calm(s, n) && At(s, 0, n, Decide, 1, 4) && s.valid == n > c.min
    ensures Leads(c, s, t) && Calm(t, n) && At(t, 0, n, Exit, 1, 4) && t.valid == n && t.queue == s.queue
  {
    t := s;
    LeadsSelf(c, s);
    for i := 0 to n
      invariant Leads(c, s, t) && Calm(t, n) && At(t, 0, i, Exit, 1, 4) && At(t, i, n, Decide, 1, 4)
      invariant t.valid == n && t.queue == s.queue
    {
      t := GetReleased(c, s, t, i);
    }
  }

  lemma Leave(c: Config, s: State, t: State, i: nat) returns (u: State)
    requires Leads(c, s, t) && i < |t.threads| && t.threads[i].pc == Exit && t.mtx == Free && 1 <= t.valid <= 65535
    ensures Leads(c, s, u) && Only(t, i, u) && u.mtx == Free && u.queue == t.queue && u.valid == t.valid - 1
    ensures u.threads[i].pc == Gone && u.threads[i].st == 3 && u.threads[i].free == t.threads[i].free
  {
    assert (t.valid + 65535) % 65536 == t.valid - 1 by {
      assert t.valid + 65535 == 65536 + (t.valid - 1);
    }
    u := Go(c, s, t, W(i));
    u := Go(c, s, u, W(i));
    u := Go(c, s, u, W(i));
  }

  lemma LeaveAll(c: Config, s: State, n: nat) returns (t: State)
    requires Calm(s, n) && At(s, 0, n, Exit, 1, 4) && s.valid == n <= 65535
    ensures Leads(c, s, t) && Calm(t, n) && At(t, 0, n, Gone, 3, 4) && t.valid == 0 && t.queue == s.queue
  {
    t := s;
    LeadsSelf(c, s);
    for i := 0 to n
      invariant Leads(c, s, t) && Calm(t, n) && At(t, 0, i, Gone, 3, 4) && At(t, i, n, Exit, 1, 4)
      invariant t.valid == n - i && t.queue == s.queue
    {
      t := Leave(c, s, t, i);
    }
  }

  /** Without patience, workers that have not reached their first line are neither counted
      nor idle, and every task starts one more. */
  lemma OvergrowingRun(c: Config) returns (s: State)
    requires ConfigOk(c) && !c.patient
    ensures Reachable(c, s) && Calm(s, c.max + 1) && At(s, 0, c.max + 1, Start, 0, 0) && s.valid == 0
    ensures c.min == c.max ==> s.queue == [SOME_TASK]
  {
    s := BootLate(c);
    var k := c.min;
    while k < c.max + 1
      invariant c.min <= k <= c.max + 1 && Leads(c, INITIAL, s) && Calm(s, k)
      invariant At(s, 0, k, Start, 0, 0) && s.valid == 0
      invariant k == c.min ==> s.queue == []
      invariant k == c.min + 1 ==> s.queue == [SOME_TASK]
    {
      var t := StartLate(c, s, k);
      LeadsTrans(c, INITIAL, s, t);
      s := t;
      k := k + 1;
    }
  }

  /** `initTaskPool` when no worker reaches its first line in time. */
  lemma BootLate(c: Config) returns (s: State)
    requires ConfigOk(c) && !c.patient
    ensures Leads(c, INITIAL, s) && Calm(s, c.min) && At(s, 0, c.min, Start, 0, 0) && s.valid == 0 && s.queue == []
  {
    s := INITIAL;
    LeadsSelf(c, s);
    var k := 0;
    while k < c.min
      invariant k <= c.min && Leads(c, INITIAL, s)
      invariant s.mtx == Adder && s.adder == Init && s.listed == |s.threads| == k
      invariant At(s, 0, k, Start, 0, 0) && s.valid == 0 && s.queue == []
    {
      s := Go(c, INITIAL, s, A);
      s := Go(c, INITIAL, s, A);
      s := Go(c, INITIAL, s, Timeout);
      k := k + 1;
    }
    s := Go(c, INITIAL, s, A);
    s := Go(c, INITIAL, s, A);
  }

  lemma StartAll(c: Config, s: State, n: nat) returns (t: State)
    requires Calm(s, n) && At(s, 0, n, Start, 0, 0)
    ensures Leads(c, s, t) && Calm(t, n) && At(t, 0, n, RegWait, 1, 0) && t.valid == s.valid && t.queue == s.queue
  {
    t := s;
    LeadsSelf(c, s);
    for i := 0 to n
      invariant Leads(c, s, t) && Calm(t, n) && At(t, 0, i, RegWait, 1, 0) && At(t, i, n, Start, 0, 0)
      invariant t.valid == s.valid && t.queue == s.queue
    {
      t := Go(c, s, t, W(i));
    }
  }

  /** One worker more than the minimum, all registered and about to poll, by growing. */
  lemma FullByGrowing(c: Config) returns (s: State)
    requires ConfigOk(c) && c.min < c.max
    ensures Reachable(c, s) && Calm(s, c.min + 1) && At(s, 0, c.min + 1, Top, 1, 0)
    ensures s.valid == c.min + 1 && s.queue == []
  {
    var a := Boot(c);
    var b := RegisterAll(c, a, c.min, c.min);
    LeadsTrans(c, INITIAL, a, b);
    a := BusyAll(c, b, c.min, c.min);
    LeadsTrans(c, INITIAL, b, a);
    b := Grow(c, a, c.min);
    LeadsTrans(c, INITIAL, a, b);
    s := FinishAll(c, b, c.min + 1);
    LeadsTrans(c, INITIAL, b, s);
  }

  /** The same for a minimum that is also the maximum, by workers that start late. */
  lemma FullByLateness(c: Config) returns (s: State)
    requires ConfigOk(c) && c.min == c.max < 65535 && !c.patient
    ensures Reachable(c, s) && Calm(s, c.min + 1) && At(s, 0, c.min + 1, Top, 1, 0)
    ensures s.valid == c.min + 1 && s.queue == []
  {
    var a := OvergrowingRun(c);
    var b := StartAll(c, a, c.min + 1);
    LeadsTrans(c, INITIAL, a, b);
    a := RegisterAll(c, b, c.min + 1, c.min + 1);
    LeadsTrans(c, INITIAL, b, a);
    b := TakeTask(c, a, 0);
    LeadsTrans(c, INITIAL, a, b);
    s := FinishTask(c, b, 0);
    LeadsTrans(c, INITIAL, b, s);
  }

  /** The run that leaves a task behind with no worker at all. */
  lemma StrandingRun(c: Config) returns (s: State)
    requires ConfigOk(c) && CanGrow(c)
    ensures Reachable(c, s) && Calm(s, c.min + 1) && At(s, 0, c.min + 1, Gone, 3, 4)
    ensures s.valid == 0 && s.queue == [SOME_TASK]
  {
    var a, b;
    if c.min < c.max {
      a := FullByGrowing(c);
    } else {
      a := FullByLateness(c);
    }
    b := IdleAll(c, a, c.min + 1);
    LeadsTrans(c, INITIAL, a, b);
    a := AddUnseen(c, b, c.min + 1);
    LeadsTrans(c, INITIAL, b, a);
    b := ReleaseAll(c, a, c.min + 1);
    LeadsTrans(c, INITIAL, a, b);
    s := LeaveAll(c, b, c.min + 1);
    LeadsTrans(c, INITIAL, b, s);
  }

  /** A task is queued, nobody is adding one, and no worker can make a step. */
  ghost predicate Stranded(c: Config, s: State) {
    s.ready && s.adder.Idle? && s.queue != [] && forall i :: 0 <= i < |s.threads| ==> WorkerStep(c, s, i).None?
  }

  /** Exactly when a task can be stranded: whenever the pool can come to count more workers
      than its minimum. Every worker can then be on its way out when the task comes. */
  lemma StrandedExactly(c: Config)
    requires ConfigOk(c)
    ensures (exists s :: Reachable(c, s) && Stranded(c, s)) <==> c.min < c.max || (!c.patient && c.min < 65535)
  {
    if CanGrow(c) {
      var s := StrandingRun(c);
      assert Stranded(c, s);
    } else if exists s :: Reachable(c, s) && Stranded(c, s) {
      var s :| Reachable(c, s) && Stranded(c, s);
      ReachableInv(c, s);
      ReachableTasks(c, s);
      PoolFloor(c, s, 1);
      SomeoneMoves(c, s);
      assert false;
    }
  }

  /** Exactly when the pool never falls below its minimum: when it cannot come to that. */
  lemma FloorExactly(c: Config)
    requires ConfigOk(c)
    ensures (forall s :: Reachable(c, s) && s.ready ==> Count(s.threads, Present) >= c.min)
            <==> c.min == c.max && (c.patient || c.min == 65535)
  {
    if CanGrow(c) {
      var s := StrandingRun(c);
      CountZero(s.threads, Present);
      assert Reachable(c, s) && s.ready && Count(s.threads, Present) < c.min;
    } else {
      forall s | Reachable(c, s) && s.ready ensures Count(s.threads, Present) >= c.min {
        ReachableInv(c, s);
        PoolFloor(c, s, 1);
      }
    }
  }

  /** Exactly what the cap hangs on: that the start handshake is not given up. */
  lemma CapExactly(c: Config)
    requires ConfigOk(c)
    ensures (forall s :: Reachable(c, s) ==>
               Count(s.threads, Registered) + Count(s.threads, Unregistered) <= c.max) <==> c.patient
  {
    if c.patient {
      forall s | Reachable(c, s)
        ensures Count(s.threads, Registered) + Count(s.threads, Unregistered) <= c.max
      {
        PoolCap(c, s);
      }
    } else {
      var s := OvergrowingRun(c);
      CountAll(s.threads, Unregistered);
      assert Reachable(c, s);
    }
  }

  // ----- The cap, attained -----

  /** `initTaskPool` when all but the last of the workers start in time. */
  lemma BootLastLate(c: Config) returns (s: State)
    requires ConfigOk(c) && !c.patient
    ensures Leads(c, INITIAL, s) && Calm(s, c.min) && At(s, 0, c.min - 1, RegWait, 1, 0)
    ensures At(s, c.min - 1, c.min, Start, 0, 0) && s.valid == 0 && s.queue == [] && s.timeouts == 1
  {
    s := INITIAL;
    LeadsSelf(c, s);
    var k := 0;
    while k < c.min - 1
      invariant k <= c.min - 1 && Leads(c, INITIAL, s)
      invariant s.mtx == Adder && s.adder == Init && s.listed == |s.threads| == k
      invariant At(s, 0, k, RegWait, 1, 0) && s.valid == 0 && s.queue == [] && s.timeouts == 0
    {
      s := Go(c, INITIAL, s, A);
      s := Go(c, INITIAL, s, A);
      s := Go(c, INITIAL, s, W(k));
      s := Go(c, INITIAL, s, A);
      k := k + 1;
    }
    s := Go(c, INITIAL, s, A);
    s := Go(c, INITIAL, s, A);
    s := Go(c, INITIAL, s, Timeout);
    s := Go(c, INITIAL, s, A);
    s := Go(c, INITIAL, s, A);
  }

  /** All but one of the workers the pool may have are busy. If there is a last one, it has
      not reached its first line. */
  lemma NearlyFull(c: Config) returns (s: State, m: nat)
    requires ConfigOk(c) && (c.min < c.max || !c.patient)
    ensures Reachable(c, s) && c.max - 1 <= m && Calm(s, m) && s.valid == c.max - 1
    ensures At(s, 0, c.max - 1, Busy, 2, 0) && At(s, c.max - 1, m, Start, 0, 0)
    ensures s.timeouts == m - (c.max - 1) <= 1 && (c.min < c.max ==> s.timeouts == 0)
  {
    var t;
    if c.min < c.max {
      s := Boot(c);
      m := c.min;
      t := RegisterAll(c, s, m, m);
      LeadsTrans(c, INITIAL, s, t);
      s := BusyAll(c, t, m, m);
      LeadsTrans(c, INITIAL, t, s);
      while m < c.max - 1
        invariant c.min <= m <= c.max - 1 && Leads(c, INITIAL, s) && Calm(s, m) && At(s, 0, m, Busy, 2, 0)
        invariant s.valid == m && s.queue == [] && s.timeouts == 0
      {
        t := Grow(c, s, m);
        LeadsTrans(c, INITIAL, s, t);
        s, m := t, m + 1;
      }
    } else {
      s := BootLastLate(c);
      m := c.min;
      t := RegisterAll(c, s, m - 1, m);
      LeadsTrans(c, INITIAL, s, t);
      s := BusyAll(c, t, m - 1, m);
      LeadsTrans(c, INITIAL, t, s);
    }
  }

  /** The bound of `PoolCap` is attained in every pool, for every number of handshakes given
      up: max - 1 workers are busy, so many have started late, and one more has started. */
  lemma CapAttained(c: Config, late: nat)
    requires ConfigOk(c) && (late == 0 || !c.patient)
    ensures exists s :: Reachable(c, s) && s.timeouts == late
                        && Count(s.threads, Registered) + Count(s.threads, Unregistered) == c.max + late
  {
    var s;
    if c.min == c.max && late == 0 {
      s := Boot(c);
    } else {
      var m: nat;
      s, m := NearlyFull(c);
      while s.timeouts < late
        invariant Reachable(c, s) && Calm(s, m) && s.valid == c.max - 1 && s.timeouts == m - (c.max - 1) <= late
        invariant At(s, 0, c.max - 1, Busy, 2, 0) && At(s, c.max - 1, m, Start, 0, 0)
        decreases late - s.timeouts
      {
        var t := StartLate(c, s, m);
        LeadsTrans(c, INITIAL, s, t);
        assert forall j :: 0 <= j < m ==> t.threads[j] == t.threads[..m][j];
        s, m := t, m + 1;
      }
      var t := StartOne(c, s, m);
      LeadsTrans(c, INITIAL, s, t);
      assert forall j :: 0 <= j < m ==> t.threads[j] == t.threads[..m][j];
      s := t;
    }
    NobodyLeaves(s.threads);
  }

  lemma NobodyLeaves(ws: seq<Worker>)
    requires forall i :: 0 <= i < |ws| ==> Is(ws[i], Present)
    ensures Count(ws, Registered) + Count(ws, Unregistered) == |ws|
  {
    CountAll(ws, Present);
    CountZero(ws, Leaving);
    CountPresent(ws);
  }
}
