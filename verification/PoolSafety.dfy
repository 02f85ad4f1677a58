/** What every reachable state of the pool satisfies, under every interleaving. */
module PoolSafety {
  import opened Bytes
  import opened PoolModel

  predicate InSection(w: Worker) {
    w.pc in {RegIn, PollIn, CheckIn, ExitIn}
  }

  /** `m_state` follows the program counter. */
  predicate StateOk(w: Worker) {
    match w.pc
    case Start => w.st == 0
    case Busy => w.st == 2
    case Clear => w.st == 1 || w.st == 2
    case ExitWait => w.st == 3
    case ExitIn => w.st == 3
    case Gone => w.st == 3
    case _ => w.st == 1
  }

  /** One holder of the mutex at a time, and it is inside a critical section. */
  predicate MutexOk(s: State) {
    && |s.threads| == s.listed + (if s.adder.Await? then 1 else 0)
    && (s.mtx == Adder <==> !s.adder.Idle?)
    && (s.mtx.By? ==> s.mtx.i < |s.threads|)
    && (forall i :: 0 <= i < |s.threads| ==> (InSection(s.threads[i]) <==> s.mtx == By(i)) && StateOk(s.threads[i]))
  }

  predicate Booting(a: AdderPc) {
    a == Init || a == Spawn(true) || a == Await(true)
  }

  /** Until `initTaskPool` has let go of the mutex no worker can register. */
  predicate BootOk(c: Config, s: State) {
    if s.ready then !Booting(s.adder)
    else
      && (Booting(s.adder) || s.adder.Unlock?) && s.queue == []
      && (forall i :: 0 <= i < |s.threads| ==> Is(s.threads[i], Unregistered))
      && |s.threads| <= c.min
      && (s.adder == Spawn(true) ==> |s.threads| < c.min)
      && (s.adder.Unlock? ==> |s.threads| == c.min)
  }

  /** The 16-bit counter is the number of registered workers, up to wrapping. */
  predicate CounterOk(s: State) {
    s.valid == Count(s.threads, Registered) % 65536
  }

  /** While `addTask` scans, each worker already read as not idle is registered by now, or
      the start handshake was given up for it: any other unregistered worker is in state 1
      and stays there, because it needs the mutex to get on. */
  predicate ScanOk(c: Config, s: State) {
    && (forall i :: 0 <= i < |s.threads| && i < s.listed && s.threads[i].pc == Start ==> s.threads[i].late)
    && (s.adder.Await? && s.threads != [] ==>
          var w := s.threads[|s.threads| - 1]; !w.late && (w.pc == Start || w.pc == RegWait))
    && (s.adder.Scan? ==> s.valid < c.max && s.adder.i <= |s.threads|
                          && forall j :: 0 <= j < s.adder.i && Is(s.threads[j], Unregistered) ==> s.threads[j].late)
    && (s.adder == Spawn(false) ==>
          s.valid < c.max && forall j :: 0 <= j < |s.threads| && Is(s.threads[j], Unregistered) ==> s.threads[j].late)
  }

  /** The cap. */
  predicate CapOk(c: Config, s: State) {
    && Count(s.threads, Late) == s.timeouts
    && (c.patient ==> s.timeouts == 0)
    && (c.max + s.timeouts <= 65535 ==>
          Count(s.threads, Registered) + Count(s.threads, Unregistered) <= c.max + s.timeouts)
  }

  /** A pool that can have more registered workers than its minimum, as far as its 16-bit
      counter tells. */
  predicate CanGrow(c: Config) {
    c.min < c.max || (!c.patient && c.min < 65535)
  }

  /** The lower bound, in terms of the most workers that were ever leaving at once. */
  predicate LowOk(c: Config, s: State) {
    && Count(s.threads, Leaving) <= s.peak
    && (s.ready ==> Count(s.threads, Present) + Max(1, s.peak) >= c.min + 1)
    && (!CanGrow(c) ==> s.peak == 0)
  }

  predicate Inv(c: Config, s: State) {
    MutexOk(s) && BootOk(c, s) && CounterOk(s) && ScanOk(c, s) && CapOk(c, s) && LowOk(c, s)
  }

  /** What any step of a worker does, as far as the invariants are concerned. */
  predicate Moves(c: Config, s: State, i: nat, t: State)
    requires i < |s.threads|
  {
    && i < |t.threads|
    && t.threads == s.threads[i := t.threads[i]]
    && t.adder == s.adder && t.ready == s.ready && t.listed == s.listed && t.timeouts == s.timeouts
    && (s.queue == [] ==> t.queue == [])
    && var w, w' := s.threads[i], t.threads[i];
    && w.pc != Gone && w'.pc != Start && w'.late == w.late
    && (StateOk(w) ==> StateOk(w'))
    && (InSection(w) ==> !InSection(w') && t.mtx == Free)
    && (InSection(w') ==> s.mtx == Free && t.mtx == By(i))
    && (!InSection(w) && !InSection(w') ==> t.mtx == s.mtx)
    && (Is(w', Unregistered) ==> Is(w, Unregistered))
    && (w.pc == RegIn ==> w'.pc == Top && t.valid == (s.valid + 1) % 65536)
    && (w.pc == ExitIn ==> w'.pc == Gone && t.valid == (s.valid + 65535) % 65536)
    && (w.pc != RegIn && w.pc != ExitIn ==>
          t.valid == s.valid && Is(w', Registered) == Is(w, Registered) && Is(w', Unregistered) == Is(w, Unregistered))
    && (Is(w', Leaving) && !Is(w, Leaving) ==>
          w.pc == CheckIn && s.valid > c.min && t.peak == Max(s.peak, Count(t.threads, Leaving)))
    && (!Is(w', Leaving) || Is(w, Leaving) ==>
          t.peak == s.peak && (w.pc != ExitIn ==> Is(w', Leaving) == Is(w, Leaving)))
  }

  lemma AcquireMoves(c: Config, s: State, i: nat, t: State)
    requires i < |s.threads| && WorkerStep(c, s, i) == Some(t)
    requires s.threads[i].pc in {RegWait, Top, CheckWait, ExitWait}
    ensures Moves(c, s, i, t)
  {
  }

  lemma CountMoves(c: Config, s: State, i: nat, t: State)
    requires i < |s.threads| && WorkerStep(c, s, i) == Some(t)
    requires s.threads[i].pc in {RegIn, PollIn, CheckIn, ExitIn}
    ensures Moves(c, s, i, t)
  {
    if s.threads[i].pc == PollIn {
    } else if s.threads[i].pc == CheckIn {
    } else {
    }
  }

  lemma TaskMoves(c: Config, s: State, i: nat, t: State)
    requires i < |s.threads| && WorkerStep(c, s, i) == Some(t)
    requires s.threads[i].pc in {Got, Busy, Clear, Decide}
    ensures Moves(c, s, i, t)
  {
    if s.threads[i].pc == Got {
    } else {
    }
  }

  lemma WorkerMoves(c: Config, s: State, i: nat, t: State)
    requires i < |s.threads| && WorkerStep(c, s, i) == Some(t)
    ensures Moves(c, s, i, t)
  {
    if s.threads[i].pc in {RegWait, Top, CheckWait, ExitWait} {
      AcquireMoves(c, s, i, t);
    } else if s.threads[i].pc in {RegIn, PollIn, CheckIn, ExitIn} {
      CountMoves(c, s, i, t);
    } else if s.threads[i].pc in {Got, Busy, Clear, Decide} {
      TaskMoves(c, s, i, t);
    }
  }

  lemma MutexWorker(c: Config, s: State, i: nat, t: State)
    requires MutexOk(s) && i < |s.threads| && Moves(c, s, i, t)
    ensures MutexOk(t)
  {
  }

  lemma MutexAdder(c: Config, s: State, l: Label, t: State)
    requires MutexOk(s) && !l.W? && Apply(c, s, l) == Some(t)
    ensures MutexOk(t)
  {
  }

  lemma BootStep(c: Config, s: State, l: Label, t: State)
    requires ConfigOk(c) && MutexOk(s) && BootOk(c, s) && Apply(c, s, l) == Some(t)
    ensures BootOk(c, t)
  {
    if l.W? {
      WorkerMoves(c, s, l.i, t);
    }
  }

  lemma CounterWorker(c: Config, s: State, i: nat, t: State)
    requires CounterOk(s) && i < |s.threads| && Moves(c, s, i, t)
    ensures CounterOk(t)
  {
    CountUpdate(s.threads, i, t.threads[i], Registered);
    Wraps(Count(s.threads, Registered));
  }

  lemma Wraps(n: nat)
    ensures (n % 65536 + 1) % 65536 == (n + 1) % 65536
    ensures n > 0 ==> (n % 65536 + 65535) % 65536 == (n - 1) % 65536
  {
    var q, r := n / 65536, n % 65536;
    assert n == 65536 * q + r;
    if r == 0 {
      assert n - 1 == 65536 * (q - 1) + 65535;
    } else if r == 65535 {
      assert n + 1 == 65536 * (q + 1);
    }
  }

  lemma ScanWorker(c: Config, s: State, i: nat, t: State)
    requires MutexOk(s) && ScanOk(c, s) && i < |s.threads| && Moves(c, s, i, t)
    ensures ScanOk(c, t)
  {
    assert s.mtx == Adder ==> t.valid == s.valid;
  }

  lemma CapWorker(c: Config, s: State, i: nat, t: State)
    requires CapOk(c, s) && i < |s.threads| && Moves(c, s, i, t)
    ensures CapOk(c, t)
  {
    CountUpdate(s.threads, i, t.threads[i], Registered);
    CountUpdate(s.threads, i, t.threads[i], Unregistered);
    CountUpdate(s.threads, i, t.threads[i], Late);
  }

  /** Starting one more worker. Those not registered are late ones, or there are fewer
      than the minimum in all. */
  lemma CapSpawn(c: Config, s: State, t: State)
    requires ConfigOk(c) && Inv(c, s) && AdderStep(c, s) == Some(t) && s.adder.Spawn?
    ensures CapOk(c, t)
  {
    CountAppend(s.threads, NEW_WORKER, Registered);
    CountAppend(s.threads, NEW_WORKER, Unregistered);
    CountAppend(s.threads, NEW_WORKER, Late);
    if s.adder.boot {
      CountAll(s.threads, Unregistered);
      CountZero(s.threads, Registered);
    } else {
      CountWithin(s.threads, Unregistered, Late);
    }
  }

  /** A listed worker read as not idle is registered or late. */
  lemma ScanAdder(c: Config, s: State, t: State)
    requires ConfigOk(c) && MutexOk(s) && ScanOk(c, s) && AdderStep(c, s) == Some(t)
    ensures ScanOk(c, t)
  {
    assert s.adder.Spawn? || t.threads == s.threads;
    if s.adder.Scan? && s.adder.i < s.listed && s.adder.i < |s.threads| {
      assert StateOk(s.threads[s.adder.i]) && !InSection(s.threads[s.adder.i]);
    } else if s.adder.Await? {
      assert StateOk(s.threads[|s.threads| - 1]);
    }
  }

  lemma CapAdder(c: Config, s: State, t: State)
    requires ConfigOk(c) && Inv(c, s) && AdderStep(c, s) == Some(t)
    ensures CapOk(c, t)
  {
    if s.adder.Spawn? {
      CapSpawn(c, s, t);
    } else {
      assert t.threads == s.threads && t.valid == s.valid;
    }
  }

  /** A handshake given up changes no worker except that it is late now. */
  lemma CapTimeout(c: Config, s: State, t: State)
    requires ConfigOk(c) && Inv(c, s) && Apply(c, s, Timeout) == Some(t)
    ensures ScanOk(c, t) && CapOk(c, t) && CounterOk(t) && LowOk(c, t)
  {
    var n := |s.threads| - 1;
    CountUpdate(s.threads, n, t.threads[n], Registered);
    CountUpdate(s.threads, n, t.threads[n], Unregistered);
    CountUpdate(s.threads, n, t.threads[n], Late);
    CountUpdate(s.threads, n, t.threads[n], Leaving);
    CountUpdate(s.threads, n, t.threads[n], Present);
  }

  lemma CounterAdder(c: Config, s: State, t: State)
    requires CounterOk(s) && AdderStep(c, s) == Some(t)
    ensures CounterOk(t)
  {
    if s.adder.Spawn? {
      CountAppend(s.threads, NEW_WORKER, Registered);
    } else {
      assert t.threads == s.threads && t.valid == s.valid;
    }
  }

  lemma LowAdder(c: Config, s: State, t: State)
    requires ConfigOk(c) && Inv(c, s) && AdderStep(c, s) == Some(t)
    ensures LowOk(c, t)
  {
    assert t.peak == s.peak;
    if s.adder.Spawn? {
      CountAppend(s.threads, NEW_WORKER, Leaving);
      CountAppend(s.threads, NEW_WORKER, Present);
    } else {
      assert t.threads == s.threads;
      if s.adder.Unlock? && !s.ready {
        CountAll(s.threads, Present);
      }
    }
  }

  /** Only a successful check takes a worker out of the present ones, and it succeeds
      only while more than the minimum are registered. */
  lemma LowWorker(c: Config, s: State, i: nat, t: State)
    requires ConfigOk(c) && Inv(c, s) && i < |s.threads| && Moves(c, s, i, t)
    ensures LowOk(c, t)
  {
    CountUpdate(s.threads, i, t.threads[i], Leaving);
    CountUpdate(s.threads, i, t.threads[i], Present);
    CountPresent(s.threads);
    CheckMeansMore(c, s);
  }

  /** What the counter allows to conclude, wrapped or not. */
  lemma CheckMeansMore(c: Config, s: State)
    requires ConfigOk(c) && CounterOk(s) && CapOk(c, s)
    ensures s.valid > c.min ==> Count(s.threads, Registered) > c.min && CanGrow(c)
  {
  }

  lemma InvStep(c: Config, s: State, l: Label, t: State)
    requires ConfigOk(c) && Inv(c, s) && Apply(c, s, l) == Some(t)
    ensures Inv(c, t)
  {
    BootStep(c, s, l, t);
    match l
    case AddLock(_) =>
    case Timeout =>
      MutexAdder(c, s, l, t);
      CapTimeout(c, s, t);
    case W(i) =>
      WorkerMoves(c, s, i, t);
      MutexWorker(c, s, i, t);
      CounterWorker(c, s, i, t);
      ScanWorker(c, s, i, t);
      CapWorker(c, s, i, t);
      LowWorker(c, s, i, t);
    case A =>
      MutexAdder(c, s, l, t);
      CounterAdder(c, s, t);
      ScanAdder(c, s, t);
      CapAdder(c, s, t);
      LowAdder(c, s, t);
  }

  lemma {:induction false} InvRun(c: Config, s: State, ls: seq<Label>)
    requires ConfigOk(c) && Inv(c, s) && Exec(c, s, ls).Some?
    ensures Inv(c, Exec(c, s, ls).value)
    decreases |ls|
  {
    if ls != [] {
      InvStep(c, s, ls[0], Apply(c, s, ls[0]).value);
      InvRun(c, Apply(c, s, ls[0]).value, ls[1..]);
    }
  }

  lemma ReachableInv(c: Config, s: State)
    requires ConfigOk(c) && Reachable(c, s)
    ensures Inv(c, s)
  {
    var ls :| Exec(c, INITIAL, ls) == Some(s);
    assert Inv(c, INITIAL);
    InvRun(c, INITIAL, ls);
  }

  /** The pool cap in every reachable state of every pool: each start handshake that was
      given up can have added one worker over the maximum, and nothing else can. As long as
      that fits in 16 bits, the counter is the number of registered workers. */
  lemma PoolCap(c: Config, s: State)
    requires ConfigOk(c) && Reachable(c, s)
    ensures c.patient ==> s.timeouts == 0
    ensures c.max + s.timeouts <= 65535 ==>
              && Count(s.threads, Registered) + Count(s.threads, Unregistered) <= c.max + s.timeouts
              && s.valid == Count(s.threads, Registered)
    ensures s.valid == Count(s.threads, Registered) % 65536
  {
    ReachableInv(c, s);
  }

  /** Until then the counter neither wraps up nor down in any step of any run. */
  lemma CounterNeverWraps(c: Config, s: State, i: nat)
    requires ConfigOk(c) && Reachable(c, s) && i < |s.threads|
    ensures s.threads[i].pc == RegIn && c.max + s.timeouts <= 65535 ==> s.valid + 1 <= 65535
    ensures s.threads[i].pc == ExitIn && c.max + s.timeouts <= 65535 ==> s.valid >= 1
  {
    ReachableInv(c, s);
    CountZero(s.threads, Unregistered);
    CountZero(s.threads, Registered);
  }

  /** The lower bound: with at most `k` workers ever at once between a successful release
      check and their decrement, at least min + 1 - k workers stay. */
  lemma PoolFloor(c: Config, s: State, k: nat)
    requires ConfigOk(c) && Reachable(c, s) && s.ready
    requires s.peak <= k && 1 <= k
    ensures Count(s.threads, Present) + k >= c.min + 1
    ensures Count(s.threads, Present) + Count(s.threads, Leaving)
            == Count(s.threads, Registered) + Count(s.threads, Unregistered)
    ensures Count(s.threads, Leaving) <= s.peak
  {
    ReachableInv(c, s);
    CountPresent(s.threads);
  }

  /** Mutual exclusion: never two workers inside critical sections, and none while
      `addTask` or `initTaskPool` holds the mutex. */
  lemma MutualExclusion(c: Config, s: State, i: nat, j: nat)
    requires ConfigOk(c) && Reachable(c, s) && i < |s.threads| && j < |s.threads|
    ensures InSection(s.threads[i]) && InSection(s.threads[j]) ==> i == j
    ensures InSection(s.threads[i]) ==> s.adder.Idle?
  {
    ReachableInv(c, s);
  }
}
