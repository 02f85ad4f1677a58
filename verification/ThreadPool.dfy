/** `threadPool` as an object: the bodies of its critical sections and the loops of
    `initTaskPool`, `addTask` and `createNewThread`, each tied to steps of the transition
    system. While one of these holds the mutex the workers go on with whatever needs no
    mutex; `OthersMove` stands for any number of such steps.
    Line numbers are those of server/threadPool/threadpool.cpp. */
module ThreadPool {
  import opened Bytes
  import opened PoolModel
  import opened PoolSafety

  class ThreadPool {
    const maxNum: nat
    const minNum: nat
    var mtx: Holder
    var validThreadNums: nat
    var tasks: seq<Task>
    var workers: seq<Worker>
    /** How many of the workers are in `m_threads`. */
    var listed: nat
    /** History, which numbers the tickets. */
    var popped: seq<Task>
    ghost var adder: AdderPc
    ghost var ready: bool
    ghost var added: seq<Task>
    ghost var calls: seq<nat>
    ghost var skipped: seq<nat>
    ghost var peak: nat
    ghost var timeouts: nat
    /** How often `usleep` was called. */
    ghost var sleeps: nat

    ghost function Cfg(): Config {
      Config(minNum, maxNum, false)
    }

    ghost function Snapshot(): State
      reads this
    {
      State(workers, listed, mtx, adder, ready, validThreadNums, tasks, added, popped, calls, skipped, peak, timeouts)
    }

    constructor (maxNum: nat, minNum: nat)
      ensures this.maxNum == maxNum && this.minNum == minNum && Snapshot() == INITIAL
    {
      this.maxNum := maxNum;
      this.minNum := minNum;
      mtx := Adder;
      validThreadNums := 0;
      tasks := [];
      workers := [];
      listed := 0;
      adder := Init;
      ready := false;
      added := [];
      popped := [];
      calls := [];
      skipped := [];
      peak := 0;
      timeouts := 0;
      sleeps := 0;
    }

    /** The same workers, late or not. */
    static ghost predicate SameLate(ws: seq<Worker>, xs: seq<Worker>) {
      |xs| == |ws| && forall i :: 0 <= i < |ws| ==> xs[i].late == ws[i].late
    }

    /** The next step of a worker, if it is one that needs no mutex. */
    method GoOn(i: nat) returns (moved: bool)
      requires mtx == Adder && i < |workers|
      modifies `workers, `calls, `skipped
      ensures moved ==> Apply(Cfg(), old(Snapshot()), W(i)) == Some(Snapshot())
      ensures !moved ==> Snapshot() == old(Snapshot())
      ensures !moved && workers[i].pc !in {RegIn, PollIn, CheckIn, ExitIn} ==> Apply(Cfg(), Snapshot(), W(i)).None?
    {
      var w := workers[i];
      moved := true;
      if w.pc == Start {
        workers := workers[i := w.(pc := RegWait, st := 1)];
      } else if w.pc == Got && w.held.Some? {
        if w.held.value.task.Some? {
          workers := workers[i := w.(pc := Busy, st := 2)];
          calls := calls + [w.held.value.n];
        } else {
          workers := workers[i := w.(pc := Clear, held := None)];
          skipped := skipped + [w.held.value.n];
        }
      } else if w.pc == Busy {
        workers := workers[i := w.(pc := Clear, held := None)];
      } else if w.pc == Clear {
        workers := workers[i := w.(pc := Decide, st := 1)];
      } else if w.pc == Decide {
        var pc := if w.free == 0 then Top else if w.free >= CHECK_TIMES then CheckWait else Wait;
        workers := workers[i := w.(pc := pc)];
      } else if w.pc == Exit {
        workers := workers[i := w.(pc := ExitWait, st := 3)];
      } else if w.pc == Wait {
        workers := workers[i := w.(pc := Top)];
      } else {
        moved := false;
      }
    }

    /** A worker goes on if it can without the mutex. */
    method OneMoves(i: nat, ghost from: State)
      requires mtx == Adder && i < |workers| && Leads(Cfg(), from, Snapshot())
      modifies `workers, `calls, `skipped
      ensures Leads(Cfg(), from, Snapshot()) && SameLate(old(workers), workers)
    {
      ghost var s := Snapshot();
      var moved := GoOn(i);
      if moved {
        KeepsLate(s, i, Snapshot());
        LeadsStep(Cfg(), from, s, W(i), Snapshot());
      }
    }

    lemma KeepsLate(s: State, i: nat, t: State)
      requires i < |s.threads| && WorkerStep(Cfg(), s, i) == Some(t)
      ensures SameLate(s.threads, t.threads)
    {
      WorkerMoves(Cfg(), s, i, t);
    }

    /** Any number of such steps, by any workers. */
    method OthersMove(ghost from: State)
      requires mtx == Adder && Leads(Cfg(), from, Snapshot())
      modifies `workers, `calls, `skipped
      ensures Leads(Cfg(), from, Snapshot()) && SameLate(old(workers), workers)
    {
      var steps: nat := *;
      while steps > 0
        invariant Leads(Cfg(), from, Snapshot()) && SameLate(old(workers), workers)
      {
        var i: nat := *;
        if i < |workers| {
          OneMoves(i, from);
        }
        steps := steps - 1;
      }
    }

    /** Lines 212-213. */
    method StartThread(ghost from: State)
      requires adder.Spawn? && Leads(Cfg(), from, Snapshot())
      modifies `workers, `adder
      ensures Leads(Cfg(), from, Snapshot())
      ensures workers == old(workers) + [NEW_WORKER] && adder == Await(old(adder).boot)
    {
      ghost var s := Snapshot();
      workers := workers + [NEW_WORKER];
      adder := Await(adder.boot);
      LeadsStep(Cfg(), from, s, A, Snapshot());
    }

    /** Line 219. */
    method Usleep(ghost from: State)
      requires mtx == Adder && Leads(Cfg(), from, Snapshot())
      modifies `workers, `calls, `skipped, `sleeps
      ensures Leads(Cfg(), from, Snapshot()) && SameLate(old(workers), workers) && sleeps == old(sleeps) + 1
    {
      sleeps := sleeps + 1;
      OthersMove(from);
    }

    /** One more look at worker n, after a sleep. */
    method LookAgain(n: nat, ghost from: State, ghost looks: seq<State>) returns (state: int)
      requires mtx == Adder && adder.Await? && |workers| == n + 1
      requires looks != [] && Moments(from, looks, Awaiting(n)) && LastOf(from, looks) == Snapshot()
      modifies `workers, `calls, `skipped, `sleeps
      ensures SameLate(old(workers), workers) && sleeps == old(sleeps) + 1 && state == workers[n].st
      ensures Moments(from, looks + [Snapshot()], Awaiting(n)) && LastOf(from, looks + [Snapshot()]) == Snapshot()
    {
      LeadsSelf(Cfg(), Snapshot());
      Usleep(Snapshot());
      state := workers[n].st;
      MomentsMore(from, looks, Snapshot(), Awaiting(n));
    }

    /** Lines 216-220: up to eleven looks at the state of the new worker, with a sleep between
        one look and the next. */
    method WaitForStart(n: nat, ghost from: State) returns (ghost looks: seq<State>)
      requires mtx == Adder && adder.Await? && |workers| == n + 1 && Leads(Cfg(), from, Snapshot())
      modifies `workers, `calls, `skipped, `sleeps
      ensures Moments(from, looks, Awaiting(n)) && looks != [] && LastOf(from, looks) == Snapshot()
      ensures SameLate(old(workers), workers) && sleeps == old(sleeps) + |looks| - 1
      ensures Handshake(looks, n, workers[n].st == 0)
    {
      var tryTimes := 0;
      var state := workers[n].st;
      MomentsMore(from, [], Snapshot(), Awaiting(n));
      looks := [] + [Snapshot()];
      while state == 0 && tryTimes < 10
        invariant |workers| == n + 1 && SameLate(old(workers), workers) && state == workers[n].st
        invariant |looks| == tryTimes + 1 <= 11 && sleeps == old(sleeps) + tryTimes
        invariant Moments(from, looks, Awaiting(n)) && LastOf(from, looks) == Snapshot()
        invariant NotStarted(looks[..tryTimes], n)
        decreases 10 - tryTimes
      {
        NotStartedMore(looks, n);
        ghost var pre := looks;
        state := LookAgain(n, from, looks);
        tryTimes := tryTimes + 1;
        looks := pre + [Snapshot()];
        assert looks[..tryTimes] == pre;
      }
    }

    /** Lines 212-226. The new worker is listed in any case, and late exactly if all eleven
        looks found it not started. `looks` are the moments of the looks. */
    method CreateNewThread(ghost from: State) returns (ghost looks: seq<State>)
      requires adder.Spawn? && mtx == Adder && listed == |workers| && Leads(Cfg(), from, Snapshot())
      modifies `workers, `calls, `skipped, `listed, `adder, `timeouts, `sleeps
      ensures Moments(from, looks, Awaiting(|old(workers)|)) && Leads(Cfg(), LastOf(from, looks), Snapshot())
      ensures |workers| == |old(workers)| + 1 && listed == |workers| && SameLate(old(workers), workers[..|workers| - 1])
      ensures adder == if old(adder).boot then Init else AdderPc.Unlock
      ensures Handshake(looks, |old(workers)|, workers[|workers| - 1].late) && sleeps == old(sleeps) + |looks| - 1
      ensures var w := workers[|workers| - 1];
              if w.late then w.st == 0 && timeouts == old(timeouts) + 1 else w.st != 0 && timeouts == old(timeouts)
    {
      var n := |workers|;
      StartThread(from);
      looks := WaitForStart(n, from);
      LeadsSelf(Cfg(), Snapshot());
      Enlist(Snapshot());
    }

    /** None of the looks found worker n started. */
    static ghost predicate NotStarted(looks: seq<State>, n: nat) {
      forall j :: 0 <= j < |looks| ==> n < |looks[j].threads| && looks[j].threads[n].st == 0
    }

    static lemma NotStartedMore(looks: seq<State>, n: nat)
      requires looks != [] && NotStarted(looks[..|looks| - 1], n)
      requires n < |looks[|looks| - 1].threads| && looks[|looks| - 1].threads[n].st == 0
      ensures NotStarted(looks, n)
    {
      forall j | 0 <= j < |looks| ensures n < |looks[j].threads| && looks[j].threads[n].st == 0 {
        assert j < |looks| - 1 ==> looks[..|looks| - 1][j] == looks[j];
      }
    }

    /** The looks end with the first that finds worker n started, or after the eleventh. */
    static ghost predicate Handshake(looks: seq<State>, n: nat, late: bool) {
      && 1 <= |looks| <= 11 && NotStarted(looks[..|looks| - 1], n)
      && n < |looks[|looks| - 1].threads| && (late <==> looks[|looks| - 1].threads[n].st == 0)
      && (late ==> |looks| == 11)
    }

    /** Lines 222-225. */
    method Enlist(ghost from: State)
      requires adder.Await? && listed + 1 == |workers| && !workers[listed].late && Leads(Cfg(), from, Snapshot())
      modifies `workers, `listed, `adder, `timeouts
      ensures Leads(Cfg(), from, Snapshot())
      ensures listed == |workers| == |old(workers)| && workers[..|workers| - 1] == old(workers)[..|workers| - 1]
      ensures workers[|workers| - 1].st == old(workers)[|workers| - 1].st
      ensures adder == if old(adder).boot then Init else AdderPc.Unlock
      ensures var w := workers[|workers| - 1];
              if w.late then w.st == 0 && timeouts == old(timeouts) + 1 else w.st != 0 && timeouts == old(timeouts)
    {
      ghost var s := Snapshot();
      var n := listed;
      listed := listed + 1;
      adder := if adder.boot then Init else AdderPc.Unlock;
      if workers[n].st == 0 {
        workers := workers[n := workers[n].(late := true)];
        timeouts := timeouts + 1;
        LeadsStep(Cfg(), from, s, Timeout, Snapshot());
      } else {
        LeadsStep(Cfg(), from, s, A, Snapshot());
      }
    }

    /** Lines 110-127, entered with the mutex just taken and no workers. `looks` are those at
        each new worker. */
    method InitTaskPool() returns (ghost looks: seq<seq<State>>)
      requires Snapshot() == INITIAL && minNum <= 65535
      modifies this
      ensures Reachable(Cfg(), Snapshot()) && mtx == Free && adder == Idle && ready
      ensures listed == |workers| == minNum && validThreadNums == 0 && tasks == []
      ensures |looks| == minNum && Greeted(looks, workers)
    {
      LeadsSelf(Cfg(), INITIAL);
      var tsize := minNum;
      var i := 0;
      looks := [];
      while i < tsize
        invariant i <= tsize && Leads(Cfg(), INITIAL, Snapshot()) && listed == |workers| == i
        invariant mtx == Adder && adder == Init && validThreadNums == 0 && tasks == []
        invariant |looks| == i && Greeted(looks, workers)
      {
        ghost var before := workers;
        ghost var one := CreateInPool();
        GreetedMore(looks, before, one, workers);
        looks := looks + [one];
        i := i + 1;
      }
      ghost var s := Snapshot();
      adder := AdderPc.Unlock;
      LeadsStep(Cfg(), INITIAL, s, A, Snapshot());
      Release(INITIAL);
    }

    /** Line 122. */
    method CreateInPool() returns (ghost looks: seq<State>)
      requires adder == Init && mtx == Adder && listed == |workers| < minNum && Leads(Cfg(), INITIAL, Snapshot())
      modifies `workers, `calls, `skipped, `listed, `adder, `timeouts, `sleeps
      ensures Leads(Cfg(), INITIAL, Snapshot()) && adder == Init
      ensures |workers| == |old(workers)| + 1 && listed == |workers| && SameLate(old(workers), workers[..|workers| - 1])
      ensures Moments(INITIAL, looks, Awaiting(|old(workers)|))
      ensures Handshake(looks, |old(workers)|, workers[|workers| - 1].late)
    {
      ghost var s := Snapshot();
      adder := Spawn(true);
      LeadsStep(Cfg(), INITIAL, s, A, Snapshot());
      looks := CreateNewThread(INITIAL);
      MomentsLead(INITIAL, looks, Awaiting(|old(workers)|));
      LeadsTrans(Cfg(), INITIAL, LastOf(INITIAL, looks), Snapshot());
    }

    /** Every worker was waited for, and is late exactly if that was given up. */
    ghost predicate Greeted(looks: seq<seq<State>>, ws: seq<Worker>) {
      |looks| == |ws| && forall i :: 0 <= i < |ws| ==>
        Moments(INITIAL, looks[i], Awaiting(i)) && Handshake(looks[i], i, ws[i].late)
    }

    lemma GreetedMore(looks: seq<seq<State>>, ws: seq<Worker>, one: seq<State>, xs: seq<Worker>)
      requires Greeted(looks, ws) && |xs| == |ws| + 1 && SameLate(ws, xs[..|ws|])
      requires Moments(INITIAL, one, Awaiting(|ws|)) && Handshake(one, |ws|, xs[|ws|].late)
      ensures Greeted(looks + [one], xs)
    {
      forall i | 0 <= i < |xs|
        ensures Moments(INITIAL, (looks + [one])[i], Awaiting(i)) && Handshake((looks + [one])[i], i, xs[i].late)
      {
        assert i < |ws| ==> xs[..|ws|][i].late == ws[i].late;
      }
    }

    method Release(ghost from: State)
      requires adder.Unlock? && Leads(Cfg(), from, Snapshot())
      modifies `mtx, `adder, `ready
      ensures Leads(Cfg(), from, Snapshot())
      ensures mtx == Free && adder == Idle && ready
    {
      ghost var s := Snapshot();
      mtx := Free;
      adder := Idle;
      ready := true;
      LeadsStep(Cfg(), from, s, A, Snapshot());
    }

    /** `addTask`: the task is queued last; a worker is created exactly if the counter is
        below the maximum and each listed worker was not idle at the moment it was read.
        `seen` are those moments and `looks` those at which a new worker is looked at, one
        after another on the way to the final state. */
    method AddTask(task: Task) returns (created: bool, ghost seen: seq<State>, ghost looks: seq<State>)
      requires mtx == Free && adder == Idle && ready && listed == |workers|
      modifies `mtx, `adder, `ready, `tasks, `added, `workers, `listed, `calls, `skipped, `timeouts, `sleeps
      ensures Moments(old(Snapshot()), seen, Scanning())
      ensures Moments(LastOf(old(Snapshot()), seen), looks, Awaiting(|old(workers)|))
      ensures Leads(Cfg(), LastOf(LastOf(old(Snapshot()), seen), looks), Snapshot())
      ensures Leads(Cfg(), old(Snapshot()), Snapshot())
      ensures mtx == Free && adder == Idle && ready && listed == |workers|
      ensures tasks == old(tasks) + [task] && added == old(added) + [task]
      ensures |workers| == |old(workers)| + if created then 1 else 0
      ensures created <==> validThreadNums < maxNum && |seen| == |old(workers)| && NoneIdle(seen)
      ensures !created && validThreadNums < maxNum ==> seen != [] && IdleIn(seen, |seen| - 1)
      ensures if created then Handshake(looks, |old(workers)|, workers[|workers| - 1].late) else looks == []
    {
      ghost var from := Snapshot();
      PushTask(task);
      created, seen, looks := CreateIfNeeded(from);
      Release(LastOf(LastOf(from, seen), looks));
      TwoParts(from, seen, looks, |old(workers)|, Snapshot());
    }

    /** Lines 135-152. */
    method CreateIfNeeded(ghost from: State) returns (created: bool, ghost seen: seq<State>, ghost looks: seq<State>)
      requires mtx == Adder && listed == |workers| && Leads(Cfg(), from, Snapshot())
      requires adder == if validThreadNums < maxNum then Scan(0) else AdderPc.Unlock
      modifies `workers, `calls, `skipped, `listed, `adder, `timeouts, `sleeps
      ensures Moments(from, seen, Scanning()) && Moments(LastOf(from, seen), looks, Awaiting(|old(workers)|))
      ensures Leads(Cfg(), LastOf(LastOf(from, seen), looks), Snapshot()) && adder == AdderPc.Unlock
      ensures |workers| == |old(workers)| + (if created then 1 else 0) && listed == |workers|
      ensures created <==> validThreadNums < maxNum && |seen| == |old(workers)| && NoneIdle(seen)
      ensures !created && validThreadNums < maxNum ==> seen != [] && IdleIn(seen, |seen| - 1)
      ensures if created then Handshake(looks, |old(workers)|, workers[|workers| - 1].late) else looks == []
    {
      created, seen, looks := false, [], [];
      if validThreadNums < maxNum {
        created, seen, looks := CreateUnlessIdle(from);
      }
    }

    /** From the first moment to the last. */
    lemma TwoParts(from: State, seen: seq<State>, looks: seq<State>, n: nat, t: State)
      requires Moments(from, seen, Scanning()) && Moments(LastOf(from, seen), looks, Awaiting(n))
      requires Leads(Cfg(), LastOf(LastOf(from, seen), looks), t)
      ensures Leads(Cfg(), from, t)
    {
      MomentsLead(from, seen, Scanning());
      MomentsLead(LastOf(from, seen), looks, Awaiting(n));
      LeadsTrans(Cfg(), from, LastOf(from, seen), LastOf(LastOf(from, seen), looks));
      LeadsTrans(Cfg(), from, LastOf(LastOf(from, seen), looks), t);
    }

    /** Lines 136-151. */
    method CreateUnlessIdle(ghost from: State) returns (created: bool, ghost seen: seq<State>, ghost looks: seq<State>)
      requires adder == Scan(0) && mtx == Adder && listed == |workers| && Leads(Cfg(), from, Snapshot())
      modifies `workers, `calls, `skipped, `listed, `adder, `timeouts, `sleeps
      ensures Moments(from, seen, Scanning()) && Moments(LastOf(from, seen), looks, Awaiting(|old(workers)|))
      ensures Leads(Cfg(), LastOf(LastOf(from, seen), looks), Snapshot()) && adder == AdderPc.Unlock
      ensures |workers| == |old(workers)| + (if created then 1 else 0) && listed == |workers|
      ensures created <==> |seen| == |old(workers)| && NoneIdle(seen)
      ensures !created ==> seen != [] && IdleIn(seen, |seen| - 1)
      ensures if created then Handshake(looks, |old(workers)|, workers[|workers| - 1].late) else looks == []
    {
      var idleThread;
      idleThread, seen := FindIdle(from);
      created := idleThread == 0;
      looks := [];
      if created {
        looks := CreateForTask(LastOf(from, seen));
      }
    }

    /** Line 150. */
    method CreateForTask(ghost from: State) returns (ghost looks: seq<State>)
      requires adder == Scan(listed) && mtx == Adder && listed == |workers| && Leads(Cfg(), from, Snapshot())
      modifies `workers, `calls, `skipped, `listed, `adder, `timeouts, `sleeps
      ensures Moments(from, looks, Awaiting(|old(workers)|)) && Leads(Cfg(), LastOf(from, looks), Snapshot())
      ensures |workers| == |old(workers)| + 1 && listed == |workers| && adder == AdderPc.Unlock
      ensures Handshake(looks, |old(workers)|, workers[|workers| - 1].late)
    {
      ghost var s := Snapshot();
      adder := Spawn(false);
      LeadsStep(Cfg(), from, s, A, Snapshot());
      looks := CreateNewThread(from);
    }

    /** The last of some moments after `from`. */
    static ghost function LastOf(from: State, seen: seq<State>): State {
      if seen == [] then from else seen[|seen| - 1]
    }

    /** Moments of a run, one after another, of which the j-th is as it should be. */
    ghost predicate Moments(from: State, seen: seq<State>, ok: (State, nat) -> bool)
      decreases |seen|
    {
      seen == [] ||
      (var pre, j := seen[..|seen| - 1], |seen| - 1;
       Moments(from, pre, ok) && Leads(Cfg(), LastOf(from, pre), seen[j]) && ok(seen[j], j))
    }

    /** The scan is at worker j. */
    static ghost function Scanning(): (State, nat) -> bool {
      (s: State, j: nat) => s.mtx == Adder && s.adder == Scan(j) && j < |s.threads|
    }

    /** Worker n has been started and is waited for. */
    static ghost function Awaiting(n: nat): (State, nat) -> bool {
      (s: State, _) => s.mtx == Adder && s.adder.Await? && |s.threads| == n + 1
    }

    lemma {:induction false} MomentsLead(from: State, seen: seq<State>, ok: (State, nat) -> bool)
      requires Moments(from, seen, ok)
      ensures Leads(Cfg(), from, LastOf(from, seen))
      decreases |seen|
    {
      if seen == [] {
        LeadsSelf(Cfg(), from);
      } else {
        var pre := seen[..|seen| - 1];
        MomentsLead(from, pre, ok);
        LeadsTrans(Cfg(), from, LastOf(from, pre), LastOf(from, seen));
      }
    }

    lemma MomentsMore(from: State, seen: seq<State>, s: State, ok: (State, nat) -> bool)
      requires Moments(from, seen, ok) && Leads(Cfg(), LastOf(from, seen), s) && ok(s, |seen|)
      ensures Moments(from, seen + [s], ok) && LastOf(from, seen + [s]) == s
    {
      assert (seen + [s])[..|seen|] == seen;
    }

    /** The worker looked at j-th counted as idle. */
    static ghost predicate IdleIn(seen: seq<State>, j: nat)
      requires j < |seen|
    {
      j < |seen[j].threads| && seen[j].threads[j].st == 1
    }

    static ghost predicate NoneIdle(seen: seq<State>) {
      forall j :: 0 <= j < |seen| ==> !IdleIn(seen, j)
    }

    static lemma IdleMore(seen: seq<State>, s: State)
      requires |seen| < |s.threads|
      ensures IdleIn(seen + [s], |seen|) <==> s.threads[|seen|].st == 1
      ensures NoneIdle(seen) && s.threads[|seen|].st != 1 ==> NoneIdle(seen + [s])
    {
      assert forall j :: 0 <= j < |seen| && !IdleIn(seen, j) ==> !IdleIn(seen + [s], j);
    }

    /** Lines 131-134. */
    method PushTask(task: Task)
      requires mtx == Free && adder == Idle
      modifies `mtx, `adder, `tasks, `added
      ensures Leads(Cfg(), old(Snapshot()), Snapshot())
      ensures mtx == Adder && tasks == old(tasks) + [task] && added == old(added) + [task]
      ensures adder == if validThreadNums < maxNum then Scan(0) else AdderPc.Unlock
    {
      ghost var from := Snapshot();
      LeadsSelf(Cfg(), from);
      mtx := Adder;
      adder := Push(task);
      LeadsStep(Cfg(), from, from, AddLock(task), Snapshot());
      ghost var s := Snapshot();
      tasks := tasks + [task];
      added := added + [task];
      adder := if validThreadNums < maxNum then Scan(0) else AdderPc.Unlock;
      LeadsStep(Cfg(), from, s, A, Snapshot());
    }

    /** The loop of lines 138-146. The workers move between one look and the next. */
    method FindIdle(ghost from: State) returns (idleThread: nat, ghost seen: seq<State>)
      requires adder == Scan(0) && mtx == Adder && listed == |workers| && Leads(Cfg(), from, Snapshot())
      modifies `adder, `workers, `calls, `skipped
      ensures Moments(from, seen, Scanning()) && Leads(Cfg(), LastOf(from, seen), Snapshot())
      ensures |workers| == |old(workers)|
      ensures idleThread == 0 <==> |seen| == listed && NoneIdle(seen)
      ensures idleThread != 0 ==> seen != [] && IdleIn(seen, |seen| - 1)
      ensures adder == if idleThread == 0 then Scan(listed) else AdderPc.Unlock
    {
      idleThread, seen := 0, [];
      var i := 0;
      while i < listed
        invariant 0 <= i <= listed == |workers| && adder == Scan(i)
        invariant Moments(from, seen, Scanning()) && Leads(Cfg(), LastOf(from, seen), Snapshot())
        invariant |seen| == i && NoneIdle(seen)
        invariant idleThread == 0
      {
        var idle;
        idle, seen := LookNext(i, from, seen);
        if idle {
          idleThread := idleThread + 1;
          return;
        }
        i := i + 1;
      }
    }

    /** The look at worker i, after the workers have moved. */
    method LookNext(i: nat, ghost from: State, ghost seen: seq<State>) returns (idle: bool, ghost now: seq<State>)
      requires i < listed == |workers| && mtx == Adder && adder == Scan(i)
      requires Moments(from, seen, Scanning()) && Leads(Cfg(), LastOf(from, seen), Snapshot())
      requires |seen| == i && NoneIdle(seen)
      modifies `adder, `workers, `calls, `skipped
      ensures Moments(from, now, Scanning()) && Leads(Cfg(), LastOf(from, now), Snapshot())
      ensures |workers| == |old(workers)| && |now| == i + 1 && adder == if idle then AdderPc.Unlock else Scan(i + 1)
      ensures if idle then IdleIn(now, i) else NoneIdle(now)
    {
      OthersMove(LastOf(from, seen));
      MomentsMore(from, seen, Snapshot(), Scanning());
      IdleMore(seen, Snapshot());
      now := seen + [Snapshot()];
      LeadsSelf(Cfg(), Snapshot());
      idle := Look(i, Snapshot());
    }

    /** Line 140. */
    method Look(i: nat, ghost from: State) returns (idle: bool)
      requires adder == Scan(i) && i < listed == |workers| && Leads(Cfg(), from, Snapshot())
      modifies `adder
      ensures Leads(Cfg(), from, Snapshot())
      ensures idle <==> workers[i].st == 1
      ensures adder == if idle then AdderPc.Unlock else Scan(i + 1)
    {
      ghost var s := Snapshot();
      idle := workers[i].st == 1;
      adder := if idle then AdderPc.Unlock else Scan(i + 1);
      LeadsStep(Cfg(), from, s, A, Snapshot());
    }

    /** Lines 28-30, from having the mutex to letting it go. */
    method Register(i: nat)
      requires i < |workers| && workers[i].pc == RegIn && mtx == By(i)
      modifies this
      ensures Apply(Cfg(), old(Snapshot()), W(i)) == Some(Snapshot())
      ensures old(validThreadNums) < 65535 ==> validThreadNums == old(validThreadNums) + 1
    {
      validThreadNums := (validThreadNums + 1) % 65536;
      mtx := Free;
      workers := workers[i := workers[i].(pc := Top, free := 0)];
    }

    /** Lines 40-53: the first queued task, or one more empty poll. */
    method Poll(i: nat) returns (task: Option<Task>)
      requires i < |workers| && workers[i].pc == PollIn && mtx == By(i)
      modifies this
      ensures Apply(Cfg(), old(Snapshot()), W(i)) == Some(Snapshot())
      ensures task.None? <==> old(tasks) == []
      ensures task.Some? ==> old(tasks) == [task.value] + tasks && workers[i].free == 0
      ensures task.None? ==> tasks == [] && workers[i].free == (old(workers)[i].free + 1) % 65536
    {
      var w := workers[i];
      if |tasks| > 0 {
        task := Some(tasks[0]);
        workers := workers[i := w.(pc := Got, held := Some(Ticket(|popped|, tasks[0])), free := 0)];
        popped := popped + [tasks[0]];
        tasks := tasks[1..];
        mtx := Free;
      } else {
        task := None;
        mtx := Free;
        workers := workers[i := w.(pc := Clear, free := (w.free + 1) % 65536)];
      }
    }

    /** `needReleaseTaskThread`, called by worker i, and the branch on its result. */
    method NeedReleaseTaskThread(i: nat) returns (isNeed: bool)
      requires i < |workers| && workers[i].pc == CheckIn && mtx == By(i)
      modifies this
      ensures Apply(Cfg(), old(Snapshot()), W(i)) == Some(Snapshot())
      ensures isNeed <==> validThreadNums > minNum
      ensures validThreadNums == old(validThreadNums) && tasks == old(tasks)
      ensures workers == old(workers)[i := old(workers)[i].(pc := if isNeed then Exit else Wait)]
    {
      isNeed := false;
      if validThreadNums > minNum {
        isNeed := true;
      }
      mtx := Free;
      workers := workers[i := workers[i].(pc := if isNeed then Exit else Wait)];
      if isNeed {
        peak := Max(peak, Count(workers, Leaving));
      }
    }

    /** Lines 81-83. */
    method Unregister(i: nat)
      requires i < |workers| && workers[i].pc == ExitIn && mtx == By(i)
      modifies this
      ensures Apply(Cfg(), old(Snapshot()), W(i)) == Some(Snapshot())
      ensures 0 < old(validThreadNums) <= 65535 ==> validThreadNums == old(validThreadNums) - 1
    {
      validThreadNums := (validThreadNums + 65535) % 65536;
      mtx := Free;
      workers := workers[i := workers[i].(pc := Gone)];
    }
  }
}
