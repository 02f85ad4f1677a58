/** What the pool does with tasks: first in, first out, and each handed to `onTaskProcessor`
    at most once. These hold in every run, patient or not. */
module PoolTasks {
  import opened Bytes
  import opened PoolModel

  /** Whether a worker holds ticket n and has not yet passed its task on. */
  predicate WaitsWith(w: Worker, n: nat) {
    w.pc == Got && w.held.Some? && w.held.value.n == n
  }

  function Waits(n: nat): Worker -> nat {
    (w: Worker) => if WaitsWith(w, n) then 1 else 0
  }

  /** How many workers do. */
  function Waiting(ws: seq<Worker>, n: nat): nat {
    Sum(ws, Waits(n))
  }

  /** The places where ticket n can be. */
  function Places(s: State, n: nat): nat {
    Waiting(s.threads, n) + multiset(s.calls)[n] + multiset(s.skipped)[n]
  }

  ghost predicate TicketsOk(s: State) {
    forall n: nat :: Places(s, n) == if n < |s.popped| then 1 else 0
  }

  /** The tasks, in every reachable state. */
  ghost predicate TasksOk(s: State) {
    && s.added == s.popped + s.queue
    && (forall i :: 0 <= i < |s.threads| ==> HeldOk(s, s.threads[i]))
    && TicketsOk(s)
    && (forall n :: n in s.calls ==> n < |s.popped| && s.popped[n].Some?)
    && (forall n :: n in s.skipped ==> n < |s.popped| && s.popped[n].None?)
  }

  predicate HeldOk(s: State, w: Worker) {
    && (w.held.Some? <==> w.pc == Got || w.pc == Busy)
    && (w.held.Some? ==> w.held.value.n < |s.popped| && w.held.value.task == s.popped[w.held.value.n])
    && (w.pc == Busy ==> w.held.value.task.Some?)
  }

  /** What any step of a worker does, as far as tasks are concerned. */
  predicate Serves(s: State, i: nat, t: State)
    requires i < |s.threads|
  {
    && i < |t.threads|
    && t.threads == s.threads[i := t.threads[i]]
    && t.added == s.added
    && var w, w' := s.threads[i], t.threads[i];
    match w.pc
    case PollIn =>
      if s.queue == [] then t.popped == s.popped && t.queue == s.queue && t.calls == s.calls && t.skipped == s.skipped
                            && w'.held == w.held && w'.pc == Clear
      else t.popped == s.popped + [s.queue[0]] && t.queue == s.queue[1..]
           && t.calls == s.calls && t.skipped == s.skipped
           && w'.held == Some(Ticket(|s.popped|, s.queue[0])) && w'.pc == Got
    case Got =>
      && t.popped == s.popped && t.queue == s.queue
      && w.held.Some?
      && (if w.held.value.task.Some?
          then w'.pc == Busy && w'.held == w.held && t.calls == s.calls + [w.held.value.n] && t.skipped == s.skipped
          else w'.pc == Clear && w'.held == None && t.calls == s.calls && t.skipped == s.skipped + [w.held.value.n])
    case Busy =>
      && t.popped == s.popped && t.queue == s.queue && t.calls == s.calls && t.skipped == s.skipped
      && w'.pc == Clear && w'.held == None
    case _ =>
      && t.popped == s.popped && t.queue == s.queue && t.calls == s.calls && t.skipped == s.skipped
      && w'.held == w.held && w'.pc != Got && w'.pc != Busy
  }

  lemma WorkerServes(c: Config, s: State, i: nat, t: State)
    requires i < |s.threads| && WorkerStep(c, s, i) == Some(t)
    ensures Serves(s, i, t)
  {
    if s.threads[i].pc == PollIn {
    } else if s.threads[i].pc == Got {
    } else {
    }
  }

  lemma TicketsWorker(s: State, i: nat, t: State)
    requires TasksOk(s) && i < |s.threads| && Serves(s, i, t)
    ensures TicketsOk(t)
  {
    assert HeldOk(s, s.threads[i]);
    forall n: nat ensures Places(t, n) == if n < |t.popped| then 1 else 0 {
      SumUpdate(s.threads, i, t.threads[i], Waits(n));
      assert Places(s, n) == if n < |s.popped| then 1 else 0;
    }
  }

  lemma TasksWorker(s: State, i: nat, t: State)
    requires TasksOk(s) && i < |s.threads| && Serves(s, i, t)
    ensures TasksOk(t)
  {
    TicketsWorker(s, i, t);
    var w := s.threads[i];
    assert HeldOk(s, w);
    assert t.popped + t.queue == s.popped + s.queue;
    forall j | 0 <= j < |t.threads| ensures HeldOk(t, t.threads[j]) {
      assert HeldOk(s, s.threads[j]);
    }
  }

  lemma TasksAdder(c: Config, s: State, t: State)
    requires TasksOk(s) && AdderStep(c, s) == Some(t)
    ensures TasksOk(t)
  {
    assert t.popped == s.popped && t.calls == s.calls && t.skipped == s.skipped;
    assert t.threads == if s.adder.Spawn? then s.threads + [NEW_WORKER] else s.threads;
    PlacesKept(s, t);
    assert t.added == t.popped + t.queue;
    forall j | 0 <= j < |t.threads| ensures HeldOk(t, t.threads[j]) {
      assert j < |s.threads| ==> HeldOk(s, s.threads[j]);
    }
  }

  lemma PlacesKept(s: State, t: State)
    requires TicketsOk(s) && t.popped == s.popped && t.calls == s.calls && t.skipped == s.skipped
    requires t.threads == s.threads || t.threads == s.threads + [NEW_WORKER]
    ensures TicketsOk(t)
  {
    forall n: nat ensures Places(t, n) == if n < |t.popped| then 1 else 0 {
      SumAppend(s.threads, NEW_WORKER, Waits(n));
      assert Places(s, n) == if n < |s.popped| then 1 else 0;
    }
  }

  lemma TasksTimeout(c: Config, s: State, t: State)
    requires TasksOk(s) && Apply(c, s, Timeout) == Some(t)
    ensures TasksOk(t)
  {
    var m := |s.threads| - 1;
    forall n: nat ensures Places(t, n) == Places(s, n) {
      SumUpdate(s.threads, m, t.threads[m], Waits(n));
    }
    forall j | 0 <= j < |t.threads| ensures HeldOk(t, t.threads[j]) {
      assert HeldOk(s, s.threads[j]);
    }
  }

  lemma TasksStep(c: Config, s: State, l: Label, t: State)
    requires TasksOk(s) && Apply(c, s, l) == Some(t)
    ensures TasksOk(t)
  {
    match l
    case W(i) =>
      WorkerServes(c, s, i, t);
      TasksWorker(s, i, t);
    case A => TasksAdder(c, s, t);
    case Timeout => TasksTimeout(c, s, t);
    case AddLock(_) =>
      assert t.threads == s.threads;
      assert forall n: nat :: Places(t, n) == Places(s, n);
      assert forall j :: 0 <= j < |t.threads| && HeldOk(s, s.threads[j]) ==> HeldOk(t, t.threads[j]);
  }

  lemma {:induction false} TasksRun(c: Config, s: State, ls: seq<Label>)
    requires TasksOk(s) && Exec(c, s, ls).Some?
    ensures TasksOk(Exec(c, s, ls).value)
    decreases |ls|
  {
    if ls != [] {
      TasksStep(c, s, ls[0], Apply(c, s, ls[0]).value);
      TasksRun(c, Apply(c, s, ls[0]).value, ls[1..]);
    }
  }

  /** Task queue exactness: what was popped followed by what is queued is what was added,
      in that order. */
  lemma FirstInFirstOut(c: Config, s: State)
    requires Reachable(c, s)
    ensures s.popped + s.queue == s.added
  {
    var ls :| Exec(c, INITIAL, ls) == Some(s);
    TasksRun(c, INITIAL, ls);
  }

  lemma AtMostOnce(ns: seq<nat>)
    requires forall n: nat :: multiset(ns)[n] <= 1
    ensures forall i, j :: 0 <= i < j < |ns| ==> ns[i] != ns[j]
  {
    forall i, j | 0 <= i < j < |ns| ensures ns[i] != ns[j] {
      assert multiset(ns)[ns[i]] <= 1;
      assert ns == ns[..j] + [ns[j]] + ns[j + 1..];
      assert multiset(ns) == multiset(ns[..j]) + multiset([ns[j]]) + multiset(ns[j + 1..]);
      assert ns[..j][i] == ns[i];
      assert ns[i] in multiset(ns[..j]);
    }
  }

  /** Each popped task is in exactly one place: still with the one worker that popped it,
      passed to `onTaskProcessor` once, or skipped once for having no worker object. */
  lemma ExactlyOnce(c: Config, s: State, n: nat)
    requires Reachable(c, s)
    ensures Waiting(s.threads, n) + multiset(s.calls)[n] + multiset(s.skipped)[n] == if n < |s.popped| then 1 else 0
    ensures forall i, j :: 0 <= i < j < |s.calls| ==> s.calls[i] != s.calls[j]
    ensures n in s.calls ==> s.popped[n].Some?
    ensures n in s.skipped ==> s.popped[n].None?
  {
    var ls :| Exec(c, INITIAL, ls) == Some(s);
    TasksRun(c, INITIAL, ls);
    assert Places(s, n) == if n < |s.popped| then 1 else 0;
    forall k: nat ensures multiset(s.calls)[k] <= 1 {
      assert Places(s, k) <= 1;
    }
    AtMostOnce(s.calls);
  }
}
