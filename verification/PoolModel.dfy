/** `threadPool` as interleaved steps. Every worker has its own program counter; the mutex
    has a holder; a worker's state is written outside the mutex; the idle scan of
    `addTask` reads one worker at a time; and a wait may return at any moment.
    Line numbers are those of server/threadPool/threadpool.cpp. */
module PoolModel {
  import opened Bytes
  import opened Streams

  /** A task, or None for a null task or one without a worker object. */
  type Task = Option<Queued>

  /** Where a worker is in `threadfun`. Each `...In` counter holds the mutex. */
  datatype Pc =
    | Start       // before line 20: state is still 0
    | RegWait     // before the lock of line 28
    | RegIn       // line 29
    | Top         // before the lock of line 39
    | PollIn      // lines 40-53
    | Got         // line 55, with a task popped
    | Busy        // line 58
    | Clear       // line 65
    | Decide      // lines 66-70
    | CheckWait   // before the lock of line 161
    | CheckIn     // lines 163-167
    | Exit        // line 80
    | ExitWait    // before the lock of line 81
    | ExitIn      // line 82
    | Wait        // line 75
    | Gone        // after line 83

  /** A popped task and its position in the order of popping. */
  datatype Ticket = Ticket(n: nat, task: Task)

  /** `st` is `m_state`, `free` is `ifreeTime`. History: `late` marks a worker for which the
      start handshake was given up. */
  datatype Worker = Worker(pc: Pc, st: int, free: nat, held: Option<Ticket>, late: bool)

  datatype Holder = Free | Adder | By(i: nat)

  /** Where the holder of the mutex in `initTaskPool` or `addTask` is. */
  datatype AdderPc =
    | Idle
    | Init                  // lines 118-124
    | Push(task: Task)      // lines 133-134
    | Scan(i: nat)          // lines 138-147
    | Spawn(boot: bool)     // lines 196-213
    | Await(boot: bool)     // lines 217-224
    | Unlock                // line 125 or 153

  /** The code gives the start handshake of line 217 up after ten tries. In a patient pool
      no worker takes that long to start. */
  datatype Config = Config(min: nat, max: nat, patient: bool)

  predicate ConfigOk(c: Config) {
    1 <= c.min <= c.max <= 65535
  }

  /** `threads` are all workers ever started, `listed` those already in `m_threads`, `valid` is
      `m_validThreadNums`. History: `added`, `popped`, the tickets whose task was passed to
      `onTaskProcessor` (`calls`) or skipped (`skipped`), the most workers that were ever at
      once between a successful release check and their decrement (`peak`), and how often
      the start handshake was given up (`timeouts`). */
  datatype State = State(
    threads: seq<Worker>, listed: nat, mtx: Holder, adder: AdderPc, ready: bool,
    valid: nat, queue: seq<Task>,
    added: seq<Task>, popped: seq<Task>, calls: seq<nat>, skipped: seq<nat>, peak: nat, timeouts: nat)

  const INITIAL := State([], 0, Adder, Init, false, 0, [], [], [], [], [], 0, 0)

  const CHECK_TIMES := 30 / 10 + 1

  // ----- Counting workers -----

  datatype Kind = Registered | Unregistered | Leaving | Present | Late

  predicate Is(w: Worker, k: Kind) {
    match k
    case Unregistered => w.pc in {Start, RegWait, RegIn}
    case Registered => w.pc !in {Start, RegWait, RegIn, Gone}
    case Leaving => w.pc in {Exit, ExitWait, ExitIn}
    case Present => w.pc !in {Exit, ExitWait, ExitIn, Gone}
    case Late => w.late
  }

  /** A sum over workers. */
  function Sum(ws: seq<Worker>, f: Worker -> nat): nat {
    if ws == [] then 0 else Sum(ws[..|ws| - 1], f) + f(ws[|ws| - 1])
  }

  function OfKind(k: Kind): Worker -> nat {
    (w: Worker) => if Is(w, k) then 1 else 0
  }

  function Count(ws: seq<Worker>, k: Kind): nat {
    Sum(ws, OfKind(k))
  }

  // ----- Steps -----

  datatype Label =
    | AddLock(task: Task)   // a call of addTask gets the mutex
    | A                     // the holder in addTask or initTaskPool goes on
    | Timeout               // the start handshake gives up
    | W(i: nat)             // worker i goes on

  /** A worker goes on without touching the mutex. */
  function Local(s: State, i: nat, w: Worker): State
    requires i < |s.threads|
  {
    s.(threads := s.threads[i := w])
  }

  /** A worker gets the mutex, if it is free. */
  function Acquire(s: State, i: nat, pc: Pc): Option<State>
    requires i < |s.threads|
  {
    if s.mtx == Free then Some(s.(threads := s.threads[i := s.threads[i].(pc := pc)], mtx := By(i))) else None
  }

  function Max(a: nat, b: nat): nat {
    if a < b then b else a
  }

  /** The critical section of lines 39-53. */
  function Poll(s: State, i: nat): State
    requires i < |s.threads|
  {
    var w := s.threads[i];
    if s.queue != [] then
      var w' := w.(pc := Got, held := Some(Ticket(|s.popped|, s.queue[0])), free := 0);
      s.(threads := s.threads[i := w'], queue := s.queue[1..], popped := s.popped + [s.queue[0]], mtx := Free)
    else
      var w' := w.(pc := Clear, free := (w.free + 1) % 65536);
      s.(threads := s.threads[i := w'], mtx := Free)
  }

  /** The critical section of `needReleaseTaskThread` and the branch on its result. */
  function Check(c: Config, s: State, i: nat): State
    requires i < |s.threads|
  {
    var w := s.threads[i];
    if s.valid > c.min then
      var ws := s.threads[i := w.(pc := Exit)];
      s.(threads := ws, mtx := Free, peak := Max(s.peak, Count(ws, Leaving)))
    else
      s.(threads := s.threads[i := w.(pc := Wait)], mtx := Free)
  }

  /** Lines 55-58: the task is passed to its worker object, or skipped. */
  function Begin(s: State, i: nat): Option<State>
    requires i < |s.threads|
  {
    var w := s.threads[i];
    if w.held.None? then None
    else if w.held.value.task.Some? then
      Some(s.(threads := s.threads[i := w.(pc := Busy, st := 2)], calls := s.calls + [w.held.value.n]))
    else
      Some(s.(threads := s.threads[i := w.(pc := Clear, held := None)], skipped := s.skipped + [w.held.value.n]))
  }

  /** The next step of worker i, if it can make one. */
  function WorkerStep(c: Config, s: State, i: nat): Option<State>
    requires i < |s.threads|
  {
    var w := s.threads[i];
    match w.pc
    case Start => Some(Local(s, i, w.(pc := RegWait, st := 1)))
    case RegWait => Acquire(s, i, RegIn)
    case RegIn => Some(Local(s, i, w.(pc := Top, free := 0)).(valid := (s.valid + 1) % 65536, mtx := Free))
    case Top => Acquire(s, i, PollIn)
    case PollIn => Some(Poll(s, i))
    case Got => Begin(s, i)
    case Busy => Some(Local(s, i, w.(pc := Clear, held := None)))
    case Clear => Some(Local(s, i, w.(pc := Decide, st := 1)))
    case Decide =>
      Some(Local(s, i, w.(pc := if w.free == 0 then Top else if w.free >= CHECK_TIMES then CheckWait else Wait)))
    case CheckWait => Acquire(s, i, CheckIn)
    case CheckIn => Some(Check(c, s, i))
    case Exit => Some(Local(s, i, w.(pc := ExitWait, st := 3)))
    case ExitWait => Acquire(s, i, ExitIn)
    case ExitIn => Some(Local(s, i, w.(pc := Gone)).(valid := (s.valid + 65535) % 65536, mtx := Free))
    case Wait => Some(Local(s, i, w.(pc := Top)))
    case Gone => None
  }

  const NEW_WORKER := Worker(Start, 0, 0, None, false)

  /** The next step under the mutex of `initTaskPool` or `addTask`. */
  function AdderStep(c: Config, s: State): Option<State> {
    match s.adder
    case Idle => None
    case Init => Some(s.(adder := if s.listed < c.min then Spawn(true) else Unlock))
    case Push(t) =>
      Some(s.(queue := s.queue + [t], added := s.added + [t], adder := if s.valid < c.max then Scan(0) else Unlock))
    case Scan(i) =>
      if i < s.listed && i < |s.threads| then
        Some(s.(adder := if s.threads[i].st == 1 then Unlock else Scan(i + 1)))
      else Some(s.(adder := Spawn(false)))
    case Spawn(boot) => Some(s.(threads := s.threads + [NEW_WORKER], adder := Await(boot)))
    case Await(boot) =>
      if s.threads == [] || s.threads[|s.threads| - 1].st == 0 then None
      else Some(Enlist(s))
    case Unlock => Some(s.(mtx := Free, adder := Idle, ready := true))
  }

  /** Lines 221-226: the new worker enters the list, whatever the handshake said. */
  function Enlist(s: State): State
    requires s.adder.Await?
  {
    s.(listed := s.listed + 1, adder := if s.adder.boot then Init else Unlock)
  }

  function Apply(c: Config, s: State, l: Label): Option<State> {
    match l
    case AddLock(t) => if s.mtx == Free && s.adder.Idle? then Some(s.(mtx := Adder, adder := Push(t))) else None
    case A => AdderStep(c, s)
    case Timeout =>
      if c.patient || !s.adder.Await? || s.threads == [] || s.threads[|s.threads| - 1].st != 0 then None
      else
        var n := |s.threads| - 1;
        Some(Enlist(s).(threads := s.threads[n := s.threads[n].(late := true)], timeouts := s.timeouts + 1))
    case W(i) => if i < |s.threads| then WorkerStep(c, s, i) else None
  }

  /** A run of steps, first to last. */
  function Exec(c: Config, s: State, ls: seq<Label>): Option<State>
    decreases |ls|
  {
    if ls == [] then Some(s)
    else
      var s' := Apply(c, s, ls[0]);
      if s'.None? then None else Exec(c, s'.value, ls[1..])
  }

  ghost predicate Leads(c: Config, s: State, t: State) {
    exists ls :: Exec(c, s, ls) == Some(t)
  }

  ghost predicate Reachable(c: Config, s: State) {
    Leads(c, INITIAL, s)
  }

  lemma {:induction false} ExecAppend(c: Config, s: State, a: seq<Label>, b: seq<Label>)
    ensures Exec(c, s, a + b) == var m := Exec(c, s, a); if m.None? then None else Exec(c, m.value, b)
    decreases |a|
  {
    if a == [] {
      assert a + b == b;
    } else {
      assert (a + b)[1..] == a[1..] + b;
      var s' := Apply(c, s, a[0]);
      if s'.Some? {
        ExecAppend(c, s'.value, a[1..], b);
      }
    }
  }

  lemma LeadsSelf(c: Config, s: State)
    ensures Leads(c, s, s)
  {
    assert Exec(c, s, []) == Some(s);
  }

  lemma LeadsTrans(c: Config, s: State, t: State, u: State)
    requires Leads(c, s, t) && Leads(c, t, u)
    ensures Leads(c, s, u)
  {
    var a :| Exec(c, s, a) == Some(t);
    var b :| Exec(c, t, b) == Some(u);
    ExecAppend(c, s, a, b);
  }

  lemma LeadsStep(c: Config, s: State, t: State, l: Label, u: State)
    requires Leads(c, s, t) && Apply(c, t, l) == Some(u)
    ensures Leads(c, s, u)
  {
    assert Exec(c, u, [l][1..]) == Some(u);
    assert Exec(c, t, [l]) == Some(u);
    LeadsTrans(c, s, t, u);
  }

  // ----- Sums and counts, step by step -----

  lemma {:induction false} SumUpdate(ws: seq<Worker>, i: nat, w: Worker, f: Worker -> nat)
    requires i < |ws|
    ensures Sum(ws[i := w], f) == Sum(ws, f) - f(ws[i]) + f(w)
    decreases |ws|
  {
    var m := |ws| - 1;
    if i == m {
      assert ws[i := w][..m] == ws[..m];
    } else {
      SumUpdate(ws[..m], i, w, f);
      assert ws[i := w][..m] == ws[..m][i := w];
    }
  }

  lemma SumAppend(ws: seq<Worker>, w: Worker, f: Worker -> nat)
    ensures Sum(ws + [w], f) == Sum(ws, f) + f(w)
  {
    assert (ws + [w])[..|ws|] == ws;
  }

  lemma {:induction false} SumBound(ws: seq<Worker>, f: Worker -> nat, k: nat)
    requires forall w :: f(w) <= k
    ensures Sum(ws, f) <= k * |ws|
    decreases |ws|
  {
    if ws != [] {
      SumBound(ws[..|ws| - 1], f, k);
      assert k * |ws| == k * (|ws| - 1) + k;
    }
  }

  lemma CountUpdate(ws: seq<Worker>, i: nat, w: Worker, k: Kind)
    requires i < |ws|
    ensures Count(ws[i := w], k) == Count(ws, k) - (if Is(ws[i], k) then 1 else 0) + (if Is(w, k) then 1 else 0)
  {
    SumUpdate(ws, i, w, OfKind(k));
  }

  lemma CountAppend(ws: seq<Worker>, w: Worker, k: Kind)
    ensures Count(ws + [w], k) == Count(ws, k) + if Is(w, k) then 1 else 0
  {
    SumAppend(ws, w, OfKind(k));
  }

  lemma {:induction false} CountZero(ws: seq<Worker>, k: Kind)
    ensures Count(ws, k) == 0 <==> forall i :: 0 <= i < |ws| ==> !Is(ws[i], k)
    decreases |ws|
  {
    if ws != [] {
      CountZero(ws[..|ws| - 1], k);
    }
  }

  lemma {:induction false} CountAll(ws: seq<Worker>, k: Kind)
    requires forall i :: 0 <= i < |ws| ==> Is(ws[i], k)
    ensures Count(ws, k) == |ws|
    decreases |ws|
  {
    if ws != [] {
      CountAll(ws[..|ws| - 1], k);
    }
  }

  lemma {:induction false} CountWithin(ws: seq<Worker>, k: Kind, m: Kind)
    requires forall i :: 0 <= i < |ws| && Is(ws[i], k) ==> Is(ws[i], m)
    ensures Count(ws, k) <= Count(ws, m)
    decreases |ws|
  {
    if ws != [] {
      CountWithin(ws[..|ws| - 1], k, m);
    }
  }

  /** Workers that are neither leaving nor gone are the unregistered ones and the
      registered ones that are not leaving. */
  lemma {:induction false} CountPresent(ws: seq<Worker>)
    ensures Count(ws, Present) + Count(ws, Leaving) == Count(ws, Registered) + Count(ws, Unregistered)
    decreases |ws|
  {
    if ws != [] {
      CountPresent(ws[..|ws| - 1]);
    }
  }
}
