/** How a worker spends its time between polls: when it waits, when it asks whether it may
    leave, and when it leaves. The history is read off the run itself, not kept in the state. */
module PoolIdle {
  import opened Bytes
  import opened PoolModel
  import opened PoolSafety

  /** What has happened to a worker: how many empty polls in a row, since its last task or
      from the beginning, without wrapping; and whether, since its last poll, it has run a
      task, has been through the wait of line 75, and through the check of lines 163-167. */
  datatype Since = Since(empty: nat, ran: bool, waited: bool, asked: bool)

  const NOTHING := Since(0, false, false, false)

  /** What one step of a run adds to the history of worker i. */
  function Note(s: State, l: Label, i: nat, h: Since): Since {
    if l != W(i) || i >= |s.threads| then h
    else
      match s.threads[i].pc
      case PollIn => Since(if s.queue == [] then h.empty + 1 else 0, false, false, false)
      case Busy => h.(ran := true)
      case Wait => h.(waited := true)
      case CheckIn => h.(asked := true)
      case _ => h
  }

  function History(c: Config, s: State, ls: seq<Label>, i: nat, h: Since): Since
    requires Exec(c, s, ls).Some?
    decreases |ls|
  {
    if ls == [] then h
    else History(c, Apply(c, s, ls[0]).value, ls[1..], i, Note(s, ls[0], i, h))
  }

  /** What `m_state` shows: 0 before the first line, 2 from before a task is run until after
      it, 3 from the end of the loop, and else 1. */
  function Shows(pc: Pc, h: Since): int {
    match pc
    case Start => 0
    case Busy => 2
    case Clear => if h.ran then 2 else 1
    case ExitWait => 3
    case ExitIn => 3
    case Gone => 3
    case _ => 1
  }

  /** `ifreeTime` counts the empty polls in 16 bits, and the way from one poll to the next
      depends on it alone. */
  predicate SpendsWell(w: Worker, h: Since) {
    && w.free == h.empty % 65536 && w.st == Shows(w.pc, h) && (h.ran ==> h.empty == 0)
    && match w.pc
       case Start => h == NOTHING
       case RegWait => h == NOTHING
       case RegIn => h == NOTHING
       case Top => (h.waited <==> w.free > 0) && (h.asked <==> w.free >= 4)
       case PollIn => (h.waited <==> w.free > 0) && (h.asked <==> w.free >= 4)
       case Got => h == NOTHING
       case Busy => h == NOTHING
       case Clear => !h.waited && !h.asked
       case Decide => !h.waited && !h.asked
       case CheckWait => w.free >= 4 && !h.waited && !h.asked
       case CheckIn => w.free >= 4 && !h.waited && !h.asked
       case Wait => w.free > 0 && !h.waited && (h.asked <==> w.free >= 4)
       case _ => w.free >= 4 && !h.waited && h.asked
  }

  predicate AllWell(s: State, i: nat, h: Since) {
    if i < |s.threads| then SpendsWell(s.threads[i], h) else h == NOTHING
  }

  /** One more empty poll, counted in 16 bits and without bound. */
  lemma OneMorePoll(empty: nat)
    ensures (empty % 65536 + 1) % 65536 == (empty + 1) % 65536
  {
    assert empty == 65536 * (empty / 65536) + empty % 65536;
  }

  lemma WellWorker(c: Config, s: State, i: nat, t: State, h: Since)
    requires i < |s.threads| && SpendsWell(s.threads[i], h) && WorkerStep(c, s, i) == Some(t)
    ensures i < |t.threads| && SpendsWell(t.threads[i], Note(s, W(i), i, h))
  {
    OneMorePoll(h.empty);
    var w := s.threads[i];
    if w.pc == PollIn {
      assert t.threads[i].free == if s.queue == [] then (w.free + 1) % 65536 else 0;
    } else if w.pc == RegIn || w.pc == Got || w.pc == CheckIn {
    } else {
      assert t.threads[i].free == w.free;
    }
  }

  lemma OthersWell(c: Config, s: State, l: Label, i: nat, t: State, h: Since)
    requires l != W(i) && Apply(c, s, l) == Some(t) && AllWell(s, i, h)
    ensures AllWell(t, i, h)
  {
    match l
    case W(j) => WorkerMoves(c, s, j, t);
    case A => assert t.threads == if s.adder.Spawn? then s.threads + [NEW_WORKER] else s.threads;
    case Timeout =>
      var n := |s.threads| - 1;
      assert t.threads == s.threads[n := s.threads[n].(late := true)];
    case AddLock(_) =>
  }

  lemma {:induction false} WellRun(c: Config, s: State, ls: seq<Label>, i: nat, h: Since)
    requires AllWell(s, i, h) && Exec(c, s, ls).Some?
    ensures AllWell(Exec(c, s, ls).value, i, History(c, s, ls, i, h))
    decreases |ls|
  {
    if ls != [] {
      var l, t := ls[0], Apply(c, s, ls[0]).value;
      if l == W(i) {
        WellWorker(c, s, i, t, h);
      } else {
        OthersWell(c, s, l, i, t, h);
      }
      WellRun(c, t, ls[1..], i, Note(s, l, i, h));
    }
  }

  lemma PollWell(c: Config, ls: seq<Label>, s: State, i: nat)
    requires Exec(c, INITIAL, ls) == Some(s) && i < |s.threads|
    ensures SpendsWell(s.threads[i], History(c, INITIAL, ls, i, NOTHING))
  {
    WellRun(c, INITIAL, ls, i, NOTHING);
  }

  /** Between two polls: in every run, a worker about to poll has waited since its last poll
      exactly if that poll, or the row of polls it ends, was empty, and it has asked for its
      release exactly if the row counts at least four. So a worker that has run a task polls
      again at once, and one that found nothing does not poll again without waiting. The
      count is that of the 16-bit `ifreeTime`: after 65536 empty polls it starts again. */
  lemma WaitsBetweenPolls(c: Config, ls: seq<Label>, s: State, i: nat)
    requires Exec(c, INITIAL, ls) == Some(s) && i < |s.threads|
    ensures var h, w := History(c, INITIAL, ls, i, NOTHING), s.threads[i];
            w.pc == Top || w.pc == PollIn ==>
              && (h.waited <==> h.empty % 65536 > 0) && (h.asked <==> h.empty % 65536 >= 4)
              && (h.ran ==> !h.waited)
  {
    PollWell(c, ls, s, i);
  }

  /** Nobody waits, or asks for its release, whose last poll found a task; and nobody waits
      after four empty polls without having asked. */
  lemma WaitsOnlyIdle(c: Config, ls: seq<Label>, s: State, i: nat)
    requires Exec(c, INITIAL, ls) == Some(s) && i < |s.threads|
    ensures var h, w := History(c, INITIAL, ls, i, NOTHING), s.threads[i];
            && (w.pc == Wait ==> h.empty >= 1 && w.free > 0 && (h.asked <==> w.free >= 4))
            && (w.pc == CheckWait || w.pc == CheckIn ==> h.empty >= 4 && w.free >= 4)
            && (w.pc == Got || w.pc == Busy ==> h.empty == 0 && w.free == 0)
  {
    PollWell(c, ls, s, i);
    FreeIsFewer(History(c, INITIAL, ls, i, NOTHING).empty);
  }

  lemma FreeIsFewer(empty: nat)
    ensures empty % 65536 <= empty
  {
  }

  /** Idle-exit discipline: a worker that leaves, or has left, has found the queue empty
      on at least four polls in a row since its last task, whatever the wakeups and even
      when the 16-bit counter has wrapped; and it has asked since the last of them. */
  lemma LeavesOnlyIdle(c: Config, ls: seq<Label>, s: State, i: nat)
    requires Exec(c, INITIAL, ls) == Some(s) && i < |s.threads|
    ensures s.threads[i].pc in {Exit, ExitWait, ExitIn, Gone} ==>
              var h := History(c, INITIAL, ls, i, NOTHING); h.empty >= 4 && h.asked
  {
    PollWell(c, ls, s, i);
    FreeIsFewer(History(c, INITIAL, ls, i, NOTHING).empty);
  }

  /** `ifreeTime` is the number of empty polls in a row, modulo 2^16. */
  lemma CountsEmptyPolls(c: Config, ls: seq<Label>, s: State, i: nat)
    requires Exec(c, INITIAL, ls) == Some(s) && i < |s.threads|
    ensures s.threads[i].free == History(c, INITIAL, ls, i, NOTHING).empty % 65536
  {
    PollWell(c, ls, s, i);
  }

  /** `m_state` in every run, as the scan of `addTask` and the start handshake read it. */
  lemma ShowsState(c: Config, ls: seq<Label>, s: State, i: nat)
    requires Exec(c, INITIAL, ls) == Some(s) && i < |s.threads|
    ensures var h, w := History(c, INITIAL, ls, i, NOTHING), s.threads[i];
            && (w.st == 0 <==> w.pc == Start)
            && (w.st == 2 <==> w.pc == Busy || (w.pc == Clear && h.ran))
            && (w.st == 3 <==> w.pc == ExitWait || w.pc == ExitIn || w.pc == Gone)
            && 0 <= w.st <= 3
  {
    PollWell(c, ls, s, i);
  }
}
