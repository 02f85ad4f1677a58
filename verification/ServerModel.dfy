/** The whole server: receiving thread, pool and sender as one transition system, built
    from the models of its parts. */
module ServerModel {
  import opened Bytes
  import opened Frames
  import opened Reassembly
  import opened Streams
  import PoolModel
  import PoolTasks
  import opened Protocol
  import opened SendQueue
  import opened Dispatch
  import Client

  type Slots = m: map<int, Partial> | SlotsOk(m) witness map[]

  /** `held` is `m_recvList`; `inbox` are the frames the receiving thread has cut off and not
      yet passed to `addTask`; `lists` is `m_sendDataList`. History: the chunks received, the
      frames cut off, the operations on the send lists. */
  datatype Sys = Sys(
    held: Slots, inbox: seq<Queued>, pool: PoolModel.State, lists: Lists,
    events: seq<Received>, cut: seq<Queued>, ops: seq<Op>)

  const START := Sys(map[], [], PoolModel.INITIAL, map[], [], [], [])

  datatype Step =
    | Arrive(e: Received)           // the receiving thread gets a chunk
    | Hand                          // it calls addTask for the next frame
    | Pool(l: PoolModel.Label)      // any step inside the pool
    | SenderTakes(client: int)
    | ListenerErases(client: int)

  function Performed(s: Sys, op: Op): Sys {
    s.(lists := Do(s.lists, op), ops := s.ops + [op])
  }

  /** What the step of a worker means outside the pool: `onTaskProcessor` returns. */
  function Answered(s: Sys, l: PoolModel.Label): Sys {
    if l.W? && l.i < |s.pool.threads| && s.pool.threads[l.i].pc == PoolModel.Busy then
      var h := s.pool.threads[l.i].held;
      if h.Some? && h.value.task.Some? then
        var q := h.value.task.value;
        var r := ReplyTo(q.frame);
        if r.Some? then Performed(s, Send(q.client, r.value)) else s
      else s
    else s
  }

  function Next(c: PoolModel.Config, s: Sys, x: Step): Option<Sys> {
    match x
    case Arrive(e) =>
      if ChunkOk(e.chunk) && s.inbox == [] && s.pool.adder.Idle? then
        var o := Feed(SlotOf(s.held, e.client), e.chunk);
        FeedConsumes(SlotOf(s.held, e.client), e.chunk);
        if o.Done? then
          var q := Tagged(e.client, o.frames);
          Some(s.(held := SetSlot(s.held, e.client, o.slot), inbox := q, cut := s.cut + q, events := s.events + [e]))
        else None
      else None
    case Hand =>
      if s.inbox == [] then None
      else
        var p := PoolModel.Apply(c, s.pool, PoolModel.AddLock(Some(s.inbox[0])));
        if p.Some? then Some(s.(inbox := s.inbox[1..], pool := p.value)) else None
    case Pool(l) =>
      if l.AddLock? then None
      else
        var p := PoolModel.Apply(c, s.pool, l);
        if p.Some? then Some(Answered(s, l).(pool := p.value)) else None
    case SenderTakes(k) => Some(Performed(s, Take(k)))
    case ListenerErases(k) => Some(Performed(s, Erase(k)))
  }

  function Exec(c: PoolModel.Config, s: Sys, xs: seq<Step>): Option<Sys>
    decreases |xs|
  {
    if xs == [] then Some(s)
    else
      var t := Next(c, s, xs[0]);
      if t.None? then None else Exec(c, t.value, xs[1..])
  }

  ghost predicate Reachable(c: PoolModel.Config, s: Sys) {
    exists xs :: Exec(c, START, xs) == Some(s)
  }

  // ----- Counting the replies that are due -----

  function Due(q: Queued, c: int, b: Buf): nat {
    if q.client == c && ReplyTo(q.frame) == Some(b) then 1 else 0
  }

  function DueAll(qs: seq<Queued>, c: int, b: Buf): nat {
    if qs == [] then 0 else DueAll(qs[..|qs| - 1], c, b) + Due(qs[|qs| - 1], c, b)
  }

  function DueTask(t: PoolModel.Task, c: int, b: Buf): nat {
    if t.Some? then Due(t.value, c, b) else 0
  }

  function DueTasks(ts: seq<PoolModel.Task>, c: int, b: Buf): nat {
    if ts == [] then 0 else DueTasks(ts[..|ts| - 1], c, b) + DueTask(ts[|ts| - 1], c, b)
  }

  function DueWorker(w: PoolModel.Worker, c: int, b: Buf): nat {
    if w.held.Some? then DueTask(w.held.value.task, c, b) else 0
  }

  function DueFrom(c: int, b: Buf): PoolModel.Worker -> nat {
    (w: PoolModel.Worker) => DueWorker(w, c, b)
  }

  /** The replies due for tasks the workers have popped and not yet finished. */
  function DueHeld(ws: seq<PoolModel.Worker>, c: int, b: Buf): nat {
    PoolModel.Sum(ws, DueFrom(c, b))
  }

  function Pushing(a: PoolModel.AdderPc): seq<PoolModel.Task> {
    if a.Push? then [a.task] else []
  }

  function Lift(qs: seq<Queued>): (r: seq<PoolModel.Task>)
    ensures |r| == |qs|
  {
    seq(|qs|, i requires 0 <= i < |qs| => Some(qs[i]))
  }

  /** Replies due for frames on their way: not yet added, queued, or in a worker's hands. */
  function InFlight(s: Sys, c: int, b: Buf): nat {
    DueAll(s.inbox, c, b) + DueTasks(Pushing(s.pool.adder), c, b) + DueTasks(s.pool.queue, c, b)
      + DueHeld(s.pool.threads, c, b)
  }

  /** The replies to a list of frames, in the order of the frames. */
  function Replies(frames: seq<seq<Byte>>): seq<Buf> {
    if frames == [] then []
    else
      var r := ReplyTo(frames[|frames| - 1]);
      Replies(frames[..|frames| - 1]) + if r.Some? then [r.value] else []
  }

  lemma {:induction false} DueTasksAppend(a: seq<PoolModel.Task>, t: seq<PoolModel.Task>, c: int, b: Buf)
    ensures DueTasks(a + t, c, b) == DueTasks(a, c, b) + DueTasks(t, c, b)
    decreases |t|
  {
    if t == [] {
      assert a + t == a;
    } else {
      assert (a + t)[..|a + t| - 1] == a + t[..|t| - 1];
      DueTasksAppend(a, t[..|t| - 1], c, b);
    }
  }

  lemma {:induction false} DueLift(qs: seq<Queued>, c: int, b: Buf)
    ensures DueTasks(Lift(qs), c, b) == DueAll(qs, c, b)
    decreases |qs|
  {
    if qs != [] {
      DueLift(qs[..|qs| - 1], c, b);
      assert Lift(qs)[..|qs| - 1] == Lift(qs[..|qs| - 1]);
    }
  }

  lemma RepliesAppend(fs: seq<seq<Byte>>, f: seq<Byte>, b: Buf)
    ensures multiset(Replies(fs + [f]))[b] == multiset(Replies(fs))[b] + if ReplyTo(f) == Some(b) then 1 else 0
  {
    assert (fs + [f])[..|fs|] == fs;
  }

  lemma {:induction false} DueIsReplies(qs: seq<Queued>, c: int, b: Buf)
    ensures DueAll(qs, c, b) == multiset(Replies(FramesOf(qs, c)))[b]
    decreases |qs|
  {
    if qs != [] {
      var m := |qs| - 1;
      DueIsReplies(qs[..m], c, b);
      var fs := FramesOf(qs[..m], c);
      if qs[m].client == c {
        assert FramesOf(qs, c) == fs + [qs[m].frame];
        RepliesAppend(fs, qs[m].frame, b);
      } else {
        assert FramesOf(qs, c) == fs;
      }
    }
  }

  // ----- The invariant -----

  /** Every frame cut off is somewhere, in order; and for every client and buffer, the
      tasks popped are those in the workers' hands and those answered. */
  predicate Ordered(s: Sys) {
    Lift(s.cut) == s.pool.added + Pushing(s.pool.adder) + Lift(s.inbox)
  }

  predicate Balanced(s: Sys, c: int, b: Buf) {
    DueTasks(s.pool.popped, c, b) == DueHeld(s.pool.threads, c, b) + multiset(PassedTo(s.ops, c))[b]
  }

  ghost predicate Inv(c: PoolModel.Config, s: Sys) {
    && EventsOk(s.events) && Serve(s.events) == Running(s.cut, s.held)
    && s.lists == ListsAfter(s.ops)
    && PoolModel.Reachable(c, s.pool) && PoolTasks.TasksOk(s.pool)
    && Ordered(s)
    && forall k, b :: k > 0 ==> Balanced(s, k, b)
  }

  /** What a step of the pool does to the replies due, apart from answering. */
  lemma WorkerDue(c: PoolModel.Config, s: PoolModel.State, i: nat, t: PoolModel.State, k: int, b: Buf)
    requires PoolTasks.TasksOk(s) && i < |s.threads| && PoolModel.WorkerStep(c, s, i) == Some(t)
    ensures DueTasks(t.popped, k, b) - DueHeld(t.threads, k, b)
            == DueTasks(s.popped, k, b) - DueHeld(s.threads, k, b)
               + if s.threads[i].pc == PoolModel.Busy then DueWorker(s.threads[i], k, b) else 0
    ensures t.added == s.added && t.adder == s.adder
  {
    PoolTasks.WorkerServes(c, s, i, t);
    assert PoolTasks.HeldOk(s, s.threads[i]);
    PoolModel.SumUpdate(s.threads, i, t.threads[i], DueFrom(k, b));
    if t.popped != s.popped {
      DueTasksAppend(s.popped, [s.queue[0]], k, b);
      assert [s.queue[0]][..0] == [];
    }
  }

  lemma AdderDue(c: PoolModel.Config, s: PoolModel.State, t: PoolModel.State, k: int, b: Buf)
    requires PoolModel.AdderStep(c, s) == Some(t)
    ensures t.popped == s.popped && DueHeld(t.threads, k, b) == DueHeld(s.threads, k, b)
    ensures t.added + Pushing(t.adder) == s.added + Pushing(s.adder)
  {
    PoolModel.SumAppend(s.threads, PoolModel.NEW_WORKER, DueFrom(k, b));
    assert t.threads == if s.adder.Spawn? then s.threads + [PoolModel.NEW_WORKER] else s.threads;
    if s.adder.Push? {
      assert t.added + [] == s.added + [s.adder.task];
    }
  }

  lemma TimeoutDue(c: PoolModel.Config, s: PoolModel.State, t: PoolModel.State, k: int, b: Buf)
    requires PoolModel.Apply(c, s, PoolModel.Timeout) == Some(t)
    ensures t.popped == s.popped && DueHeld(t.threads, k, b) == DueHeld(s.threads, k, b)
    ensures t.added + Pushing(t.adder) == s.added + Pushing(s.adder)
  {
    var n := |s.threads| - 1;
    PoolModel.SumUpdate(s.threads, n, t.threads[n], DueFrom(k, b));
  }

  lemma PassedStep(ops: seq<Op>, op: Op, k: int, b: Buf)
    ensures multiset(PassedTo(ops + [op], k))[b]
            == multiset(PassedTo(ops, k))[b] + if op == Send(k, b) && k > 0 then 1 else 0
  {
    IsolationStep(ops, op, k);
  }

  lemma ArriveStep(c: PoolModel.Config, s: Sys, e: Received, t: Sys)
    requires Inv(c, s) && Next(c, s, Arrive(e)) == Some(t)
    ensures Inv(c, t)
  {
    assert t.pool == s.pool && t.lists == s.lists && t.ops == s.ops;
    ServeMore(s.events, e);
    assert Lift(s.inbox) == [] && Pushing(s.pool.adder) == [];
    LiftAppend(s.cut, t.inbox);
    assert s.pool.added + [] + [] == s.pool.added && s.pool.added + [] == s.pool.added;
    forall k, b | k > 0 ensures Balanced(t, k, b) {
      assert Balanced(s, k, b);
    }
  }

  lemma ServeMore(es: seq<Received>, e: Received)
    requires EventsOk(es) && ChunkOk(e.chunk)
    ensures EventsOk(es + [e]) && Serve(es + [e]) == Receive(Serve(es), e)
  {
    assert (es + [e])[..|es|] == es;
  }

  lemma LiftAppend(p: seq<Queued>, q: seq<Queued>)
    ensures Lift(p + q) == Lift(p) + Lift(q)
  {
  }

  lemma HandOrder(added: seq<PoolModel.Task>, inbox: seq<Queued>)
    requires inbox != []
    ensures added + [] + Lift(inbox) == added + [Some(inbox[0])] + Lift(inbox[1..])
  {
  }

  lemma HandStep(c: PoolModel.Config, s: Sys, t: Sys)
    requires Inv(c, s) && Next(c, s, Hand) == Some(t)
    ensures Inv(c, t)
  {
    PoolStepKeeps(c, s.pool, PoolModel.AddLock(Some(s.inbox[0])), t.pool);
    HandOrder(s.pool.added, s.inbox);
    assert Pushing(s.pool.adder) == [] && Pushing(t.pool.adder) == [Some(s.inbox[0])];
    assert Ordered(t);
    forall k, b | k > 0 ensures Balanced(t, k, b) {
      assert Balanced(s, k, b);
    }
  }

  lemma PoolStepKeeps(c: PoolModel.Config, s: PoolModel.State, l: PoolModel.Label, t: PoolModel.State)
    requires PoolModel.Reachable(c, s) && PoolTasks.TasksOk(s) && PoolModel.Apply(c, s, l) == Some(t)
    ensures PoolModel.Reachable(c, t) && PoolTasks.TasksOk(t)
  {
    PoolModel.LeadsStep(c, PoolModel.INITIAL, s, l, t);
    PoolTasks.TasksStep(c, s, l, t);
  }

  lemma PerformedKeeps(s: Sys, op: Op)
    requires s.lists == ListsAfter(s.ops)
    ensures var t := Performed(s, op);
            && t.lists == ListsAfter(t.ops) && t.held == s.held && t.inbox == s.inbox
            && t.events == s.events && t.cut == s.cut && t.pool == s.pool
            && forall k, b :: multiset(PassedTo(t.ops, k))[b]
                              == multiset(PassedTo(s.ops, k))[b] + if op == Send(k, b) && k > 0 then 1 else 0
  {
    IsolationStep(s.ops, op, op.socket);
    forall k, b ensures multiset(PassedTo(s.ops + [op], k))[b]
                        == multiset(PassedTo(s.ops, k))[b] + if op == Send(k, b) && k > 0 then 1 else 0
    {
      PassedStep(s.ops, op, k, b);
    }
  }

  /** Answering adds to the buffers passed to `send` just the reply due for the task. */
  lemma AnsweredKeeps(s: Sys, i: nat)
    requires s.lists == ListsAfter(s.ops) && i < |s.pool.threads|
    ensures var t := Answered(s, PoolModel.W(i));
            && t.lists == ListsAfter(t.ops) && t.held == s.held && t.inbox == s.inbox
            && t.events == s.events && t.cut == s.cut && t.pool == s.pool
  {
    IsolationStep(s.ops, AnswerOp(s.pool.threads[i]), 0);
  }

  function AnswerOp(w: PoolModel.Worker): Op {
    if w.held.Some? && w.held.value.task.Some? && ReplyTo(w.held.value.task.value.frame).Some? then
      Send(w.held.value.task.value.client, ReplyTo(w.held.value.task.value.frame).value)
    else Take(0)
  }

  lemma AnsweredPays(s: Sys, i: nat, k: int, b: Buf)
    requires i < |s.pool.threads| && k > 0
    ensures var t := Answered(s, PoolModel.W(i));
            multiset(PassedTo(t.ops, k))[b] == multiset(PassedTo(s.ops, k))[b]
            + if s.pool.threads[i].pc == PoolModel.Busy then DueWorker(s.pool.threads[i], k, b) else 0
  {
    PassedStep(s.ops, AnswerOp(s.pool.threads[i]), k, b);
  }

  lemma PoolStep(c: PoolModel.Config, s: Sys, l: PoolModel.Label, t: Sys)
    requires Inv(c, s) && Next(c, s, Pool(l)) == Some(t)
    ensures Inv(c, t)
  {
    PoolStepKeeps(c, s.pool, l, t.pool);
    match l
    case W(i) =>
      AnsweredKeeps(s, i);
      WorkerDue(c, s.pool, i, t.pool, 1, []);
      forall k, b | k > 0 ensures Balanced(t, k, b) {
        assert Balanced(s, k, b);
        AnsweredPays(s, i, k, b);
        WorkerDue(c, s.pool, i, t.pool, k, b);
      }
    case A =>
      AdderDue(c, s.pool, t.pool, 1, []);
      forall k, b | k > 0 ensures Balanced(t, k, b) {
        assert Balanced(s, k, b);
        AdderDue(c, s.pool, t.pool, k, b);
      }
    case Timeout =>
      TimeoutDue(c, s.pool, t.pool, 1, []);
      forall k, b | k > 0 ensures Balanced(t, k, b) {
        assert Balanced(s, k, b);
        TimeoutDue(c, s.pool, t.pool, k, b);
      }
  }

  lemma OpStep(c: PoolModel.Config, s: Sys, op: Op)
    requires Inv(c, s) && !op.Send?
    ensures Inv(c, Performed(s, op))
  {
    PerformedKeeps(s, op);
    forall k, b | k > 0 ensures Balanced(Performed(s, op), k, b) {
      assert Balanced(s, k, b);
    }
  }

  lemma InvStep(c: PoolModel.Config, s: Sys, x: Step, t: Sys)
    requires Inv(c, s) && Next(c, s, x) == Some(t)
    ensures Inv(c, t)
  {
    match x
    case Arrive(e) => ArriveStep(c, s, e, t);
    case Hand => HandStep(c, s, t);
    case Pool(l) => PoolStep(c, s, l, t);
    case SenderTakes(k) => OpStep(c, s, Take(k));
    case ListenerErases(k) => OpStep(c, s, Erase(k));
  }

  lemma {:induction false} InvRun(c: PoolModel.Config, s: Sys, xs: seq<Step>)
    requires Inv(c, s) && Exec(c, s, xs).Some?
    ensures Inv(c, Exec(c, s, xs).value)
    decreases |xs|
  {
    if xs != [] {
      InvStep(c, s, xs[0], Next(c, s, xs[0]).value);
      InvRun(c, Next(c, s, xs[0]).value, xs[1..]);
    }
  }

  lemma ReachableInv(c: PoolModel.Config, s: Sys)
    requires Reachable(c, s)
    ensures Inv(c, s)
  {
    var xs :| Exec(c, START, xs) == Some(s);
    PoolModel.LeadsSelf(c, PoolModel.INITIAL);
    assert PoolTasks.TasksOk(PoolModel.INITIAL) by {
      assert forall n: nat :: PoolTasks.Places(PoolModel.INITIAL, n) == 0;
    }
    assert Inv(c, START);
    InvRun(c, START, xs);
  }

  /** Exactly when the receiving thread can take a chunk: it is not in `addTask`, has handed
      over all its frames, and survives the bytes. */
  lemma ReceivesExactly(c: PoolModel.Config, s: Sys, e: Received)
    requires Reachable(c, s) && ChunkOk(e.chunk)
    ensures EventsOk(s.events) && Serve(s.events).Running?
    ensures Next(c, s, Arrive(e)).Some? <==>
              s.inbox == [] && s.pool.adder.Idle? && Receive(Serve(s.events), e).Running?
  {
    ReachableInv(c, s);
  }

  /** And when it can hand a frame over: the mutex must be free. */
  lemma HandsExactly(c: PoolModel.Config, s: Sys)
    ensures Next(c, s, Hand).Some? <==> s.inbox != [] && s.pool.mtx == PoolModel.Free && s.pool.adder.Idle?
  {
  }

  // ----- Conservation -----

  /** Reply conservation: in every reachable state, for every client and every buffer, the
      replies due for the frames cut off for the client are those in flight, those pending
      in its send list, and those that have left it: none invented, lost or doubled,
      although the workers finish in any order. */
  lemma ReplyConservation(c: PoolModel.Config, s: Sys, k: int, b: Buf)
    requires Reachable(c, s) && k > 0
    ensures multiset(Replies(FramesOf(s.cut, k)))[b]
            == InFlight(s, k, b) + multiset(PendingOf(s.lists, k))[b] + multiset(Bufs(LeftOf(s.ops, k)))[b]
  {
    ReachableInv(c, s);
    assert Balanced(s, k, b);
    DueIsReplies(s.cut, k, b);
    DueLift(s.cut, k, b);
    DueLift(s.inbox, k, b);
    DueTasksAppend(s.pool.added + Pushing(s.pool.adder), Lift(s.inbox), k, b);
    DueTasksAppend(s.pool.added, Pushing(s.pool.adder), k, b);
    DueTasksAppend(s.pool.popped, s.pool.queue, k, b);
    SendFifo(s.ops, k);
    assert multiset(PassedTo(s.ops, k)) == multiset(Bufs(LeftOf(s.ops, k))) + multiset(PendingOf(s.lists, k));
  }

  /** Nothing is on its way: all frames cut off have been processed. */
  predicate Settled(s: Sys) {
    && s.inbox == [] && !s.pool.adder.Push? && s.pool.queue == []
    && forall i :: 0 <= i < |s.pool.threads| ==> s.pool.threads[i].held.None?
  }

  lemma {:induction false} NothingHeld(ws: seq<PoolModel.Worker>, k: int, b: Buf)
    requires forall i :: 0 <= i < |ws| ==> ws[i].held.None?
    ensures DueHeld(ws, k, b) == 0
    decreases |ws|
  {
    if ws != [] {
      NothingHeld(ws[..|ws| - 1], k, b);
    }
  }

  /** The buffers for a client, whether they have left its list or are pending. */
  function Buffers(s: Sys, k: int): seq<Buf> {
    Bufs(LeftOf(s.ops, k)) + PendingOf(s.lists, k)
  }

  lemma SettledBalance(c: PoolModel.Config, s: Sys, k: int, b: Buf)
    requires Reachable(c, s) && k > 0 && Settled(s)
    ensures multiset(Buffers(s, k))[b] == multiset(Replies(FramesOf(s.cut, k)))[b]
  {
    ReplyConservation(c, s, k, b);
    NothingHeld(s.pool.threads, k, b);
    assert multiset(Buffers(s, k)) == multiset(Bufs(LeftOf(s.ops, k))) + multiset(PendingOf(s.lists, k));
  }

  lemma SettledReplies(c: PoolModel.Config, s: Sys, k: int)
    requires Reachable(c, s) && k > 0 && Settled(s)
    ensures multiset(Buffers(s, k)) == multiset(Replies(FramesOf(s.cut, k)))
  {
    var out, due := multiset(Buffers(s, k)), multiset(Replies(FramesOf(s.cut, k)));
    forall b ensures out[b] == due[b] {
      SettledBalance(c, s, k, b);
    }
  }

  lemma CutIsReference(c: PoolModel.Config, s: Sys, k: int)
    requires Reachable(c, s) && EventsOk(s.events) && AllSafe(ChunksOf(s.events, k))
    ensures FramesOf(s.cut, k) == Cut(Data(ChunksOf(s.events, k))).frames
  {
    ReachableInv(c, s);
    OneClient(s.events, k);
    FragmentationIndependence(ChunksOf(s.events, k), ChunksOf(s.events, k));
  }

  /** What each client gets in the end: if its chunks were safe and its connection was not
      erased, then once everything has been processed the buffers taken for it and those
      still pending are, as a multiset, the replies to the reference frames of its own
      byte stream, whatever the chunking and whatever the other clients did. */
  lemma EveryRequestAnswered(c: PoolModel.Config, s: Sys, k: int)
    requires Reachable(c, s) && k > 0 && Settled(s)
    requires EventsOk(s.events) && AllSafe(ChunksOf(s.events, k)) && NeverErased(s.ops, k)
    ensures multiset(Buffers(s, k)) == multiset(Replies(Cut(Data(ChunksOf(s.events, k))).frames))
    ensures forall l :: l in LeftOf(s.ops, k) ==> l.taken
  {
    AllTaken(s.ops, k);
    SettledReplies(c, s, k);
    CutIsReference(c, s, k);
  }

  // ----- Requests, end to end -----

  datatype Made = Made(id: U32, cmd: U32, data: seq<Byte>)

  predicate MadeOk(m: Made) {
    0 < |m.data| < TWO32 - 16
  }

  predicate AllMade(ms: seq<Made>) {
    forall i :: 0 <= i < |ms| ==> MadeOk(ms[i])
  }

  function Encoded(ms: seq<Made>): (fs: seq<seq<Byte>>)
    requires AllMade(ms)
    ensures |fs| == |ms|
  {
    seq(|ms|, i requires 0 <= i < |ms| && MadeOk(ms[i]) => RequestBytes(ms[i].id, ms[i].cmd, ms[i].data))
  }

  lemma EncodedAt(ms: seq<Made>, i: nat)
    requires AllMade(ms) && i < |ms|
    ensures SelfSized(Encoded(ms)[i])
    ensures ParseRequest(Encoded(ms)[i]) == Some(Request(ms[i].id, Signed(ms[i].cmd), |ms[i].data|, ms[i].data))
  {
    assert MadeOk(ms[i]);
    RequestFields(ms[i].id, ms[i].cmd, ms[i].data);
    RequestRoundTrip(ms[i].id, ms[i].cmd, ms[i].data);
  }

  /** The request pipeline: requests made by the encoder, laid end to end and cut into any
      safe chunks, are reassembled into exactly those frames in order, nothing is left
      over, and each parses back to its id, command, length and data. */
  lemma RequestPipeline(ms: seq<Made>, cs: seq<Chunk>)
    requires AllMade(ms)
    requires ChunksOk(cs) && AllSafe(cs) && Data(cs) == Flat(Encoded(ms))
    ensures Run(cs) == Done(Encoded(ms), None)
    ensures forall i :: 0 <= i < |ms| ==>
              ParseRequest(Encoded(ms)[i]) == Some(Request(ms[i].id, Signed(ms[i].cmd), |ms[i].data|, ms[i].data))
  {
    var fs := Encoded(ms);
    forall i | 0 <= i < |ms|
      ensures SelfSized(fs[i])
      ensures ParseRequest(fs[i]) == Some(Request(ms[i].id, Signed(ms[i].cmd), |ms[i].data|, ms[i].data))
    {
      EncodedAt(ms, i);
    }
    CutFlat(fs);
    FragmentationIndependence(cs, cs);
  }

  /** The one response for a client that sent one request. */
  lemma AnswerTaken(c: PoolModel.Config, s: Sys, k: int, m: Made)
    requires Reachable(c, s) && k > 0 && Settled(s) && PendingOf(s.lists, k) == []
    requires EventsOk(s.events) && AllSafe(ChunksOf(s.events, k)) && NeverErased(s.ops, k)
    requires MadeOk(m) && (m.cmd == EAC_API1 || m.cmd == EAC_API2)
    requires Data(ChunksOf(s.events, k)) == RequestBytes(m.id, m.cmd, m.data)
    ensures Bufs(LeftOf(s.ops, k)) == [ResponseBytes(m.id, m.cmd, PayloadOf(m.cmd))]
  {
    var f := RequestBytes(m.id, m.cmd, m.data);
    var r := ResponseBytes(m.id, m.cmd, PayloadOf(m.cmd));
    RequestFields(m.id, m.cmd, m.data);
    ReplyToRequest(m.id, m.cmd, m.data);
    OneFrame(f);
    EveryRequestAnswered(c, s, k);
    assert Buffers(s, k) == Bufs(LeftOf(s.ops, k));
    Singleton(Bufs(LeftOf(s.ops, k)), r);
  }

  /** Request and response over one connection: a client sends one request with a known
      command; the server, whatever else it is doing, has processed everything and its
      sender has taken all that was pending. Then one buffer was taken for the client, and
      the client's loop, however that buffer is cut on its way back, returns a reply that
      parses to the request's own id and command, result 0 and the command's payload. */
  lemma RequestResponse(c: PoolModel.Config, s: Sys, k: int, m: Made, rs: seq<seq<Byte>>)
    requires Reachable(c, s) && k > 0 && Settled(s) && PendingOf(s.lists, k) == []
    requires EventsOk(s.events) && AllSafe(ChunksOf(s.events, k)) && NeverErased(s.ops, k)
    requires MadeOk(m) && (m.cmd == EAC_API1 || m.cmd == EAC_API2)
    requires Data(ChunksOf(s.events, k)) == RequestBytes(m.id, m.cmd, m.data)
    requires Client.ReceivesOk(rs) && |rs| > 0 && |rs[0]| >= 4 && Flat(rs) == Flat(Bufs(LeftOf(s.ops, k)))
    ensures Bufs(LeftOf(s.ops, k)) == [ResponseBytes(m.id, m.cmd, PayloadOf(m.cmd))]
    ensures ParseResponse(Client.FirstFrame(Flat(rs), Peek(rs[0], ZEROS)))
            == Accepted(Reply(m.id, m.cmd, PAYLOAD, PayloadOf(m.cmd)))
  {
    var r := ResponseBytes(m.id, m.cmd, PayloadOf(m.cmd));
    AnswerTaken(c, s, k, m);
    var one := [r];
    assert Flat(one[1..]) == [];
    ReplyToRequest(m.id, m.cmd, m.data);
    ResponseFields(m.id, m.cmd, PayloadOf(m.cmd));
    assert r + [] == r;
    Client.WholeReply(rs, r, []);
  }

  lemma OneFrame(f: seq<Byte>)
    requires SelfSized(f)
    ensures Cut(f).frames == [f]
    ensures ReplyTo(f).Some? ==> Replies(Cut(f).frames) == [ReplyTo(f).value]
  {
    CutFrame(f, []);
    assert f + [] == f;
    var fs := [f];
    assert fs + [] == fs && fs[..0] == [];
  }

  lemma Singleton(s: seq<Buf>, b: Buf)
    requires multiset(s) == multiset([b])
    ensures s == [b] && Flat(s) == b
  {
    assert |s| == |multiset(s)| == 1;
    assert s[0] in multiset(s);
    assert s[1..] == [];
  }
}
