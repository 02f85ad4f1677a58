/** When the replies for a client are passed to `send` in the order of its requests: in
    every run of a pool that never has more than one worker, and of no other. */
module ReplyOrder {
  import opened Bytes
  import opened Frames
  import opened Reassembly
  import opened Streams
  import PoolModel
  import PoolLimits
  import PoolSafety
  import PoolTasks
  import opened Protocol
  import opened SendQueue
  import opened Dispatch
  import opened ServerModel
  import opened ServerProgress

  // ----- One worker -----

  /** The reply for a task of a client, if it has one. */
  function TaskReply(t: PoolModel.Task, k: int): seq<Buf> {
    if t.Some? && t.value.client == k && ReplyTo(t.value.frame).Some? then [ReplyTo(t.value.frame).value] else []
  }

  function TaskReplies(ts: seq<PoolModel.Task>, k: int): seq<Buf> {
    if ts == [] then [] else TaskReplies(ts[..|ts| - 1], k) + TaskReply(ts[|ts| - 1], k)
  }

  lemma {:induction false} TaskRepliesAppend(a: seq<PoolModel.Task>, b: seq<PoolModel.Task>, k: int)
    ensures TaskReplies(a + b, k) == TaskReplies(a, k) + TaskReplies(b, k)
    decreases |b|
  {
    if b == [] {
      assert a + b == a;
    } else {
      assert (a + b)[..|a + b| - 1] == a + b[..|b| - 1];
      TaskRepliesAppend(a, b[..|b| - 1], k);
    }
  }

  lemma {:induction false} TaskRepliesLift(qs: seq<Queued>, k: int)
    ensures TaskReplies(Lift(qs), k) == Replies(FramesOf(qs, k))
    decreases |qs|
  {
    if qs != [] {
      var m := |qs| - 1;
      TaskRepliesLift(qs[..m], k);
      assert Lift(qs)[..m] == Lift(qs[..m]);
      var fs := FramesOf(qs[..m], k);
      if qs[m].client == k {
        assert (fs + [qs[m].frame])[..|fs|] == fs;
      } else {
        assert FramesOf(qs, k) == fs;
      }
    }
  }

  /** What a worker that holds a task means for the replies passed on so far. */
  predicate HolderInTurn(s: Sys, w: PoolModel.Worker, k: int) {
    var p := s.pool.popped;
    w.held.Some? ==> p != [] && w.held.value.n == |p| - 1 && PassedTo(s.ops, k) == TaskReplies(p[..|p| - 1], k)
  }

  /** The replies passed to `send` are those of the popped tasks but the one in hand. */
  predicate InTurn(s: Sys, k: int) {
    && (forall i :: 0 <= i < |s.pool.threads| ==> HolderInTurn(s, s.pool.threads[i], k))
    && ((forall i :: 0 <= i < |s.pool.threads| ==> s.pool.threads[i].held.None?) ==>
          PassedTo(s.ops, k) == TaskReplies(s.pool.popped, k))
  }

  /** Of two workers one is gone. */
  lemma Alone(c: PoolModel.Config, s: PoolModel.State, i: nat, j: nat)
    requires PoolModel.ConfigOk(c) && c.patient && c.max == 1 && PoolModel.Reachable(c, s)
    requires i < |s.threads| && j < |s.threads| && i != j && s.threads[i].pc != PoolModel.Gone
    ensures s.threads[j].pc == PoolModel.Gone
  {
    PoolSafety.PoolCap(c, s);
    var gone := PoolModel.NEW_WORKER.(pc := PoolModel.Gone);
    var ws := s.threads[i := gone];
    PoolModel.CountUpdate(s.threads, i, gone, PoolModel.Registered);
    PoolModel.CountUpdate(s.threads, i, gone, PoolModel.Unregistered);
    PoolModel.CountZero(ws, PoolModel.Registered);
    PoolModel.CountZero(ws, PoolModel.Unregistered);
    assert ws[j] == s.threads[j];
  }

  /** So while worker i is not gone no other one holds a task. */
  lemma OthersEmpty(c: PoolModel.Config, s: PoolModel.State, i: nat)
    requires PoolModel.ConfigOk(c) && c.patient && c.max == 1 && PoolModel.Reachable(c, s) && PoolTasks.TasksOk(s)
    requires i < |s.threads| && s.threads[i].pc != PoolModel.Gone
    ensures forall j :: 0 <= j < |s.threads| && j != i ==> s.threads[j].held.None?
  {
    forall j | 0 <= j < |s.threads| && j != i ensures s.threads[j].held.None? {
      Alone(c, s, i, j);
      assert PoolTasks.HeldOk(s, s.threads[j]);
    }
  }

  /** `InTurn` for a worker that is the only one that can hold a task. */
  predicate WorkerTurn(s: Sys, w: PoolModel.Worker, k: int) {
    HolderInTurn(s, w, k) && (w.held.None? ==> PassedTo(s.ops, k) == TaskReplies(s.pool.popped, k))
  }

  lemma TurnOfOne(s: Sys, i: nat, k: int)
    requires i < |s.pool.threads|
    requires forall j :: 0 <= j < |s.pool.threads| && j != i ==> s.pool.threads[j].held.None?
    ensures InTurn(s, k) <==> WorkerTurn(s, s.pool.threads[i], k)
  {
    if WorkerTurn(s, s.pool.threads[i], k) {
      assert forall j :: 0 <= j < |s.pool.threads| ==> HolderInTurn(s, s.pool.threads[j], k);
    }
  }

  /** A step of a worker, apart from answering: a task popped is the one in hand. */
  lemma PopsInTurn(c: PoolModel.Config, s: Sys, i: nat, t: Sys, k: int)
    requires i < |s.pool.threads| == |t.pool.threads| && s.pool.threads[i].pc != PoolModel.Busy
    requires PoolTasks.TasksOk(s.pool) && PoolModel.WorkerStep(c, s.pool, i) == Some(t.pool) && t.ops == s.ops
    requires WorkerTurn(s, s.pool.threads[i], k)
    ensures WorkerTurn(t, t.pool.threads[i], k)
  {
    var p, q := s.pool, t.pool;
    PoolTasks.WorkerServes(c, p, i, q);
    assert PoolTasks.HeldOk(p, p.threads[i]);
    if p.threads[i].pc == PoolModel.PollIn && p.queue != [] {
      assert q.popped[..|p.popped|] == p.popped;
    } else if p.threads[i].pc == PoolModel.Got && p.threads[i].held.value.task.None? {
      assert TaskReply(p.popped[|p.popped| - 1], k) == [];
    }
  }

  /** Answering passes on just the reply for the task in hand. */
  lemma AnswerPasses(s: Sys, i: nat, k: int)
    requires i < |s.pool.threads| && s.pool.threads[i].pc == PoolModel.Busy && s.pool.threads[i].held.Some? && k > 0
    ensures PassedTo(Answered(s, PoolModel.W(i)).ops, k)
            == PassedTo(s.ops, k) + TaskReply(s.pool.threads[i].held.value.task, k)
  {
    IsolationStep(s.ops, AnswerOp(s.pool.threads[i]), k);
  }

  /** The step that answers passes on just the reply that was missing. */
  lemma AnswersInTurn(c: PoolModel.Config, s: Sys, i: nat, t: Sys, k: int)
    requires i < |s.pool.threads| == |t.pool.threads| && s.pool.threads[i].pc == PoolModel.Busy && k > 0
    requires PoolTasks.TasksOk(s.pool) && Next(c, s, Pool(PoolModel.W(i))) == Some(t)
    requires WorkerTurn(s, s.pool.threads[i], k)
    ensures WorkerTurn(t, t.pool.threads[i], k)
  {
    var p, w := s.pool, s.pool.threads[i];
    PoolTasks.WorkerServes(c, p, i, t.pool);
    assert PoolTasks.HeldOk(p, w);
    AnswerPasses(s, i, k);
    assert t.ops == Answered(s, PoolModel.W(i)).ops && t.pool.popped == p.popped;
    assert w.held.value.task == p.popped[|p.popped| - 1];
  }

  lemma WorkerInTurn(c: PoolModel.Config, s: Sys, i: nat, t: Sys, k: int)
    requires PoolModel.ConfigOk(c) && c.patient && c.max == 1 && Inv(c, s) && k > 0
    requires Next(c, s, Pool(PoolModel.W(i))) == Some(t) && InTurn(s, k)
    ensures InTurn(t, k)
  {
    PoolTasks.WorkerServes(c, s.pool, i, t.pool);
    OthersEmpty(c, s.pool, i);
    TurnOfOne(s, i, k);
    if s.pool.threads[i].pc == PoolModel.Busy {
      AnswersInTurn(c, s, i, t, k);
    } else {
      PopsInTurn(c, s, i, t, k);
    }
    TurnOfOne(t, i, k);
  }

  /** Steps that pop nothing and answer nothing, and start workers at most. */
  lemma KeepsTurn(s: Sys, t: Sys, k: int)
    requires t.pool.popped == s.pool.popped && PassedTo(t.ops, k) == PassedTo(s.ops, k) && InTurn(s, k)
    requires t.pool.threads == s.pool.threads || t.pool.threads == s.pool.threads + [PoolModel.NEW_WORKER]
    ensures InTurn(t, k)
  {
    forall i | 0 <= i < |t.pool.threads| ensures HolderInTurn(t, t.pool.threads[i], k) {
      if i < |s.pool.threads| {
        assert HolderInTurn(s, s.pool.threads[i], k);
      }
    }
    if forall i :: 0 <= i < |t.pool.threads| ==> t.pool.threads[i].held.None? {
      assert forall i :: 0 <= i < |s.pool.threads| ==> s.pool.threads[i] == t.pool.threads[i];
    }
  }

  lemma AdderInTurn(c: PoolModel.Config, s: Sys, t: Sys, k: int)
    requires Next(c, s, Pool(PoolModel.A)) == Some(t) && InTurn(s, k)
    ensures InTurn(t, k)
  {
    assert t.ops == s.ops && t.pool.popped == s.pool.popped;
    assert t.pool.threads == if s.pool.adder.Spawn? then s.pool.threads + [PoolModel.NEW_WORKER] else s.pool.threads;
    KeepsTurn(s, t, k);
  }

  lemma OpInTurn(s: Sys, op: Op, k: int)
    requires InTurn(s, k) && !op.Send?
    ensures InTurn(Performed(s, op), k)
  {
    IsolationStep(s.ops, op, k);
    KeepsTurn(s, Performed(s, op), k);
  }

  lemma FrameInTurn(c: PoolModel.Config, s: Sys, x: Step, t: Sys, k: int)
    requires (x.Arrive? || x.Hand?) && Next(c, s, x) == Some(t) && InTurn(s, k)
    ensures InTurn(t, k)
  {
    assert t.ops == s.ops && t.pool.popped == s.pool.popped && t.pool.threads == s.pool.threads;
    KeepsTurn(s, t, k);
  }

  lemma StepInTurn(c: PoolModel.Config, s: Sys, x: Step, t: Sys, k: int)
    requires PoolModel.ConfigOk(c) && c.patient && c.max == 1 && Inv(c, s) && k > 0
    requires Next(c, s, x) == Some(t) && InTurn(s, k)
    ensures InTurn(t, k)
  {
    match x
    case Pool(l) =>
      if l.W? {
        WorkerInTurn(c, s, l.i, t, k);
      } else {
        AdderInTurn(c, s, t, k);
      }
    case SenderTakes(j) => OpInTurn(s, Take(j), k);
    case ListenerErases(j) => OpInTurn(s, Erase(j), k);
    case _ => FrameInTurn(c, s, x, t, k);
  }

  lemma {:induction false} RunInTurn(c: PoolModel.Config, s: Sys, xs: seq<Step>, k: int)
    requires PoolModel.ConfigOk(c) && c.patient && c.max == 1 && Inv(c, s) && k > 0
    requires Exec(c, s, xs).Some? && InTurn(s, k)
    ensures InTurn(Exec(c, s, xs).value, k)
    decreases |xs|
  {
    if xs != [] {
      var t := Next(c, s, xs[0]).value;
      InvStep(c, s, xs[0], t);
      StepInTurn(c, s, xs[0], t, k);
      RunInTurn(c, t, xs[1..], k);
    }
  }

  /** The replies passed on are those of the popped tasks, but for the last one at most. */
  lemma InTurnIsPrefix(s: Sys, k: int)
    requires InTurn(s, k)
    ensures PassedTo(s.ops, k) <= TaskReplies(s.pool.popped, k)
    ensures Settled(s) ==> PassedTo(s.ops, k) == TaskReplies(s.pool.popped, k)
  {
    if i :| 0 <= i < |s.pool.threads| && s.pool.threads[i].held.Some? {
      assert HolderInTurn(s, s.pool.threads[i], k);
    }
  }

  /** What was popped comes first among the frames cut off. */
  lemma PoppedFirst(s: Sys) returns (more: seq<PoolModel.Task>)
    requires Ordered(s) && s.pool.added == s.pool.popped + s.pool.queue
    ensures Lift(s.cut) == s.pool.popped + more && (Settled(s) ==> more == [])
  {
    more := s.pool.queue + (Pushing(s.pool.adder) + Lift(s.inbox));
  }

  lemma PoppedReplies(s: Sys, more: seq<PoolModel.Task>, k: int)
    requires Lift(s.cut) == s.pool.popped + more
    ensures TaskReplies(s.pool.popped, k) <= Replies(FramesOf(s.cut, k))
    ensures more == [] ==> TaskReplies(s.pool.popped, k) == Replies(FramesOf(s.cut, k))
  {
    TaskRepliesLift(s.cut, k);
    TaskRepliesAppend(s.pool.popped, more, k);
  }

  /** With one worker and a handshake that is not given up, the replies for a client are
      passed on in the order of its frames, in every run; and when everything has been
      processed they are all there. */
  lemma OneWorkerInOrder(c: PoolModel.Config, s: Sys, k: int)
    requires PoolModel.ConfigOk(c) && c.patient && c.max == 1 && Reachable(c, s) && k > 0
    ensures PassedTo(s.ops, k) <= Replies(FramesOf(s.cut, k))
    ensures Settled(s) ==> Buffers(s, k) == Replies(FramesOf(s.cut, k))
  {
    var xs :| Exec(c, START, xs) == Some(s);
    assert Exec(c, START, []) == Some(START);
    ReachableInv(c, START);
    RunInTurn(c, START, xs, k);
    ReachableInv(c, s);
    InTurnIsPrefix(s, k);
    var more := PoppedFirst(s);
    PoppedReplies(s, more, k);
    SendFifo(s.ops, k);
  }

  // ----- Two workers -----

  /** A reachable state goes on by a step of the pool that answers nothing. */
  lemma Do(c: PoolModel.Config, s: Sys, l: PoolModel.Label) returns (t: Sys)
    requires Reachable(c, s) && !l.AddLock? && PoolModel.Apply(c, s.pool, l).Some?
    requires l.W? ==> l.i < |s.pool.threads| && s.pool.threads[l.i].pc != PoolModel.Busy
    ensures Reachable(c, t) && t == s.(pool := PoolModel.Apply(c, s.pool, l).value)
  {
    t := Next(c, s, Pool(l)).value;
    ReachesNext(c, s, Pool(l), t);
  }

  /** The next frame is handed over. */
  lemma HandOver(c: PoolModel.Config, s: Sys) returns (t: Sys)
    requires Reachable(c, s) && s.inbox != [] && s.pool.mtx == PoolModel.Free && s.pool.adder.Idle?
    ensures Reachable(c, t)
    ensures t == s.(inbox := s.inbox[1..],
                    pool := s.pool.(mtx := PoolModel.Adder, adder := PoolModel.Push(Some(s.inbox[0]))))
  {
    t := Next(c, s, Hand).value;
    ReachesNext(c, s, Hand, t);
  }

  /** A request with one byte of data, and its frame as a task of client 1. */
  function Ask(id: U32): Queued {
    Queued(1, RequestBytes(id, EAC_API1, [0]))
  }

  function Answer(id: U32): Buf {
    ResponseBytes(id, EAC_API1, PayloadOf(EAC_API1))
  }

  lemma AskAnswer(id: U32)
    ensures ReplyTo(Ask(id).frame) == Some(Answer(id)) && Field(Answer(id), 1) == id
    ensures SelfSized(Ask(id).frame) && |Ask(id).frame| == 17
  {
    ReplyToRequest(id, EAC_API1, [0]);
    ResponseFields(id, EAC_API1, PayloadOf(EAC_API1));
    RequestFields(id, EAC_API1, [0]);
  }

  function BothAsked(): (c: Chunk)
    ensures ChunkOk(c)
  {
    Chunk(Ask(1).frame + Ask(2).frame, [0, 0, 0])
  }

  /** Two frames that say how long they are. */
  lemma TwoCut(f: seq<Byte>, g: seq<Byte>)
    requires SelfSized(f) && SelfSized(g)
    ensures Cut(f + g) == Cutting([f, g], [])
  {
    CutFrame(f, g);
    CutFrame(g, []);
    assert g + [] == g && [f] + ([g] + []) == [f, g];
  }

  lemma BothCut()
    ensures Feed(None, BothAsked()) == Done([Ask(1).frame, Ask(2).frame], None)
  {
    AskAnswer(1);
    AskAnswer(2);
    TwoCut(Ask(1).frame, Ask(2).frame);
    FreshExact(BothAsked().data, BothAsked().after);
  }

  /** Two requests of one client come in one chunk. */
  lemma TwoArrive(c: PoolModel.Config, s: Sys) returns (t: Sys)
    requires Reachable(c, s) && s.held == map[] && s.inbox == [] && s.cut == [] && s.ops == [] && s.pool.adder.Idle?
    ensures Reachable(c, t) && t.pool == s.pool && t.inbox == t.cut == [Ask(1), Ask(2)] && t.ops == []
  {
    BothCut();
    var e := Received(1, BothAsked());
    var q := Tagged(1, [Ask(1).frame, Ask(2).frame]);
    assert q == [Ask(1), Ask(2)] && [] + q == q;
    t := Next(c, s, Arrive(e)).value;
    ReachesNext(c, s, Arrive(e), t);
  }

  /** Worker i, registered, takes the first queued task and is busy with it. */
  lemma Takes(c: PoolModel.Config, s: Sys, i: nat) returns (t: Sys)
    requires Reachable(c, s) && i < |s.pool.threads| && s.pool.threads[i].pc == PoolModel.Top
    requires s.pool.mtx == PoolModel.Free && s.pool.queue != [] && s.pool.queue[0].Some?
    ensures Reachable(c, t) && t.inbox == s.inbox && t.cut == s.cut && t.ops == s.ops
    ensures PoolLimits.Only(s.pool, i, t.pool) && t.pool.mtx == PoolModel.Free && t.pool.valid == s.pool.valid
    ensures t.pool.queue == s.pool.queue[1..] && BusyWith(t.pool, i, s.pool.queue[0])
  {
    t := Do(c, s, PoolModel.W(i));
    t := Do(c, t, PoolModel.W(i));
    t := Do(c, t, PoolModel.W(i));
  }

  predicate BusyWith(p: PoolModel.State, i: nat, task: PoolModel.Task) {
    && i < |p.threads| && p.threads[i].pc == PoolModel.Busy && p.threads[i].st == 2
    && p.threads[i].held.Some? && p.threads[i].held.value.task == task
  }

  lemma Registers(c: PoolModel.Config, s: Sys, i: nat) returns (t: Sys)
    requires Reachable(c, s) && i < |s.pool.threads| && s.pool.threads[i].pc == PoolModel.RegWait
    requires s.pool.mtx == PoolModel.Free && s.pool.valid < 65535
    ensures Reachable(c, t) && t.inbox == s.inbox && t.cut == s.cut && t.ops == s.ops
    ensures PoolLimits.Only(s.pool, i, t.pool) && t.pool.mtx == PoolModel.Free && t.pool.queue == s.pool.queue
    ensures t.pool.threads[i] == s.pool.threads[i].(pc := PoolModel.Top, free := 0)
    ensures t.pool.valid == s.pool.valid + 1
  {
    t := Do(c, s, PoolModel.W(i));
    t := Do(c, t, PoolModel.W(i));
  }

  /** One worker is busy with the first request, the second request is queued, and there is
      another worker, about to register. */
  predicate HalfWay(s: Sys) {
    var p := s.pool;
    && p.mtx == PoolModel.Free && p.adder.Idle? && p.valid < 65535
    && BusyWith(p, 0, Some(Ask(1))) && |p.threads| >= 2 && p.threads[1].pc == PoolModel.RegWait
    && p.queue == [Some(Ask(2))] && s.cut == [Ask(1), Ask(2)] && s.ops == []
  }

  lemma AnswerIs(s: Sys, i: nat, id: U32)
    requires BusyWith(s.pool, i, Some(Ask(id)))
    ensures Answered(s, PoolModel.W(i)) == Performed(s, Send(1, Answer(id)))
  {
    AskAnswer(id);
  }

  /** A worker is done with one of the requests and passes its answer on. */
  lemma Answers(c: PoolModel.Config, s: Sys, i: nat, id: U32) returns (t: Sys)
    requires Reachable(c, s) && BusyWith(s.pool, i, Some(Ask(id)))
    ensures Reachable(c, t) && t.cut == s.cut && PoolLimits.Only(s.pool, i, t.pool)
    ensures PassedTo(t.ops, 1) == PassedTo(s.ops, 1) + [Answer(id)]
  {
    AnswerIs(s, i, id);
    t := Performed(s, Send(1, Answer(id))).(pool := PoolModel.WorkerStep(c, s.pool, i).value);
    ReachesNext(c, s, Pool(PoolModel.W(i)), t);
    IsolationStep(s.ops, Send(1, Answer(id)), 1);
  }

  lemma BothBusy(c: PoolModel.Config, s: Sys) returns (t: Sys)
    requires Reachable(c, s) && HalfWay(s)
    ensures Reachable(c, t) && t.cut == [Ask(1), Ask(2)] && t.ops == []
    ensures BusyWith(t.pool, 0, Some(Ask(1))) && BusyWith(t.pool, 1, Some(Ask(2)))
  {
    t := Registers(c, s, 1);
    t := Takes(c, t, 1);
  }

  /** The second worker is done with its request first. */
  lemma Exchange(c: PoolModel.Config, s: Sys) returns (t: Sys)
    requires Reachable(c, s) && HalfWay(s)
    ensures Reachable(c, t) && t.cut == [Ask(1), Ask(2)] && PassedTo(t.ops, 1) == [Answer(2), Answer(1)]
  {
    t := BothBusy(c, s);
    t := Answers(c, t, 1, 2);
    t := Answers(c, t, 0, 1);
  }

  /** `initTaskPool` with k workers started, all in time. */
  predicate Booting(s: Sys, k: nat) {
    && s == START.(pool := s.pool)
    && s.pool.mtx == PoolModel.Adder && s.pool.adder == PoolModel.Init && s.pool.listed == |s.pool.threads| == k
    && s.pool.valid == 0 && s.pool.queue == [] && PoolLimits.At(s.pool, 0, k, PoolModel.RegWait, 1, 0)
  }

  lemma BootsOne(c: PoolModel.Config, s: Sys, k: nat) returns (t: Sys)
    requires Reachable(c, s) && Booting(s, k) && k < c.min
    ensures Reachable(c, t) && Booting(t, k + 1)
  {
    t := Do(c, s, PoolModel.A);
    t := Do(c, t, PoolModel.A);
    t := Do(c, t, PoolModel.W(k));
    t := Do(c, t, PoolModel.A);
  }

  lemma Boots(c: PoolModel.Config) returns (s: Sys)
    requires PoolModel.ConfigOk(c)
    ensures Reachable(c, s) && s == START.(pool := s.pool) && PoolLimits.Calm(s.pool, c.min)
    ensures PoolLimits.At(s.pool, 0, c.min, PoolModel.RegWait, 1, 0) && s.pool.valid == 0 && s.pool.queue == []
  {
    s := START;
    assert Exec(c, START, []) == Some(START);
    for k := 0 to c.min
      invariant Reachable(c, s) && Booting(s, k)
    {
      s := BootsOne(c, s, k);
    }
    s := Do(c, s, PoolModel.A);
    s := Do(c, s, PoolModel.A);
  }

  /** The first request finds the first worker waiting for it. */
  lemma FirstTaken(c: PoolModel.Config) returns (s: Sys)
    requires PoolModel.ConfigOk(c) && c.max >= 2
    ensures Reachable(c, s) && s.inbox == [Ask(2)] && s.cut == [Ask(1), Ask(2)] && s.ops == []
    ensures PoolLimits.Calm(s.pool, c.min) && BusyWith(s.pool, 0, Some(Ask(1)))
    ensures s.pool.valid == 1 && s.pool.queue == []
    ensures c.min >= 2 ==> s.pool.threads[1].pc == PoolModel.RegWait && s.pool.threads[1].st == 1
  {
    s := Boots(c);
    s := TwoArrive(c, s);
    s := Registers(c, s, 0);
    s := HandOver(c, s);
    s := Do(c, s, PoolModel.A);
    s := Do(c, s, PoolModel.A);
    s := Do(c, s, PoolModel.A);
    s := Takes(c, s, 0);
  }

  /** The second finds another worker idle, or one is started for it. */
  lemma HalfWayOnTime(c: PoolModel.Config) returns (s: Sys)
    requires PoolModel.ConfigOk(c) && c.max >= 2
    ensures Reachable(c, s) && HalfWay(s)
  {
    s := FirstTaken(c);
    s := HandOver(c, s);
    s := Do(c, s, PoolModel.A);
    s := Do(c, s, PoolModel.A);
    s := Do(c, s, PoolModel.A);
    if c.min == 1 {
      s := Do(c, s, PoolModel.A);
      s := Do(c, s, PoolModel.W(1));
      s := Do(c, s, PoolModel.A);
    }
    s := Do(c, s, PoolModel.A);
  }

  /** `initTaskPool` with the only worker late. */
  lemma BootsLate(c: PoolModel.Config) returns (s: Sys)
    requires c == PoolModel.Config(1, 1, false)
    ensures Reachable(c, s) && s == START.(pool := s.pool) && PoolLimits.Calm(s.pool, 1)
    ensures PoolLimits.At(s.pool, 0, 1, PoolModel.Start, 0, 0) && s.pool.valid == 0 && s.pool.queue == []
  {
    s := START;
    assert Exec(c, START, []) == Some(START);
    s := Do(c, s, PoolModel.A);
    s := Do(c, s, PoolModel.A);
    s := Do(c, s, PoolModel.Timeout);
    s := Do(c, s, PoolModel.A);
    s := Do(c, s, PoolModel.A);
  }

  /** The scan for the first request does not see the late worker. */
  lemma LateUnseen(c: PoolModel.Config) returns (s: Sys)
    requires c == PoolModel.Config(1, 1, false)
    ensures Reachable(c, s) && s.inbox == [Ask(2)] && s.cut == [Ask(1), Ask(2)] && s.ops == []
    ensures s.pool.mtx == PoolModel.Adder && s.pool.adder == PoolModel.Spawn(false)
    ensures s.pool.ready && s.pool.listed == |s.pool.threads| == 1 && s.pool.threads[0].pc == PoolModel.Start
    ensures s.pool.queue == [Some(Ask(1))] && s.pool.valid == 0
  {
    s := BootsLate(c);
    s := TwoArrive(c, s);
    s := HandOver(c, s);
    s := Do(c, s, PoolModel.A);
    s := Do(c, s, PoolModel.A);
    s := Do(c, s, PoolModel.A);
  }

  /** With a maximum of one, a second worker is started because the first one is late. */
  lemma SecondStarted(c: PoolModel.Config) returns (s: Sys)
    requires c == PoolModel.Config(1, 1, false)
    ensures Reachable(c, s) && s.inbox == [Ask(2)] && s.cut == [Ask(1), Ask(2)] && s.ops == []
    ensures PoolLimits.Calm(s.pool, 2) && s.pool.queue == [Some(Ask(1))] && s.pool.valid == 0
    ensures s.pool.threads[0].pc == PoolModel.Start && s.pool.threads[1].pc == PoolModel.RegWait
  {
    s := LateUnseen(c);
    s := Do(c, s, PoolModel.A);
    s := Do(c, s, PoolModel.W(1));
    s := Do(c, s, PoolModel.A);
    s := Do(c, s, PoolModel.A);
  }

  lemma HalfWayLate(c: PoolModel.Config) returns (s: Sys)
    requires c == PoolModel.Config(1, 1, false)
    ensures Reachable(c, s) && HalfWay(s)
  {
    s := SecondStarted(c);
    s := Do(c, s, PoolModel.W(0));
    s := Registers(c, s, 0);
    s := Takes(c, s, 0);
    s := HandOver(c, s);
    s := Do(c, s, PoolModel.A);
    s := Do(c, s, PoolModel.A);
  }

  lemma TwoFrames()
    ensures FramesOf([Ask(1), Ask(2)], 1) == [Ask(1).frame, Ask(2).frame]
  {
    var qs := [Ask(1), Ask(2)];
    assert qs[..1] == [Ask(1)] && qs[..1][..0] == [];
    assert FramesOf([Ask(1)], 1) == [Ask(1).frame];
  }

  lemma TwoReplies()
    ensures Replies([Ask(1).frame, Ask(2).frame]) == [Answer(1), Answer(2)]
  {
    AskAnswer(1);
    AskAnswer(2);
    var fs: seq<seq<Byte>> := [Ask(1).frame, Ask(2).frame];
    var first: seq<seq<Byte>> := [Ask(1).frame];
    assert fs[..1] == first && first[..0] == [];
    assert Replies(first) == [Answer(1)];
  }

  lemma TwoAreNotInOrder()
    ensures !([Answer(2), Answer(1)] <= Replies(FramesOf([Ask(1), Ask(2)], 1)))
  {
    TwoFrames();
    TwoReplies();
    AskAnswer(1);
    AskAnswer(2);
    assert [Answer(2), Answer(1)][0] != [Answer(1), Answer(2)][0];
  }

  /** Exactly which pools keep the replies for every client in the order of its requests. */
  lemma OrderExactly(c: PoolModel.Config)
    requires PoolModel.ConfigOk(c)
    ensures (forall s, k :: Reachable(c, s) && k > 0 ==> PassedTo(s.ops, k) <= Replies(FramesOf(s.cut, k)))
            <==> c.patient && c.max == 1
  {
    if c.patient && c.max == 1 {
      forall s, k | Reachable(c, s) && k > 0 ensures PassedTo(s.ops, k) <= Replies(FramesOf(s.cut, k)) {
        OneWorkerInOrder(c, s, k);
      }
    } else {
      var s;
      if c.max >= 2 {
        s := HalfWayOnTime(c);
      } else {
        s := HalfWayLate(c);
      }
      s := Exchange(c, s);
      TwoAreNotInOrder();
      assert !(PassedTo(s.ops, 1) <= Replies(FramesOf(s.cut, 1)));
    }
  }
}
