/** What the server can bring to an end without receiving anything more, exactly; and that
    it can serve any chunks it survives to the last reply. */
module ServerProgress {
  import opened Bytes
  import opened Streams
  import PoolSafety
  import PoolSettles
  import opened Protocol
  import opened SendQueue
  import opened Dispatch
  import Client
  import opened ServerModel

  predicate NoneArrives(xs: seq<Step>) {
    forall x :: x in xs ==> !x.Arrive?
  }

  /** A run from s to t in which no chunk arrives. */
  ghost predicate Continues(c: PoolModel.Config, s: Sys, t: Sys) {
    exists xs :: NoneArrives(xs) && Exec(c, s, xs) == Some(t)
  }

  lemma ContinuesSelf(c: PoolModel.Config, s: Sys)
    ensures Continues(c, s, s)
  {
    assert Exec(c, s, []) == Some(s);
  }

  lemma {:induction false} ExecAppend(c: PoolModel.Config, s: Sys, a: seq<Step>, b: seq<Step>)
    ensures Exec(c, s, a + b) == var m := Exec(c, s, a); if m.None? then None else Exec(c, m.value, b)
    decreases |a|
  {
    if a == [] {
      assert a + b == b;
    } else {
      assert (a + b)[1..] == a[1..] + b;
      var s' := Next(c, s, a[0]);
      if s'.Some? {
        ExecAppend(c, s'.value, a[1..], b);
      }
    }
  }

  lemma ContinuesTrans(c: PoolModel.Config, s: Sys, t: Sys, u: Sys)
    requires Continues(c, s, t) && Continues(c, t, u)
    ensures Continues(c, s, u)
  {
    var a :| NoneArrives(a) && Exec(c, s, a) == Some(t);
    var b :| NoneArrives(b) && Exec(c, t, b) == Some(u);
    ExecAppend(c, s, a, b);
    assert NoneArrives(a + b);
  }

  lemma ContinuesStep(c: PoolModel.Config, s: Sys, x: Step, t: Sys)
    requires !x.Arrive? && Next(c, s, x) == Some(t)
    ensures Continues(c, s, t)
  {
    assert Exec(c, t, [x][1..]) == Some(t);
    assert Exec(c, s, [x]) == Some(t);
  }

  lemma ReachesOn(c: PoolModel.Config, s: Sys, t: Sys)
    requires Reachable(c, s) && Continues(c, s, t)
    ensures Reachable(c, t)
  {
    var a :| Exec(c, START, a) == Some(s);
    var b :| NoneArrives(b) && Exec(c, s, b) == Some(t);
    ExecAppend(c, START, a, b);
  }

  /** Nothing was received and no connection was erased in between. */
  ghost predicate Kept(s: Sys, t: Sys) {
    && t.events == s.events && t.held == s.held && t.cut == s.cut
    && forall k :: NeverErased(s.ops, k) ==> NeverErased(t.ops, k)
  }

  /** A continuation by the server's own threads. */
  ghost predicate Serves(c: PoolModel.Config, s: Sys, t: Sys) {
    Continues(c, s, t) && Kept(s, t) && (Inv(c, s) ==> Inv(c, t))
  }

  lemma KeptStep(c: PoolModel.Config, s: Sys, x: Step, t: Sys)
    requires !x.Arrive? && !x.ListenerErases? && Next(c, s, x) == Some(t)
    ensures Kept(s, t)
  {
    assert t.ops == s.ops || (|t.ops| == |s.ops| + 1 && t.ops[..|s.ops|] == s.ops && !t.ops[|s.ops|].Erase?);
    forall k | NeverErased(s.ops, k) ensures NeverErased(t.ops, k) {
      assert forall op :: op in t.ops ==> op in s.ops || !op.Erase?;
    }
  }

  lemma ServesStep(c: PoolModel.Config, s: Sys, x: Step, t: Sys)
    requires !x.Arrive? && !x.ListenerErases? && Next(c, s, x) == Some(t)
    ensures Serves(c, s, t)
  {
    ContinuesStep(c, s, x, t);
    KeptStep(c, s, x, t);
    if Inv(c, s) {
      InvStep(c, s, x, t);
    }
  }

  lemma ServesTrans(c: PoolModel.Config, s: Sys, t: Sys, u: Sys)
    requires Serves(c, s, t) && Serves(c, t, u)
    ensures Serves(c, s, u)
  {
    ContinuesTrans(c, s, t, u);
  }

  /** What the pool can do by itself, it can do in the server. */
  lemma {:induction false} PoolServes(c: PoolModel.Config, s: Sys, ls: seq<PoolModel.Label>) returns (t: Sys)
    requires PoolSettles.Quiet(ls) && PoolModel.Exec(c, s.pool, ls).Some?
    ensures Serves(c, s, t) && t.inbox == s.inbox && Some(t.pool) == PoolModel.Exec(c, s.pool, ls)
    decreases |ls|
  {
    if ls == [] {
      t := s;
      ContinuesSelf(c, s);
    } else {
      assert ls[0].A? || ls[0].W?;
      var u := Next(c, s, Pool(ls[0])).value;
      ServesStep(c, s, Pool(ls[0]), u);
      t := PoolServes(c, u, ls[1..]);
      ServesTrans(c, s, u, t);
    }
  }

  lemma PoolComes(c: PoolModel.Config, s: Sys, p: PoolModel.State) returns (t: Sys)
    requires PoolSettles.Comes(c, s.pool, p)
    ensures Serves(c, s, t) && t.inbox == s.inbox && t.pool == p
  {
    var ls :| PoolSettles.Quiet(ls) && PoolModel.Exec(c, s.pool, ls) == Some(p);
    t := PoolServes(c, s, ls);
  }

  lemma PoolOk(c: PoolModel.Config, s: Sys)
    requires PoolModel.ConfigOk(c) && Inv(c, s)
    ensures PoolSettles.AllOk(c, s.pool)
  {
    PoolSafety.ReachableInv(c, s.pool);
  }

  lemma HandsNow(c: PoolModel.Config, s: Sys) returns (t: Sys)
    requires s.inbox != [] && s.pool.adder.Idle? && s.pool.mtx == PoolModel.Free
    requires PoolModel.Count(s.pool.threads, PoolModel.Present) >= 1 || s.pool.valid < c.max
    ensures Serves(c, s, t) && t.inbox == s.inbox[1..] && PoolSettles.Hope(c, t.pool)
  {
    t := Next(c, s, Hand).value;
    ServesStep(c, s, Hand, t);
    assert t.pool.threads == s.pool.threads && t.pool.mtx == PoolModel.Adder;
  }

  /** The receiving thread passes on its next frame, whatever the pool is at. */
  lemma HandsOn(c: PoolModel.Config, s: Sys) returns (t: Sys)
    requires PoolModel.ConfigOk(c) && Inv(c, s) && s.inbox != []
    ensures Serves(c, s, t) && t.inbox == s.inbox[1..] && PoolSettles.Hope(c, t.pool)
  {
    PoolOk(c, s);
    var p := PoolSettles.AdderEnds(c, s.pool);
    var q := PoolSettles.MakesRoom(c, p);
    PoolSettles.ComesTrans(c, s.pool, p, q);
    var u := PoolComes(c, s, q);
    t := HandsNow(c, u);
    ServesTrans(c, s, u, t);
  }

  lemma {:induction false} FinishesTasks(c: PoolModel.Config, s: Sys) returns (t: Sys)
    requires PoolModel.ConfigOk(c) && Inv(c, s) && (s.inbox != [] || PoolSettles.Hope(c, s.pool))
    ensures Serves(c, s, t) && t.inbox == [] && PoolSettles.AtRest(t.pool)
    decreases |s.inbox|
  {
    if s.inbox == [] {
      PoolOk(c, s);
      var p := PoolSettles.ComesToRest(c, s.pool);
      t := PoolComes(c, s, p);
    } else {
      var u := HandsOn(c, s);
      t := FinishesTasks(c, u);
      ServesTrans(c, s, u, t);
    }
  }

  // ----- The sender -----

  predicate NonePending(s: Sys) {
    forall k :: k in s.lists ==> s.lists[k] == []
  }

  lemma {:induction false} SendsFor(c: PoolModel.Config, s: Sys, k: int) returns (t: Sys)
    ensures Serves(c, s, t) && t.inbox == s.inbox && t.pool == s.pool
    ensures PendingOf(t.lists, k) == [] && forall j :: j != k ==> PendingOf(t.lists, j) == PendingOf(s.lists, j)
    decreases |PendingOf(s.lists, k)|
  {
    if PendingOf(s.lists, k) == [] {
      t := s;
      ContinuesSelf(c, s);
    } else {
      var u := Next(c, s, SenderTakes(k)).value;
      ServesStep(c, s, SenderTakes(k), u);
      t := SendsFor(c, u, k);
      ServesTrans(c, s, u, t);
    }
  }

  lemma {:induction false} SendsAll(c: PoolModel.Config, s: Sys, ks: set<int>) returns (t: Sys)
    requires forall j :: j !in ks ==> PendingOf(s.lists, j) == []
    ensures Serves(c, s, t) && t.inbox == s.inbox && t.pool == s.pool
    ensures forall j :: PendingOf(t.lists, j) == []
    decreases |ks|
  {
    if k :| k in ks {
      var u := SendsFor(c, s, k);
      t := SendsAll(c, u, ks - {k});
      ServesTrans(c, s, u, t);
    } else {
      t := s;
      ContinuesSelf(c, s);
    }
  }

  // ----- The main results -----

  /** Everything received has been processed and every reply has been taken by the sender. */
  predicate Served(s: Sys) {
    Settled(s) && NonePending(s)
  }

  lemma ServesToTheEnd(c: PoolModel.Config, s: Sys) returns (t: Sys)
    requires PoolModel.ConfigOk(c) && Inv(c, s) && (s.inbox != [] || PoolSettles.Hope(c, s.pool))
    ensures Serves(c, s, t) && Served(t) && PoolSettles.AtRest(t.pool)
  {
    var u := FinishesTasks(c, s);
    t := SendsAll(c, u, u.lists.Keys);
    ServesTrans(c, s, u, t);
    forall k | k in t.lists ensures t.lists[k] == [] {
      assert PendingOf(t.lists, k) == [];
    }
  }

  lemma NoHopeNext(c: PoolModel.Config, s: Sys, x: Step, t: Sys)
    requires PoolModel.ConfigOk(c) && Inv(c, s) && !x.Arrive? && Next(c, s, x) == Some(t)
    requires s.inbox == [] && !PoolSettles.Hope(c, s.pool)
    ensures Inv(c, t) && t.inbox == [] && !PoolSettles.Hope(c, t.pool)
  {
    InvStep(c, s, x, t);
    if x.Pool? {
      PoolOk(c, s);
      PoolSettles.NoHopeStays(c, s.pool, x.l, t.pool);
    }
  }

  lemma {:induction false} NoHopeEver(c: PoolModel.Config, s: Sys, xs: seq<Step>)
    requires PoolModel.ConfigOk(c) && Inv(c, s) && NoneArrives(xs) && Exec(c, s, xs).Some?
    requires s.inbox == [] && !PoolSettles.Hope(c, s.pool)
    ensures !Settled(Exec(c, s, xs).value)
    decreases |xs|
  {
    if xs != [] {
      var t := Next(c, s, xs[0]).value;
      NoHopeNext(c, s, xs[0], t);
      NoHopeEver(c, t, xs[1..]);
    }
  }

  /** Exactly which states can be served to the end without a further chunk: those with a
      frame still to be handed to the pool, and those in which the pool has hope. */
  lemma ServedExactly(c: PoolModel.Config, s: Sys)
    requires PoolModel.ConfigOk(c) && Reachable(c, s)
    ensures (exists t :: Continues(c, s, t) && Served(t)) <==> s.inbox != [] || PoolSettles.Hope(c, s.pool)
  {
    ReachableInv(c, s);
    if s.inbox != [] || PoolSettles.Hope(c, s.pool) {
      var t := ServesToTheEnd(c, s);
    } else if exists t :: Continues(c, s, t) && Served(t) {
      var t :| Continues(c, s, t) && Served(t);
      var xs :| NoneArrives(xs) && Exec(c, s, xs) == Some(t);
      NoHopeEver(c, s, xs);
    }
  }

  /** In particular every state in which at most the minimum of workers were ever leaving at
      once and none is just about to be told that it may; and, in a pool that cannot grow,
      every state. */
  lemma ServedWithinPeak(c: PoolModel.Config, s: Sys)
    requires PoolModel.ConfigOk(c) && Reachable(c, s)
    requires (s.pool.peak <= c.min && !PoolSettles.Poised(c, s.pool)) || !PoolSafety.CanGrow(c)
    ensures exists t :: Continues(c, s, t) && Served(t)
  {
    ReachableInv(c, s);
    PoolOk(c, s);
    PoolSafety.CheckMeansMore(c, s.pool);
    ServedExactly(c, s);
  }

  /** The next chunk, at a server at rest. */
  lemma Arrives(c: PoolModel.Config, s: Sys, e: Received) returns (t: Sys)
    requires Inv(c, s) && s.inbox == [] && s.pool.adder.Idle?
    requires EventsOk(s.events + [e]) && Serve(s.events + [e]).Running?
    ensures Next(c, s, Arrive(e)) == Some(t) && t.events == s.events + [e] && t.pool == s.pool && t.ops == s.ops
  {
    assert e in s.events + [e];
    ServeMore(s.events, e);
    t := Next(c, s, Arrive(e)).value;
  }

  lemma ReachesNext(c: PoolModel.Config, s: Sys, x: Step, t: Sys)
    requires Reachable(c, s) && Next(c, s, x) == Some(t)
    ensures Reachable(c, t)
  {
    var xs :| Exec(c, START, xs) == Some(s);
    ExecAppend(c, START, xs, [x]);
    assert Exec(c, t, [x][1..]) == Some(t);
    assert Exec(c, s, [x]) == Some(t);
  }

  /** Every list of chunks that the reassembler survives can be served to the end, in every
      pool: there is a run that receives just these, in which everything is processed, every
      reply is taken, and no connection is erased. */
  lemma {:induction false} EveryRunServed(c: PoolModel.Config, es: seq<Received>) returns (s: Sys)
    requires PoolModel.ConfigOk(c) && EventsOk(es) && Serve(es).Running?
    ensures Reachable(c, s) && s.events == es && Served(s) && PoolSettles.AtRest(s.pool)
    ensures forall k :: NeverErased(s.ops, k)
    decreases |es|
  {
    var t;
    if es == [] {
      t := START;
      assert Exec(c, START, []) == Some(START);
    } else {
      var m := |es| - 1;
      assert es[..m] + [es[m]] == es;
      var u := EveryRunServed(c, es[..m]);
      ReachableInv(c, u);
      t := Arrives(c, u, es[m]);
      ReachesNext(c, u, Arrive(es[m]), t);
    }
    s := FromHere(c, t);
  }

  lemma FromHere(c: PoolModel.Config, s: Sys) returns (t: Sys)
    requires PoolModel.ConfigOk(c) && Reachable(c, s) && s.pool.queue == [] && !s.pool.adder.Push?
    requires forall k :: NeverErased(s.ops, k)
    ensures Reachable(c, t) && t.events == s.events && Served(t) && PoolSettles.AtRest(t.pool)
    ensures forall k :: NeverErased(t.ops, k)
  {
    ReachableInv(c, s);
    t := ServesToTheEnd(c, s);
    ReachesOn(c, s, t);
  }

  /** However the bytes `sent` are cut on their way back, the client's loop gets a reply that
      parses to the id and command of its request, result 0 and the command's payload. */
  ghost predicate ClientGets(sent: seq<Byte>, m: Made) {
    forall rs :: Client.ReceivesOk(rs) && |rs| > 0 && |rs[0]| >= 4 && Flat(rs) == sent ==>
      ParseResponse(Client.FirstFrame(Flat(rs), Peek(rs[0], ZEROS)))
      == Accepted(Reply(m.id, m.cmd, PAYLOAD, PayloadOf(m.cmd)))
  }

  /** So every request gets its answer: whatever the pool, and whatever other clients send in
      between, a request with a known command in any safe chunks can be served to a state in
      which the sender has taken just its response for the client, and the client gets it. */
  lemma EveryRequestCanBeAnswered(c: PoolModel.Config, es: seq<Received>, k: int, m: Made)
    requires PoolModel.ConfigOk(c) && EventsOk(es) && Serve(es).Running? && k > 0
    requires MadeOk(m) && (m.cmd == EAC_API1 || m.cmd == EAC_API2)
    requires AllSafe(ChunksOf(es, k)) && Data(ChunksOf(es, k)) == RequestBytes(m.id, m.cmd, m.data)
    ensures exists s :: Reachable(c, s) && s.events == es && Served(s) && NeverErased(s.ops, k)
                        && Bufs(LeftOf(s.ops, k)) == [ResponseBytes(m.id, m.cmd, PayloadOf(m.cmd))]
                        && ClientGets(Flat(Bufs(LeftOf(s.ops, k))), m)
  {
    var s := EveryRunServed(c, es);
    assert PendingOf(s.lists, k) == [];
    AnswerTaken(c, s, k, m);
    forall rs | Client.ReceivesOk(rs) && |rs| > 0 && |rs[0]| >= 4 && Flat(rs) == Flat(Bufs(LeftOf(s.ops, k)))
      ensures ParseResponse(Client.FirstFrame(Flat(rs), Peek(rs[0], ZEROS)))
              == Accepted(Reply(m.id, m.cmd, PAYLOAD, PayloadOf(m.cmd)))
    {
      RequestResponse(c, s, k, m, rs);
    }
  }
}
