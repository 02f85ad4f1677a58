/** `taskController` with its buffers on the heap: `makeNewTask` allocates a frame buffer
    for each frame, fills it in place over several calls, and hands it to the pool. */
module TaskController {
  import opened Bytes
  import opened Reassembly
  import opened Streams
  import opened HeaderReads

  class TaskData {
    const clientId: int
    const databuf: array<Byte>
    const len: U32
    var curLen: nat

    constructor (clientId: int, databuf: array<Byte>, len: U32)
      ensures this.clientId == clientId && this.databuf == databuf && this.len == len && curLen == 0
    {
      this.clientId := clientId;
      this.databuf := databuf;
      this.len := len;
      curLen := 0;
    }
  }

  method Memcpy(dst: array<Byte>, d: nat, src: array<Byte>, s: nat, n: nat)
    requires dst != src && d + n <= dst.Length && s + n <= src.Length
    modifies dst
    ensures dst[d..d + n] == src[s..s + n]
    ensures dst[..d] == old(dst[..d]) && dst[d + n..] == old(dst[d + n..])
  {
    forall i | 0 <= i < n {
      dst[d + i] := src[s + i];
    }
  }

  /** The state when one frame of client `c` has been queued and nothing is stored for it. */
  function QueuedOne(sv: Server, c: int, f: seq<Byte>): Server
    requires sv.Running?
  {
    Running(sv.queued + [Queued(c, f)], sv.slots - {c})
  }

  function StoredOne(sv: Server, c: int, p: Partial): Server
    requires sv.Running?
  {
    Running(sv.queued, sv.slots[c := p])
  }

  /** Committing an outcome whose first frame has just been queued. */
  lemma CommitFirst(sv: Server, c: int, f: seq<Byte>, o: Outcome)
    requires sv.Running? && o.Done?
    ensures Commit(QueuedOne(sv, c, f), c, o) == Commit(sv, c, Prepend(f, o))
  {
    assert Tagged(c, [f] + o.frames) == [Queued(c, f)] + Tagged(c, o.frames);
    var slots := sv.slots;
    assert slots - {c} - {c} == slots - {c};
    if o.slot.Some? {
      assert slots[c := o.slot.value] == (slots - {c})[c := o.slot.value];
    }
  }

  lemma CommitOnly(sv: Server, c: int, f: seq<Byte>)
    requires sv.Running?
    ensures Commit(sv, c, Done([f], None)) == QueuedOne(sv, c, f)
  {
    assert Tagged(c, [f]) == [Queued(c, f)];
  }

  lemma CommitStored(sv: Server, c: int, p: Partial)
    requires sv.Running?
    ensures Commit(sv, c, Done([], Some(p))) == StoredOne(sv, c, p)
  {
    assert sv.queued + Tagged(c, []) == sv.queued;
  }

  /** How a call ends on a machine whose stack holds so many calls and no more. */
  datatype End = Returned | Overran | StackUsedUp

  /** A call for client `c` took the controller from `sv` to `tv`: it returned with the
      modelled outcome; or the next copy would leave its buffer; or the stack was used up,
      with nothing done but frames of the client queued. */
  ghost predicate Ended(sv: Server, tv: Server, c: int, o: Option<Outcome>, end: End) {
    && sv.Running? && tv.Running?
    && match end
       case Returned => o.Some? && o.value.Done? && tv == Commit(sv, c, o.value)
       case Overran => o == Some(Overrun) && tv == sv
       case StackUsedUp =>
         o.None? && sv.queued <= tv.queued && forall d :: d != c ==> SlotOf(tv.slots, d) == SlotOf(sv.slots, d)
  }

  /** A nested call after one frame has been queued. */
  lemma EndedFirst(sv: Server, tv: Server, c: int, f: seq<Byte>, o: Option<Outcome>, end: End)
    requires sv.Running? && Ended(QueuedOne(sv, c, f), tv, c, o, end) && (o.Some? ==> o.value.Done?)
    ensures Ended(sv, tv, c, Then(f, o), end)
  {
    if o.Some? {
      CommitFirst(sv, c, f, o.value);
    } else {
      assert sv.queued <= sv.queued + [Queued(c, f)] <= tv.queued;
      assert forall d :: d != c ==> SlotOf(sv.slots - {c}, d) == SlotOf(sv.slots, d);
    }
  }

  lemma EndedReturned(sv: Server, tv: Server, c: int, o: Outcome)
    requires sv.Running? && o.Done? && tv == Commit(sv, c, o)
    ensures Ended(sv, tv, c, Some(o), Returned)
  {
  }

  /** The branch that starts a frame, case by case. */
  lemma FreshCases(stack: nat, s: seq<Byte>, after: seq<Byte>)
    requires |s| > 0 && |after| == 3 && stack > 0
    ensures var o, n := Unrolled(stack, s, after), Peek(s, after);
            && (n < |s| ==> var rest := Unrolled(stack - 1, s[n..], after);
                            && (rest.Some? ==> rest.value.Done?)
                            && o == Then(s[..n], rest))
            && (n == |s| ==> o == Some(Done([s], None)))
            && (n > |s| ==> o == Some(Done([], Some(Partial(n, s)))))
  {
    var n := Peek(s, after);
    if n < |s| {
      UnrolledReturns(stack - 1, s[n..], after);
    }
  }

  /** The branch that merges, when nothing is left behind the frame. */
  lemma MergeWithin(stack: nat, p: Partial, c: Chunk, sum: nat, o: Option<Outcome>)
    requires SlotOk(Some(p)) && ChunkOk(c) && stack > 0 && sum == (|c.data| + |p.have|) % TWO32 <= p.len
    requires o == UnrolledCall(stack, Some(p), c)
    ensures var need := p.len - |p.have|;
            if sum == p.len then need == |c.data| && o == Some(Done([p.have + c.data], None))
            else if |c.data| > need then o == Some(Overrun)
            else |c.data| < need && o == Some(Done([], Some(Partial(p.len, p.have + c.data))))
  {
    SumWraps(|c.data| + |p.have|, |c.data|, |p.have|, p.len);
    assert c.data[..|c.data|] == c.data;
  }

  /** The branch that merges, when there is more. */
  lemma MergeBeyond(stack: nat, p: Partial, c: Chunk, sum: nat, o: Option<Outcome>)
    requires SlotOk(Some(p)) && ChunkOk(c) && stack > 0 && sum == (|c.data| + |p.have|) % TWO32 > p.len
    requires o == UnrolledCall(stack, Some(p), c)
    ensures var need := p.len - |p.have|;
            && need < |c.data|
            && var rest := Unrolled(stack - 1, c.data[need..], c.after);
            && (rest.Some? ==> rest.value.Done?)
            && o == Then(p.have + c.data[..need], rest)
  {
    SumWraps(|c.data| + |p.have|, |c.data|, |p.have|, p.len);
    UnrolledReturns(stack - 1, c.data[p.len - |p.have|..], c.after);
  }

  /** Both, for the branches of the code. */
  lemma MergeCases(stack: nat, p: Partial, c: Chunk, sum: nat, need: nat, o: Option<Outcome>)
    requires SlotOk(Some(p)) && ChunkOk(c) && stack > 0
    requires sum == (|c.data| + |p.have|) % TWO32 && need == p.len - |p.have|
    requires o == UnrolledCall(stack, Some(p), c)
    ensures sum < p.len && |c.data| > need ==> o == Some(Overrun)
    ensures sum < p.len && |c.data| <= need ==>
              |c.data| < need && o == Some(Done([], Some(Partial(p.len, p.have + c.data))))
    ensures sum == p.len ==> need == |c.data| && o == Some(Done([p.have + c.data], None))
    ensures sum > p.len ==>
              && need < |c.data|
              && var rest := Unrolled(stack - 1, c.data[need..], c.after);
              && (rest.Some? ==> rest.value.Done?)
              && o == Then(p.have + c.data[..need], rest)
  {
    if sum <= p.len {
      MergeWithin(stack, p, c, sum, o);
    } else {
      MergeBeyond(stack, p, c, sum, o);
    }
  }

  /** Where the branch that merges reads a header. */
  lemma MergePast(stack: nat, p: Partial, c: Chunk, sum: nat, need: nat, stop: nat)
    requires SlotOk(Some(p)) && ChunkOk(c) && stack > 0
    requires sum == (|c.data| + |p.have|) % TWO32 && need == p.len - |p.have|
    ensures if sum <= p.len then !UnrolledCallPast(stack, Some(p), c, stop)
            else need < |c.data|
                 && (UnrolledCallPast(stack, Some(p), c, stop)
                     <==> UnrolledPast(stack - 1, c.data[need..], c.after, stop))
  {
    SumWraps(|c.data| + |p.have|, |c.data|, |p.have|, p.len);
    if sum > p.len {
      assert Loose(Some(p), c) == c.data[need..];
    }
  }

  /** How a whole event ends, when the call for it has. */
  lemma EventEnds(sv: Server, tv: Server, e: Received, stack: nat, end: End)
    requires sv.Running? && SlotsOk(sv.slots) && ChunkOk(e.chunk)
    requires Ended(sv, tv, e.client, UnrolledCall(stack, SlotOf(sv.slots, e.client), e.chunk), end)
    ensures end.Returned? ==> tv == Receive(sv, e)
    ensures stack > |e.chunk.data| ==> (end.Returned? <==> Receive(sv, e).Running?)
  {
    CallReturns(stack, SlotOf(sv.slots, e.client), e.chunk);
  }

  /** The 32-bit sum is the true one, or smaller than what was there before. */
  lemma SumWraps(total: nat, more: nat, have: nat, len: U32)
    requires total == more + have && have < len && more < TWO32
    ensures total % TWO32 == if total >= TWO32 then total - TWO32 else total
    ensures total >= TWO32 ==> total % TWO32 < have
  {
  }

  /** The chunk of `len` bytes at `off` of the receive buffer. `behind` is what the memory
      behind the buffer holds. */
  ghost function ChunkAt(buf: array<Byte>, behind: seq<Byte>, off: nat, len: nat): (c: Chunk)
    requires buf.Length == RECV_BUFFER && |behind| == 3 && 0 < len && off + len <= RECV_BUFFER
    reads buf
    ensures ChunkOk(c)
  {
    Chunk(buf[off..off + len], (buf[..] + behind)[off + len..off + len + 3])
  }

  /** What is left of a chunk behind its first n bytes. */
  lemma ChunkRest(buf: array<Byte>, behind: seq<Byte>, off: nat, len: nat, n: nat)
    requires buf.Length == RECV_BUFFER && |behind| == 3 && n < len && off + len <= RECV_BUFFER
    ensures buf[off..off + n] == ChunkAt(buf, behind, off, len).data[..n]
    ensures ChunkAt(buf, behind, off + n, len - n)
            == Chunk(ChunkAt(buf, behind, off, len).data[n..], ChunkAt(buf, behind, off, len).after)
  {
    assert buf[off..off + len][n..] == buf[off + n..off + len];
  }

  /** The four bytes at `off`, which may lie partly behind the `len` received ones, and even
      behind the buffer; `past` says so. */
  method ReadHeader(buf: array<Byte>, behind: seq<Byte>, off: nat, len: nat) returns (n: U32, past: bool)
    requires buf.Length == RECV_BUFFER && |behind| == 3 && 0 < len && off + len <= RECV_BUFFER
    ensures var c := ChunkAt(buf, behind, off, len); n == Peek(c.data, c.after)
    ensures WordAt(buf[..] + behind, off, n)
    ensures past <==> PastEnd(len, off + len)
  {
    past := off + 4 > buf.Length;
    var header := new Byte[4];
    forall i | 0 <= i < 4 {
      header[i] := if off + i < buf.Length then buf[off + i] else behind[off + i - buf.Length];
    }
    ghost var c := ChunkAt(buf, behind, off, len);
    assert header[..] == (buf[..] + behind)[off..off + 4] == (c.data + c.after)[..4];
    n := WordOf(header[..]);
    WordStands(buf[..] + behind, off, n);
  }

  class TaskController {
    var recvList: map<int, TaskData>
    /** Everything passed to `addTask`, in order. */
    var tasks: seq<TaskData>
    ghost var Repr: set<object>
    /** Frames and buffers that belong to the pool: never written again. */
    ghost var handed: set<object>
    /** Which client a stored frame buffer belongs to. */
    ghost var owner: map<object, int>

    /** The model's view of the two lists. */
    ghost var queue: seq<Queued>
    ghost var slots: map<int, Partial>

    /** A stored partial frame is what the model has for its client. */
    ghost predicate StoredOk(c: int, d: TaskData)
      reads this, d, d.databuf
    {
      && d !in handed && d.databuf !in handed
      && d.clientId == c && d.databuf as object in owner && owner[d.databuf] == c
      && d.databuf.Length == d.len && 0 < d.curLen < d.len
      && c in slots && slots[c] == Partial(d.len, d.databuf[..d.curLen])
    }

    /** A task is what the model has in its place. */
    ghost predicate TaskOk(d: TaskData, q: Queued)
      reads this, d.databuf
    {
      && d in handed && d.databuf in handed && d.databuf.Length == d.len
      && q == Queued(d.clientId, d.databuf[..])
    }

    ghost predicate Valid()
      reads this, Repr
    {
      && this in Repr && this !in handed && handed <= Repr
      && slots.Keys == recvList.Keys && SlotsOk(slots)
      && (forall c :: c in recvList ==>
            recvList[c] in Repr && recvList[c].databuf in Repr && StoredOk(c, recvList[c]))
      && |queue| == |tasks|
      && (forall i :: 0 <= i < |tasks| ==>
            tasks[i] in Repr && tasks[i].databuf in Repr && TaskOk(tasks[i], queue[i]))
    }

    /** When only the stored frame of one client and its buffer change, and this object, the
        frames of the other clients and all tasks stay what the model has for them. */
    twostate lemma OthersKept(client: int)
      requires old(Valid()) && client in old(recvList) && old(Repr) <= Repr && owner == old(owner)
      requires var d := old(recvList[client]);
               && (forall o :: o in old(Repr) && o != this && o != d && o != d.databuf ==> unchanged(o))
               && old(handed) <= handed <= old(handed) + {d, d.databuf}
      ensures forall c :: c in old(recvList) && c != client && SlotOf(slots, c) == SlotOf(old(slots), c) ==>
                StoredOk(c, old(recvList[c]))
      ensures forall i :: 0 <= i < |old(tasks)| ==> TaskOk(old(tasks[i]), old(queue[i]))
    {
    }

    /** After `Insert`. */
    twostate lemma Inserted(client: int)
      requires old(Valid()) && client !in old(recvList) && client in recvList
      requires tasks == old(tasks) && queue == old(queue)
      requires var d := recvList[client];
               && d.databuf.Length == d.len && d.clientId == client && 0 < d.curLen < d.len
               && d !in old(Repr) && d.databuf !in old(Repr) && Repr == old(Repr) + {d, d.databuf}
               && recvList == old(recvList)[client := d] && owner == old(owner)[d.databuf as object := client]
               && slots == old(slots)[client := Partial(d.len, d.databuf[..d.curLen])]
      requires handed == old(handed) && forall o :: o in old(Repr) && o != this ==> unchanged(o)
      ensures Valid()
    {
      assert StoredOk(client, recvList[client]);
      forall c | c in old(recvList) ensures StoredOk(c, recvList[c]) {
        assert old(StoredOk(c, recvList[c]));
      }
      forall i | 0 <= i < |tasks| ensures TaskOk(tasks[i], queue[i]) {
        assert old(TaskOk(tasks[i], queue[i]));
      }
    }

    /** After `Advance`. */
    twostate lemma Advanced(client: int)
      requires old(Valid()) && client in old(recvList) && recvList == old(recvList) && tasks == old(tasks)
      requires Repr == old(Repr) && handed == old(handed) && owner == old(owner) && queue == old(queue)
      requires var d := old(recvList[client]);
               && (forall o :: o in old(Repr) && o != this && o != d ==> unchanged(o))
               && 0 < d.curLen < d.len && slots == old(slots)[client := Partial(d.len, d.databuf[..d.curLen])]
      ensures Valid()
    {
      OthersKept(client);
      assert StoredOk(client, old(recvList[client]));
    }

    /** After `AddAndErase`. */
    twostate lemma Erased(client: int)
      requires old(Valid()) && client in old(recvList) && recvList == old(recvList) - {client}
      requires Repr == old(Repr) && owner == old(owner) && slots == old(slots) - {client}
      requires var d := old(recvList[client]);
               && (forall o :: o in old(Repr) && o != this ==> unchanged(o))
               && handed == old(handed) + {d, d.databuf}
               && tasks == old(tasks) + [d] && queue == old(queue) + [Queued(client, d.databuf[..])]
      ensures Valid()
    {
      OthersKept(client);
      assert TaskOk(old(recvList[client]), queue[|old(queue)|]);
    }

    /** The controller as a value of the model. */
    ghost function Abs(): (sv: Server)
      reads this
      ensures sv.Running?
    {
      Running(queue, slots)
    }

    constructor ()
      ensures Valid() && fresh(Repr) && Abs() == Running([], map[])
    {
      recvList := map[];
      tasks := [];
      Repr := {this};
      handed := {};
      owner := map[];
      queue := [];
      slots := map[];
    }

    /** `stack` is the number of nested calls there is room for. `RecursionReturns` and
        `CallReturns` say which calls use up any stack, `OverrunExact` which overrun, and
        `CallReadsPastExact` which read a header past the buffer, as `past` reports. The ghost
        arguments are the chunk, the outcome and the report the model computes. */
    method MakeNewTask(client: int, buf: array<Byte>, behind: seq<Byte>, off: nat, len: nat, stack: nat,
                       ghost c: Chunk, ghost o: Option<Outcome>)
      returns (end: End, past: bool)
      requires Valid() && buf !in Repr
      requires buf.Length == RECV_BUFFER && |behind| == 3 && 0 < len && off + len <= RECV_BUFFER
      requires c == ChunkAt(buf, behind, off, len) && o == UnrolledCall(stack, SlotOf(Abs().slots, client), c)
      modifies Repr
      ensures Valid() && fresh(Repr - old(Repr))
      ensures Ended(old(Abs()), Abs(), client, o, end)
      ensures past <==> UnrolledCallPast(stack, SlotOf(old(Abs()).slots, client), c, off + len)
      decreases stack, 3
    {
      if stack == 0 {
        return StackUsedUp, false;
      }
      if client !in recvList {
        end, past := NewFrame(client, buf, behind, off, len, stack, c, o);
      } else {
        end, past := MergeChunk(client, buf, behind, off, len, stack, c, o);
      }
    }

    /** The branch for a client with nothing stored. */
    method NewFrame(client: int, buf: array<Byte>, behind: seq<Byte>, off: nat, len: nat, stack: nat,
                    ghost c: Chunk, ghost o: Option<Outcome>)
      returns (end: End, past: bool)
      requires Valid() && buf !in Repr && client !in recvList && stack > 0
      requires buf.Length == RECV_BUFFER && |behind| == 3 && 0 < len && off + len <= RECV_BUFFER
      requires c == ChunkAt(buf, behind, off, len) && o == Unrolled(stack, c.data, c.after)
      modifies Repr
      ensures Valid() && fresh(Repr - old(Repr))
      ensures Ended(old(Abs()), Abs(), client, o, end)
      ensures past <==> UnrolledPast(stack, c.data, c.after, off + len)
      decreases stack, 2
    {
      ghost var sv, s := Abs(), c.data;
      FreshCases(stack, s, c.after);
      var totalLen;
      totalLen, past := ReadHeader(buf, behind, off, len);
      if totalLen < len {
        ghost var rest := Unrolled(stack - 1, s[totalLen..], c.after);
        ChunkRest(buf, behind, off, len, totalLen);
        ghost var next := Chunk(s[totalLen..], c.after);
        var more;
        end, more := QueueAndGoOn(client, buf, behind, off, len, totalLen, stack, next, rest);
        EndedFirst(sv, Abs(), client, s[..totalLen], rest, end);
        past := past || more;
      } else if totalLen == len {
        QueueFrame(client, buf, off, totalLen);
        CommitOnly(sv, client, s);
        EndedReturned(sv, Abs(), client, o.value);
        end := Returned;
      } else {
        StoreFrame(client, buf, off, len, totalLen);
        CommitStored(sv, client, Partial(totalLen, s));
        EndedReturned(sv, Abs(), client, o.value);
        end := Returned;
      }
    }

    /** The nested call, which finds nothing stored. */
    method NestedCall(client: int, buf: array<Byte>, behind: seq<Byte>, off: nat, len: nat, stack: nat,
                      ghost c: Chunk, ghost rest: Option<Outcome>)
      returns (end: End, past: bool)
      requires Valid() && buf !in Repr && client !in recvList
      requires buf.Length == RECV_BUFFER && |behind| == 3 && 0 < len && off + len <= RECV_BUFFER
      requires c == ChunkAt(buf, behind, off, len) && rest == Unrolled(stack, c.data, c.after)
      modifies Repr
      ensures Valid() && fresh(Repr - old(Repr))
      ensures Ended(old(Abs()), Abs(), client, rest, end)
      ensures past <==> UnrolledPast(stack, c.data, c.after, off + len)
      decreases stack, 4
    {
      assert SlotOf(Abs().slots, client) == None && Loose(None, c) == c.data;
      end, past := MakeNewTask(client, buf, behind, off, len, stack, c, rest);
    }

    /** The first frame of several in one chunk, then the nested call for the others. */
    method QueueAndGoOn(client: int, buf: array<Byte>, behind: seq<Byte>, off: nat, len: nat, totalLen: U32,
                        stack: nat, ghost next: Chunk, ghost rest: Option<Outcome>)
      returns (end: End, past: bool)
      requires Valid() && buf !in Repr && client !in recvList && stack > 0
      requires buf.Length == RECV_BUFFER && |behind| == 3 && totalLen < len && off + len <= RECV_BUFFER
      requires next == ChunkAt(buf, behind, off + totalLen, len - totalLen)
      requires rest == Unrolled(stack - 1, next.data, next.after)
      modifies Repr
      ensures Valid() && fresh(Repr - old(Repr))
      ensures Ended(QueuedOne(old(Abs()), client, old(buf[off..off + totalLen])), Abs(), client, rest, end)
      ensures past <==> UnrolledPast(stack - 1, next.data, next.after, off + len)
      decreases stack, 1
    {
      QueueFrame(client, buf, off, totalLen);
      end, past := NestedCall(client, buf, behind, off + totalLen, len - totalLen, stack - 1, next, rest);
    }

    /** A completed frame with more bytes behind it, then the nested call for them. */
    method CompleteAndGoOn(client: int, buf: array<Byte>, behind: seq<Byte>, off: nat, len: nat, need: nat,
                           stack: nat, ghost next: Chunk, ghost rest: Option<Outcome>)
      returns (end: End, past: bool)
      requires Valid() && buf !in Repr && client in recvList && stack > 0
      requires buf.Length == RECV_BUFFER && |behind| == 3 && need < len && off + len <= RECV_BUFFER
      requires recvList[client].curLen + need == recvList[client].len
      requires next == ChunkAt(buf, behind, off + need, len - need)
      requires rest == Unrolled(stack - 1, next.data, next.after)
      modifies Repr
      ensures Valid() && fresh(Repr - old(Repr))
      ensures var f := old(Abs()).slots[client].have + old(buf[off..off + need]);
              Ended(QueuedOne(old(Abs()), client, f), Abs(), client, rest, end)
      ensures past <==> UnrolledPast(stack - 1, next.data, next.after, off + len)
      decreases stack, 1
    {
      CompleteFrame(client, buf, off, need);
      end, past := NestedCall(client, buf, behind, off + need, len - need, stack - 1, next, rest);
    }

    /** A frame that is all there is copied out and queued. */
    method QueueFrame(client: int, buf: array<Byte>, off: nat, totalLen: U32)
      requires Valid() && buf !in Repr && client !in recvList && off + totalLen <= buf.Length
      modifies this
      ensures Valid() && fresh(Repr - old(Repr)) && buf !in Repr && client !in recvList
      ensures Abs() == QueuedOne(old(Abs()), client, buf[off..off + totalLen])
    {
      ghost var sv := Abs();
      var revBuf := new Byte[totalLen];
      var data := new TaskData(client, revBuf, totalLen);
      Memcpy(revBuf, 0, buf, off, totalLen);
      assert revBuf[..] == revBuf[0..totalLen];
      AddTask(data);
      assert sv.slots - {client} == sv.slots;
    }

    /** What has come of a longer frame is copied to the front of a buffer of its size. */
    method StoreFrame(client: int, buf: array<Byte>, off: nat, len: nat, totalLen: U32)
      requires Valid() && buf !in Repr && client !in recvList && off + len <= buf.Length && 0 < len < totalLen
      modifies this
      ensures Valid() && fresh(Repr - old(Repr))
      ensures Abs() == StoredOne(old(Abs()), client, Partial(totalLen, buf[off..off + len]))
    {
      var revBuf := new Byte[totalLen];
      var data := new TaskData(client, revBuf, totalLen);
      Memcpy(revBuf, 0, buf, off, len);
      assert revBuf[..len] == revBuf[0..len];
      data.curLen := data.curLen + len;
      Insert(client, data);
    }

    /** The branch that merges a chunk into a stored partial frame. */
    method MergeChunk(client: int, buf: array<Byte>, behind: seq<Byte>, off: nat, len: nat, stack: nat,
                      ghost c: Chunk, ghost o: Option<Outcome>)
      returns (end: End, past: bool)
      requires Valid() && buf !in Repr && client in recvList && stack > 0
      requires buf.Length == RECV_BUFFER && |behind| == 3 && 0 < len && off + len <= RECV_BUFFER
      requires c == ChunkAt(buf, behind, off, len) && o == UnrolledCall(stack, Some(Abs().slots[client]), c)
      modifies Repr
      ensures Valid() && fresh(Repr - old(Repr))
      ensures Ended(old(Abs()), Abs(), client, o, end)
      ensures past <==> UnrolledCallPast(stack, Some(old(Abs()).slots[client]), c, off + len)
      decreases stack, 2
    {
      ghost var sv, s := Abs(), c.data;
      ghost var p := sv.slots[client];
      var data := recvList[client];
      var need := data.len - data.curLen;
      var sum := (len + data.curLen) % TWO32;
      MergeCases(stack, p, c, sum, need, o);
      MergePast(stack, p, c, sum, need, off + len);
      past := false;
      if sum < data.len {
        if len > need {
          end := Overran;  // the source copies past the end of the frame buffer
          return;
        }
        ghost var out := Done([], Some(Partial(p.len, p.have + s)));
        assert o == Some(out);
        AppendToFrame(client, buf, off, len);
        CommitStored(sv, client, Partial(p.len, p.have + s));
        EndedReturned(sv, Abs(), client, out);
        end := Returned;
      } else if sum > data.len {
        ghost var rest := Unrolled(stack - 1, s[need..], c.after);
        ChunkRest(buf, behind, off, len, need);
        ghost var next := Chunk(s[need..], c.after);
        end, past := CompleteAndGoOn(client, buf, behind, off, len, need, stack, next, rest);
        EndedFirst(sv, Abs(), client, p.have + s[..need], rest, end);
      } else {
        ghost var out := Done([p.have + s], None);
        assert o == Some(out);
        CompleteFrame(client, buf, off, need);
        CommitOnly(sv, client, p.have + s);
        EndedReturned(sv, Abs(), client, out);
        end := Returned;
      }
    }

    /** A chunk that does not complete the stored frame is added to it. */
    method AppendToFrame(client: int, buf: array<Byte>, off: nat, n: nat)
      requires Valid() && buf !in Repr && client in recvList
      requires off + n <= buf.Length && recvList[client].curLen + n < recvList[client].len
      modifies this`slots, recvList[client], recvList[client].databuf
      ensures Valid()
      ensures var p := old(Abs()).slots[client];
              Abs() == StoredOne(old(Abs()), client, Partial(p.len, p.have + buf[off..off + n]))
    {
      ghost var have := slots[client].have + buf[off..off + n];
      FillFrame(client, buf, off, n);
      Advance(client, n, have);
    }

    /** A chunk that completes the stored frame fills it to its end and queues it. */
    method CompleteFrame(client: int, buf: array<Byte>, off: nat, need: nat)
      requires Valid() && buf !in Repr && client in recvList
      requires off + need <= buf.Length && recvList[client].curLen + need == recvList[client].len
      modifies this, recvList[client].databuf
      ensures Valid() && Repr == old(Repr) && client !in recvList
      ensures var p := old(Abs()).slots[client];
              Abs() == QueuedOne(old(Abs()), client, p.have + buf[off..off + need])
    {
      var data := recvList[client];
      FillFrame(client, buf, off, need);
      assert data.databuf[..] == data.databuf[..data.curLen + need];
      AddAndErase(client);
    }

    method AddTask(data: TaskData)
      requires Valid() && data !in Repr && data.databuf !in Repr && data.databuf.Length == data.len
      modifies this
      ensures Valid() && Repr == old(Repr) + {data, data.databuf} && recvList == old(recvList)
      ensures Abs() == Running(old(Abs()).queued + [Queued(data.clientId, data.databuf[..])], old(Abs()).slots)
    {
      tasks := tasks + [data];
      queue := queue + [Queued(data.clientId, data.databuf[..])];
      Repr := Repr + {data, data.databuf};
      handed := handed + {data, data.databuf};
    }

    method Insert(client: int, data: TaskData)
      requires Valid() && data !in Repr && data.databuf !in Repr && client !in recvList
      requires data.databuf.Length == data.len && data.clientId == client && 0 < data.curLen < data.len
      modifies this
      ensures Valid() && Repr == old(Repr) + {data, data.databuf}
      ensures Abs() == StoredOne(old(Abs()), client, Partial(data.len, data.databuf[..data.curLen]))
    {
      recvList := recvList[client := data];
      slots := slots[client := Partial(data.len, data.databuf[..data.curLen])];
      Repr := Repr + {data, data.databuf};
      owner := owner[data.databuf as object := client];
      Inserted(client);
    }

    /** Copying behind the bytes already there changes nothing the model can see. */
    method FillFrame(client: int, buf: array<Byte>, off: nat, n: nat)
      requires Valid() && buf !in Repr && client in recvList
      requires off + n <= buf.Length && recvList[client].curLen + n <= recvList[client].len
      modifies recvList[client].databuf
      ensures Valid() && Abs() == old(Abs())
      ensures var d := recvList[client];
              d.databuf[..d.curLen + n] == old(d.databuf[..d.curLen]) + buf[off..off + n]
    {
      var d := recvList[client];
      Memcpy(d.databuf, d.curLen, buf, off, n);
      assert d.databuf[..d.curLen + n] == d.databuf[..d.curLen] + d.databuf[d.curLen..d.curLen + n];
    }

    method Advance(client: int, n: nat, ghost have: seq<Byte>)
      requires Valid() && client in recvList && recvList[client].curLen + n < recvList[client].len
      requires have == recvList[client].databuf[..recvList[client].curLen + n]
      modifies this`slots, recvList[client]
      ensures Valid()
      ensures Abs() == StoredOne(old(Abs()), client, Partial(recvList[client].len, have))
    {
      var d := recvList[client];
      d.curLen := d.curLen + n;
      slots := slots[client := Partial(d.len, d.databuf[..d.curLen])];
      Advanced(client);
    }

    /** The completed frame goes to the pool and leaves the list of partial frames. */
    method AddAndErase(client: int)
      requires Valid() && client in recvList
      modifies this
      ensures Valid() && Repr == old(Repr) && recvList == old(recvList) - {client}
      ensures var d := old(recvList[client]);
              Abs() == QueuedOne(old(Abs()), client, old(d.databuf[..]))
    {
      var d := recvList[client];
      tasks := tasks + [d];
      queue := queue + [Queued(client, d.databuf[..])];
      recvList := recvList - {client};
      slots := slots - {client};
      handed := handed + {d, d.databuf};
      Erased(client);
    }

    /** What the listener does with a chunk. With room for one call for each byte the call
        returns exactly if the modelled server survives, and reports a header read past the
        buffer exactly if there is one. */
    method OnRecv(client: int, buf: array<Byte>, behind: seq<Byte>, len: nat, stack: nat, ghost chunk: Chunk)
      returns (end: End, past: bool)
      requires Valid() && buf !in Repr && buf.Length == RECV_BUFFER && |behind| == 3 && 0 < len <= RECV_BUFFER
      requires chunk == ChunkAt(buf, behind, 0, len)
      modifies Repr
      ensures Valid() && fresh(Repr - old(Repr))
      ensures Ended(old(Abs()), Abs(), client, UnrolledCall(stack, SlotOf(old(Abs()).slots, client), chunk), end)
      ensures end.Returned? ==> Abs() == Receive(old(Abs()), Received(client, chunk))
      ensures stack > len ==> (end.Returned? <==> Receive(old(Abs()), Received(client, chunk)).Running?)
      ensures past ==> CallReadsPast(SlotOf(old(Abs()).slots, client), chunk, len)
      ensures stack > len && CallReadsPast(SlotOf(old(Abs()).slots, client), chunk, len) ==> past
    {
      ghost var sv := Abs();
      ghost var o := UnrolledCall(stack, SlotOf(sv.slots, client), chunk);
      UnrolledCallPastExact(stack, SlotOf(sv.slots, client), chunk, len);
      end, past := MakeNewTask(client, buf, behind, 0, len, stack, chunk, o);
      EventEnds(sv, Abs(), Received(client, chunk), stack, end);
    }

    /** One readable event of the receive loop: the buffer is zeroed, the received bytes
        are put in, and the listener is called unless nothing came. */
    method RecvEvent(client: int, buf: array<Byte>, behind: seq<Byte>, received: seq<Byte>, stack: nat)
      returns (end: End, past: bool)
      requires Valid() && buf !in Repr && buf.Length == RECV_BUFFER && |behind| == 3 && |received| <= RECV_BUFFER
      modifies Repr, buf
      ensures Valid() && fresh(Repr - old(Repr))
      ensures received == [] ==> end.Returned? && Abs() == old(Abs()) && !past
      ensures received != [] ==>
                var chunk, slot := Chunk(received, Behind(|received|, behind)), SlotOf(old(Abs()).slots, client);
                var r := Receive(old(Abs()), Received(client, chunk));
                && Ended(old(Abs()), Abs(), client, UnrolledCall(stack, slot, chunk), end)
                && (end.Returned? ==> Abs() == r)
                && (stack > |received| ==> (end.Returned? <==> r.Running?))
                && (past ==> CallReadsPast(slot, chunk, |received|))
                && (stack > |received| && CallReadsPast(slot, chunk, |received|) ==> past)
    {
      Refill(buf, received);
      if received == [] {
        return Returned, false;
      }
      ghost var chunk := Chunk(received, Behind(|received|, behind));
      assert chunk == ChunkAt(buf, behind, 0, |received|);
      end, past := OnRecv(client, buf, behind, |received|, stack, chunk);
    }
  }

  /** Lines 158-159: `memset` and `recv`. */
  method Refill(buf: array<Byte>, received: seq<Byte>)
    requires |received| <= buf.Length
    modifies buf
    ensures buf[..] == received + seq(buf.Length - |received|, _ => 0)
  {
    forall i | 0 <= i < buf.Length {
      buf[i] := if i < |received| then received[i] else 0;
    }
  }

  /** The three bytes behind the received ones: zeros, as far as the buffer goes. */
  function Behind(n: nat, tail: seq<Byte>): (after: seq<Byte>)
    requires n <= RECV_BUFFER && |tail| == 3
    ensures |after| == 3
    ensures n + 3 <= RECV_BUFFER ==> after == [0, 0, 0]
  {
    seq(3, i requires 0 <= i < 3 => if n + i < RECV_BUFFER then 0 else tail[n + i - RECV_BUFFER])
  }
}
