/** Whole runs of the reassembler: one client over any chunking, then many clients with
    their chunks interleaved. */
module Streams {
  import opened Bytes
  import opened Frames
  import opened Reassembly

  predicate ChunksOk(cs: seq<Chunk>) {
    forall c :: c in cs ==> ChunkOk(c)
  }

  /** The byte stream a list of chunks was cut from. */
  function Data(cs: seq<Chunk>): seq<Byte> {
    if cs == [] then [] else Data(cs[..|cs| - 1]) + cs[|cs| - 1].data
  }

  function Append(frames: seq<seq<Byte>>, o: Outcome): Outcome {
    if o.Done? then Done(frames + o.frames, o.slot) else o
  }

  /** The calls of `makeNewTask` for one client, one for each chunk. */
  function Run(cs: seq<Chunk>): (o: Outcome)
    requires ChunksOk(cs)
    ensures o.Done? ==> SlotOk(o.slot)
  {
    if cs == [] then Done([], None)
    else
      var before := Run(cs[..|cs| - 1]);
      if !before.Done? then before
      else
        FeedConsumes(before.slot, cs[|cs| - 1]);
        Append(before.frames, Feed(before.slot, cs[|cs| - 1]))
  }

  /** What the reference splitter says about the whole stream. */
  function Prescribed(s: seq<Byte>): Outcome {
    Done(Cut(s).frames, SlotFor(Cut(s).rest))
  }

  predicate Agrees(cs: seq<Chunk>)
    requires ChunksOk(cs)
  {
    Run(cs) == Prescribed(Data(cs))
  }

  predicate AgreesAlways(cs: seq<Chunk>)
    requires ChunksOk(cs)
  {
    forall n :: 0 <= n <= |cs| ==> Agrees(cs[..n])
  }

  predicate AllSafe(cs: seq<Chunk>) {
    forall n :: 0 <= n < |cs| ==> Safe(Cut(Data(cs[..n])).rest, cs[n])
  }

  lemma RunStep(cs: seq<Chunk>, c: Chunk)
    requires ChunksOk(cs + [c])
    requires ChunksOk(cs) && Run(cs) == Prescribed(Data(cs))
    ensures Data(cs + [c]) == Data(cs) + c.data
    ensures Run(cs + [c]) == Prescribed(Data(cs + [c])) <==> Safe(Cut(Data(cs)).rest, c)
  {
    assert (cs + [c])[..|cs|] == cs;
    assert c in cs + [c];
    var s, r := Data(cs), Cut(Data(cs)).rest;
    CutRest(s);
    CutAppend(s, c.data);
    FeedExact(r, c);
    var f := Feed(SlotFor(r), c);
    if f.Done? {
      assert (Cut(s).frames + f.frames)[|Cut(s).frames|..] == f.frames;
      assert (Cut(s).frames + Cut(r + c.data).frames)[|Cut(s).frames|..] == Cut(r + c.data).frames;
    }
  }

  lemma AgreesNow(cs: seq<Chunk>)
    requires ChunksOk(cs) && AgreesAlways(cs)
    ensures Agrees(cs)
  {
    assert cs[..|cs|] == cs;
  }

  lemma AgreesMore(cs: seq<Chunk>, c: Chunk)
    requires ChunksOk(cs + [c]) && ChunksOk(cs)
    ensures AgreesAlways(cs + [c]) <==> AgreesAlways(cs) && Agrees(cs + [c])
  {
    var ds := cs + [c];
    assert ds[..|ds|] == ds;
    forall n | 0 <= n <= |cs| ensures ds[..n] == cs[..n] {
    }
    if AgreesAlways(ds) {
      AgreesNow(ds);
      assert AgreesAlways(cs) by {
        forall n | 0 <= n <= |cs| ensures Agrees(cs[..n]) {
          assert Agrees(ds[..n]);
        }
      }
    }
    if AgreesAlways(cs) && Agrees(ds) {
      assert AgreesAlways(ds) by {
        forall n | 0 <= n <= |ds| ensures Agrees(ds[..n]) {
          assert n <= |cs| ==> Agrees(cs[..n]);
        }
      }
    }
  }

  lemma SafeMore(cs: seq<Chunk>, c: Chunk)
    ensures AllSafe(cs + [c]) <==> AllSafe(cs) && Safe(Cut(Data(cs)).rest, c)
  {
    var ds := cs + [c];
    assert ds[..|cs|] == cs;
    assert forall n :: 0 <= n < |cs| ==> ds[..n] == cs[..n] && ds[n] == cs[n];
  }

  /** The exact theorem for whole runs. After every call the frames queued so far and the
      stored partial frame are those of the reference split of the bytes received so far,
      if and only if every call was safe. */
  lemma {:induction false} RunExact(cs: seq<Chunk>)
    requires ChunksOk(cs)
    ensures AgreesAlways(cs) <==> AllSafe(cs)
    decreases |cs|
  {
    if cs == [] {
      assert cs[..0] == [];
    } else {
      var pre, c := cs[..|cs| - 1], cs[|cs| - 1];
      assert cs == pre + [c];
      RunExact(pre);
      AgreesMore(pre, c);
      SafeMore(pre, c);
      if AgreesAlways(pre) {
        AgreesNow(pre);
        RunStep(pre, c);
      }
    }
  }

  /** Fragmentation independence: safe chunkings of one stream give the same tasks and the
      same leftover, namely those of the reference. */
  lemma FragmentationIndependence(cs: seq<Chunk>, ds: seq<Chunk>)
    requires ChunksOk(cs) && ChunksOk(ds) && AllSafe(cs) && AllSafe(ds)
    requires Data(cs) == Data(ds)
    ensures Run(cs) == Run(ds) == Prescribed(Data(cs))
  {
    RunExact(cs);
    RunExact(ds);
    AgreesNow(cs);
    AgreesNow(ds);
  }

  /** A chunking is admissible when no boundary falls inside a header, no frame is declared
      empty or within one receive of 2^32, and no chunk exceeds the receive buffer. */
  predicate Admissible(cs: seq<Chunk>) {
    && (forall n :: 0 <= n <= |cs| ==>
          var r := Cut(Data(cs[..n])).rest;
          r != [] ==> |r| >= 4 && 0 < WordOf(r[..4]) <= TWO32 - RECV_BUFFER)
    && (forall c :: c in cs ==> ChunkOk(c) && |c.data| <= RECV_BUFFER)
  }

  lemma AdmissibleIsSafe(cs: seq<Chunk>)
    requires Admissible(cs)
    ensures ChunksOk(cs) && AllSafe(cs)
  {
    forall n | 0 <= n < |cs| ensures Safe(Cut(Data(cs[..n])).rest, cs[n]) {
      var s, c := Data(cs[..n]), cs[n];
      assert cs[..n + 1] == cs[..n] + [c];
      assert (cs[..n] + [c])[..n] == cs[..n];
      assert Data(cs[..n + 1]) == s + c.data;
      CutAppend(s, c.data);
      CutRest(s);
      CutRest(s + c.data);
      var r := Cut(s + c.data).rest;
      if r != [] {
        PeekAfter(r, c.after);
      }
      assert c in cs;
    }
  }

  /** What is stored between admissible calls: at least the header, less than the declared
      length, and exactly the bytes of the stream behind the last whole frame. */
  lemma AdmissibleSlot(cs: seq<Chunk>)
    requires Admissible(cs)
    ensures ChunksOk(cs) && Run(cs).Done?
    ensures var o := Run(cs);
            && Flat(o.frames) + Stored(o.slot) == Data(cs)
            && (o.slot.Some? ==>
                  var p := o.slot.value;
                  && 4 <= |p.have| < p.len <= TWO32 - RECV_BUFFER
                  && p.len == WordOf(p.have[..4]) && p.have == Cut(Data(cs)).rest)
  {
    AdmissibleIsSafe(cs);
    FragmentationIndependence(cs, cs);
    CutKeepsBytes(Data(cs));
    assert cs[..|cs|] == cs;
    var r := Cut(Data(cs)).rest;
    if r != [] {
      PeekWhole(r, [], ZEROS);
    }
  }

  /** The promise is false without the condition: the four bytes 4, 1, 0, 0 declare a frame
      of 260 bytes, but cut after the first byte they are queued as a frame of four. */
  lemma SplitHeaderBreaksFraming()
    ensures var whole := [Chunk([4, 1, 0, 0], [0, 0, 0])];
            var split := [Chunk([4], [0, 0, 0]), Chunk([1, 0, 0], [0, 0, 0])];
            && ChunksOk(whole) && ChunksOk(split) && Data(whole) == Data(split) == [4, 1, 0, 0]
            && Run(whole) == Done([], Some(Partial(260, [4, 1, 0, 0])))
            && Run(split) == Done([[4, 1, 0, 0]], None)
  {
    var z: seq<Byte> := [0, 0, 0];
    var a, b, w := Chunk([4], z), Chunk([1, 0, 0], z), Chunk([4, 1, 0, 0], z);
    RunOne(w);
    HeaderOf(a.data, z, [4, 0, 0, 0]);
    HeaderOf(w.data, z, [4, 1, 0, 0]);
    RunTwo(a, b);
    assert [4] + b.data[..3] == [4, 1, 0, 0];
  }

  lemma HeaderOf(s: seq<Byte>, after: seq<Byte>, h: seq<Byte>)
    requires |h| == 4 && h <= s + after
    ensures Peek(s, after) == WordOf(h)
  {
  }

  lemma RunTwo(a: Chunk, b: Chunk)
    requires ChunkOk(a) && ChunkOk(b) && Feed(None, a).Done? && Feed(None, a).frames == []
    ensures ChunksOk([a, b]) && Data([a, b]) == a.data + b.data && SlotOk(Feed(None, a).slot)
    ensures Run([a, b]) == Feed(Feed(None, a).slot, b)
  {
    RunOne(a);
    var ab := [a, b];
    assert ab[..1] == [a];
    var o := Feed(Feed(None, a).slot, b);
    if o.Done? {
      assert [] + o.frames == o.frames;
    }
  }

  lemma RunOne(c: Chunk)
    requires ChunkOk(c)
    ensures ChunksOk([c]) && Run([c]) == Feed(None, c) && Data([c]) == c.data
  {
    var one := [c];
    assert one[..0] == [];
    var o := Feed(None, c);
    if o.Done? {
      assert [] + o.frames == o.frames;
    }
  }

  // ----- A run that leaves its buffer -----

  /** What one receive of a full buffer brings: a header of four times 255, or zeros. */
  function FullChunk(header: bool): (c: Chunk)
    ensures ChunkOk(c) && |c.data| == RECV_BUFFER
  {
    Chunk(seq(RECV_BUFFER, i => if header && i < 4 then 255 else 0), [0, 0, 0])
  }

  /** A frame declared as long as can be, in full buffers. */
  function Long(k: nat): (cs: seq<Chunk>)
    ensures |cs| == k && ChunksOk(cs) && forall c :: c in cs ==> |c.data| == RECV_BUFFER
  {
    if k == 0 then [] else Long(k - 1) + [FullChunk(k == 1)]
  }

  lemma LongStep(k: nat)
    requires k > 0
    ensures Long(k)[..k - 1] == Long(k - 1) && Long(k)[k - 1] == FullChunk(k == 1)
    ensures Data(Long(k)) == Data(Long(k - 1)) + FullChunk(k == 1).data
  {
  }

  /** The header read over a first full buffer of that kind. */
  lemma LongHeader(c: Chunk)
    requires c == FullChunk(true)
    ensures Run([c]) == Done([], Some(Partial(TWO32 - 1, c.data))) && Data([c]) == c.data
  {
    RunOne(c);
    assert (c.data + c.after)[..4] == [255, 255, 255, 255];
  }

  /** One more chunk for a stored frame that it does not complete. */
  lemma StaysPartial(cs: seq<Chunk>, p: Partial, c: Chunk)
    requires ChunksOk(cs) && ChunkOk(c) && Run(cs) == Done([], Some(p)) && |p.have| + |c.data| < p.len
    ensures ChunksOk(cs + [c]) && Run(cs + [c]) == Done([], Some(Partial(p.len, p.have + c.data)))
  {
    assert (cs + [c])[..|cs|] == cs;
    assert [] + Feed(Some(p), c).frames == [];
  }

  lemma {:induction false} LongStays(k: nat)
    requires 0 < k < 131072
    ensures |Data(Long(k))| == RECV_BUFFER * k
    ensures Run(Long(k)) == Done([], Some(Partial(TWO32 - 1, Data(Long(k)))))
    decreases k
  {
    if k == 1 {
      assert Long(0) == [];
      LongHeader(FullChunk(true));
    } else {
      LongStays(k - 1);
      LongStep(k);
      StaysPartial(Long(k - 1), Partial(TWO32 - 1, Data(Long(k - 1))), FullChunk(false));
    }
  }

  /** The copy past the end of a frame buffer is within reach of any client: 131072 full
      receive buffers of one frame declared 2^32 - 1 bytes long. */
  lemma OverrunReached()
    ensures Run(Long(131072)) == Overrun
    ensures forall c :: c in Long(131072) ==> ChunkOk(c) && |c.data| == RECV_BUFFER
  {
    LongStep(131072);
    LongStays(131071);
    OverrunExact(Run(Long(131071)).slot, FullChunk(false));
  }

  // ----- Many clients -----

  datatype Received = Received(client: int, chunk: Chunk)

  datatype Queued = Queued(client: int, frame: seq<Byte>)

  datatype Server =
    | Running(queued: seq<Queued>, slots: map<int, Partial>)
    | Crashed

  predicate EventsOk(es: seq<Received>) {
    forall e :: e in es ==> ChunkOk(e.chunk)
  }

  function SlotOf(slots: map<int, Partial>, c: int): Slot {
    if c in slots then Some(slots[c]) else None
  }

  function SetSlot(slots: map<int, Partial>, c: int, slot: Slot): (r: map<int, Partial>)
    ensures SlotOf(r, c) == slot
    ensures forall d :: d != c ==> SlotOf(r, d) == SlotOf(slots, d)
  {
    if slot.Some? then slots[c := slot.value] else slots - {c}
  }

  function Tagged(c: int, frames: seq<seq<Byte>>): (r: seq<Queued>)
    ensures |r| == |frames|
  {
    seq(|frames|, i requires 0 <= i < |frames| => Queued(c, frames[i]))
  }

  predicate SlotsOk(slots: map<int, Partial>) {
    forall c :: c in slots ==> SlotOk(Some(slots[c]))
  }

  /** The effect of a call that returned. */
  function Commit(sv: Server, c: int, o: Outcome): Server
    requires sv.Running? && o.Done?
  {
    Running(sv.queued + Tagged(c, o.frames), SetSlot(sv.slots, c, o.slot))
  }

  /** One `onRecv`: `m_recvList` holds at most one partial frame for each client. */
  function Receive(sv: Server, e: Received): (r: Server)
    requires ChunkOk(e.chunk)
    requires sv.Running? ==> SlotsOk(sv.slots)
    ensures r.Running? ==> SlotsOk(r.slots)
  {
    if sv.Crashed? then Crashed
    else
      FeedConsumes(SlotOf(sv.slots, e.client), e.chunk);
      var o := Feed(SlotOf(sv.slots, e.client), e.chunk);
      if o.Done? then Commit(sv, e.client, o) else Crashed
  }

  /** Exactly which chunks the server survives, in terms of the bytes. */
  lemma ReceiveSurvives(sv: Server, e: Received)
    requires ChunkOk(e.chunk) && sv.Running? && SlotsOk(sv.slots)
    ensures Receive(sv, e).Running? <==>
              match SlotOf(sv.slots, e.client)
              case None => !MeetsEmpty(e.chunk.data, e.chunk.after)
              case Some(p) =>
                var total := |p.have| + |e.chunk.data|;
                total < TWO32 && (total > p.len ==> !MeetsEmpty(e.chunk.data[p.len - |p.have|..], e.chunk.after))
  {
    var slot := SlotOf(sv.slots, e.client);
    FeedEndless(slot, e.chunk);
    OverrunExact(slot, e.chunk);
  }

  function Serve(es: seq<Received>): (r: Server)
    requires EventsOk(es)
    ensures r.Running? ==> SlotsOk(r.slots)
  {
    if es == [] then Running([], map[])
    else Receive(Serve(es[..|es| - 1]), es[|es| - 1])
  }

  /** The chunks of one client, in order of arrival. */
  function ChunksOf(es: seq<Received>, c: int): (cs: seq<Chunk>)
    ensures EventsOk(es) ==> ChunksOk(cs)
  {
    if es == [] then []
    else
      var e := es[|es| - 1];
      ChunksOf(es[..|es| - 1], c) + if e.client == c then [e.chunk] else []
  }

  /** The frames queued for one client, in order. */
  function FramesOf(q: seq<Queued>, c: int): seq<seq<Byte>> {
    if q == [] then []
    else FramesOf(q[..|q| - 1], c) + if q[|q| - 1].client == c then [q[|q| - 1].frame] else []
  }

  lemma {:induction false} FramesOfAppend(p: seq<Queued>, q: seq<Queued>, c: int)
    ensures FramesOf(p + q, c) == FramesOf(p, c) + FramesOf(q, c)
    decreases |q|
  {
    if q == [] {
      assert p + q == p;
    } else {
      assert (p + q)[..|p + q| - 1] == p + q[..|q| - 1];
      FramesOfAppend(p, q[..|q| - 1], c);
    }
  }

  lemma {:induction false} FramesOfTagged(frames: seq<seq<Byte>>, d: int, c: int)
    ensures FramesOf(Tagged(d, frames), c) == if c == d then frames else []
    decreases |frames|
  {
    if frames != [] {
      var m := |frames| - 1;
      FramesOfTagged(frames[..m], d, c);
      assert Tagged(d, frames)[..m] == Tagged(d, frames[..m]);
      assert frames == frames[..m] + [frames[m]];
    }
  }

  lemma ChunksOfStep(es: seq<Received>, c: int)
    requires EventsOk(es) && es != []
    ensures var m := |es| - 1;
            EventsOk(es[..m]) && ChunksOf(es, c) ==
            if es[m].client == c then ChunksOf(es[..m], c) + [es[m].chunk] else ChunksOf(es[..m], c)
  {
  }

  lemma {:induction false} OneClient(es: seq<Received>, c: int)
    requires EventsOk(es) && Serve(es).Running?
    ensures Run(ChunksOf(es, c)) == Done(FramesOf(Serve(es).queued, c), SlotOf(Serve(es).slots, c))
    decreases |es|
  {
    if es != [] {
      var m := |es| - 1;
      var e := es[m];
      OneClient(es[..m], c);
      ChunksOfStep(es, c);
      var sv := Serve(es[..m]);
      var o := Feed(SlotOf(sv.slots, e.client), e.chunk);
      FramesOfAppend(sv.queued, Tagged(e.client, o.frames), c);
      FramesOfTagged(o.frames, e.client, c);
      if e.client == c {
        var cs := ChunksOf(es[..m], c);
        assert (cs + [e.chunk])[..|cs|] == cs;
      } else {
        assert FramesOf(sv.queued, c) + [] == FramesOf(sv.queued, c);
      }
    }
  }

  lemma {:induction false} CrashedStays(cs: seq<Chunk>, c: Chunk)
    requires ChunksOk(cs + [c]) && ChunksOk(cs)
    ensures !Run(cs).Done? ==> !Run(cs + [c]).Done?
  {
    assert (cs + [c])[..|cs|] == cs;
  }

  lemma {:induction false} SomeoneCrashed(es: seq<Received>) returns (c: int)
    requires EventsOk(es) && Serve(es).Crashed?
    ensures !Run(ChunksOf(es, c)).Done?
    decreases |es|
  {
    var m := |es| - 1;
    if Serve(es[..m]).Crashed? {
      c := SomeoneCrashed(es[..m]);
      ChunksOfStep(es, c);
      CrashedStays(ChunksOf(es[..m], c), es[m].chunk);
    } else {
      c := es[m].client;
      OneClient(es[..m], c);
      ChunksOfStep(es, c);
      var cs := ChunksOf(es[..m], c);
      assert (cs + [es[m].chunk])[..|cs|] == cs;
    }
  }

  /** Client isolation: under any interleaving, what is queued and stored for a client is
      what a reassembler fed with that client's chunks alone would queue and store; and
      the server survives exactly when each client on its own would let it. */
  lemma ClientIsolation(es: seq<Received>)
    requires EventsOk(es)
    ensures Serve(es).Running? ==>
              forall c :: Run(ChunksOf(es, c)) == Done(FramesOf(Serve(es).queued, c), SlotOf(Serve(es).slots, c))
    ensures Serve(es).Running? <==> forall c :: Run(ChunksOf(es, c)).Done?
  {
    if Serve(es).Running? {
      forall c ensures Run(ChunksOf(es, c)) == Done(FramesOf(Serve(es).queued, c), SlotOf(Serve(es).slots, c)) {
        OneClient(es, c);
      }
    } else {
      var c := SomeoneCrashed(es);
    }
  }

  /** The two together: with many clients interleaved, safe chunks for each client make
      the server queue, for each client, the reference frames of its own byte stream. */
  lemma InterleavedReassembly(es: seq<Received>)
    requires EventsOk(es) && forall c :: AllSafe(ChunksOf(es, c))
    ensures Serve(es).Running?
    ensures forall c :: FramesOf(Serve(es).queued, c) == Cut(Data(ChunksOf(es, c))).frames
    ensures forall c :: SlotOf(Serve(es).slots, c) == SlotFor(Cut(Data(ChunksOf(es, c))).rest)
  {
    forall c ensures Run(ChunksOf(es, c)) == Prescribed(Data(ChunksOf(es, c))) {
      FragmentationIndependence(ChunksOf(es, c), ChunksOf(es, c));
    }
    ClientIsolation(es);
  }
}
