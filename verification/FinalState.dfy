/** Agreement at the end of a run, rather than after every call. A run can go wrong and
    come right again: frames shorter than their own header leave no trace of having been
    cut at the wrong moment. They are the only ones that can. */
module FinalState {
  import opened Bytes
  import opened Frames
  import opened Reassembly
  import opened Streams

  /** No memory but the zeroed buffer is read behind the received bytes. */
  predicate ZeroBehind(cs: seq<Chunk>) {
    forall c :: c in cs ==> c.after == [0, 0, 0]
  }

  predicate NoneShort(frames: seq<seq<Byte>>) {
    forall f :: f in frames ==> |f| >= 4
  }

  lemma {:induction false} DataAppend(cs: seq<Chunk>, ds: seq<Chunk>)
    ensures Data(cs + ds) == Data(cs) + Data(ds)
    decreases |ds|
  {
    if ds == [] {
      assert cs + ds == cs;
    } else {
      assert (cs + ds)[..|cs + ds| - 1] == cs + ds[..|ds| - 1];
      DataAppend(cs, ds[..|ds| - 1]);
    }
  }

  /** What was queued stays queued, and a crash stays a crash. */
  lemma {:induction false} FramesStay(cs: seq<Chunk>, ds: seq<Chunk>)
    requires ChunksOk(cs) && ChunksOk(ds) && ChunksOk(cs + ds)
    ensures Run(cs + ds).Done? ==> Run(cs).Done? && Run(cs).frames <= Run(cs + ds).frames
    decreases |ds|
  {
    if ds == [] {
      assert cs + ds == cs;
    } else {
      assert (cs + ds)[..|cs + ds| - 1] == cs + ds[..|ds| - 1];
      FramesStay(cs, ds[..|ds| - 1]);
    }
  }

  /** A stored frame keeps its declared length for ever: it stays stored, or it is the next
      to be queued, with just that length. */
  lemma {:induction false} LengthStays(cs: seq<Chunk>, p: Partial, ds: seq<Chunk>)
    requires ChunksOk(cs) && ChunksOk(ds) && ChunksOk(cs + ds)
    requires Run(cs).Done? && Run(cs).slot == Some(p)
    ensures var o, k := Run(cs + ds), |Run(cs).frames|;
            o.Done? ==> if |o.frames| > k then |o.frames[k]| == p.len
                        else |o.frames| == k && o.slot.Some? && o.slot.value.len == p.len
    decreases |ds|
  {
    if ds == [] {
      assert cs + ds == cs;
    } else {
      var es := ds[..|ds| - 1];
      assert (cs + ds)[..|cs + ds| - 1] == cs + es;
      LengthStays(cs, p, es);
      FramesStay(cs, es);
    }
  }

  /** So the header that was read must have been the true one. */
  lemma HeaderWasTrue(cs: seq<Chunk>, ds: seq<Chunk>)
    requires ChunksOk(cs) && ChunksOk(ds) && ChunksOk(cs + ds)
    requires Agrees(cs) && Agrees(cs + ds)
    ensures HeaderTailZero(Cut(Data(cs)).rest, Data(ds))
  {
    var s, d := Data(cs), Data(ds);
    var r := Cut(s).rest;
    if r != [] {
      LengthStays(cs, Partial(Peek(r, ZEROS), r), ds);
      DataAppend(cs, ds);
      LengthTrue(s, d, Run(cs + ds));
      SameHeader(r, d);
    }
  }

  /** What the reference prescribes next has the length in the true header. */
  lemma LengthTrue(s: seq<Byte>, d: seq<Byte>, o: Outcome)
    requires o == Prescribed(s + d) && Cut(s).rest != []
    requires var n, k := Peek(Cut(s).rest, ZEROS), |Cut(s).frames|;
             if |o.frames| > k then |o.frames[k]| == n else |o.frames| == k && o.slot.Some? && o.slot.value.len == n
    ensures Peek(Cut(s).rest + d, ZEROS) == Peek(Cut(s).rest, ZEROS)
  {
    var r := Cut(s).rest;
    CutAppend(s, d);
    CutFirst(r + d);
  }

  /** A call that reads the header of a frame too short for it does not return, or queues
      a frame of less than four bytes. */
  lemma {:induction false} ResumeShort(n: U32, s: seq<Byte>, after: seq<Byte>)
    requires |s| > 0 && after == [0, 0, 0] && n == Peek(s, ZEROS) && !Pending(Cut(s).rest)
    ensures var o := Resume(n, s, after); o.Done? ==> !NoneShort(o.frames)
    decreases |s|
  {
    PeekAfter(s, after);
    if 0 < n < |s| {
      var t := s[n..];
      PeekAfter(t, after);
      var o := Fresh(t, after);
      if |s| >= 4 {
        ResumeShort(Peek(t, ZEROS), t, after);
        if o.Done? {
          ShortBehind(s[..n], o.frames);
        }
      } else if o.Done? {
        assert |([s[..n]] + o.frames)[0]| < 4;
      }
    } else if n == |s| {
      assert s[..n] == s && s[n..] == [];
      assert s in [s];
    }
  }

  lemma ShortBehind(f: seq<Byte>, frames: seq<seq<Byte>>)
    requires !NoneShort(frames)
    ensures !NoneShort([f] + frames)
  {
    var g :| g in frames && |g| < 4;
    assert g in [f] + frames;
  }

  lemma FeedShort(rest: seq<Byte>, c: Chunk)
    requires ChunkOk(c) && c.after == [0, 0, 0] && SlotOk(SlotFor(rest))
    requires HeaderTailZero(rest, c.data) && (rest != [] ==> |rest| + |c.data| < TWO32)
    requires !Pending(Cut(rest + c.data).rest)
    ensures var o := Feed(SlotFor(rest), c); o.Done? ==> !NoneShort(o.frames)
  {
    var s := rest + c.data;
    ResumeShort(Peek(s, ZEROS), s, c.after);
    if rest == [] {
      assert s == c.data;
      PeekAfter(s, c.after);
    } else {
      SameHeader(rest, c.data);
      FeedResumes(Partial(Peek(rest, ZEROS), rest), c);
    }
  }

  /** What the last call of a run adds to it. */
  lemma LastCall(cs: seq<Chunk>, c: Chunk)
    requires ChunksOk(cs) && ChunksOk(cs + [c]) && Agrees(cs)
    ensures SlotOk(SlotFor(Cut(Data(cs)).rest)) && ChunkOk(c)
    ensures Run(cs + [c]) == Append(Run(cs).frames, Feed(SlotFor(Cut(Data(cs)).rest), c))
  {
    assert (cs + [c])[..|cs|] == cs && c in cs + [c];
  }

  /** A call that returned and queued no short frame was safe, if the header it went on
      reading had been read in full. */
  lemma CallWasPending(rest: seq<Byte>, c: Chunk, o: Outcome)
    requires ChunkOk(c) && c.after == [0, 0, 0] && SlotOk(SlotFor(rest)) && HeaderTailZero(rest, c.data)
    requires o == Feed(SlotFor(rest), c) && o.Done? && NoneShort(o.frames)
    ensures Safe(rest, c)
  {
    OverrunExact(SlotFor(rest), c);
    if !Pending(Cut(rest + c.data).rest) {
      FeedShort(rest, c);
      assert false;
    }
  }

  lemma CallWasSafe(cs: seq<Chunk>, c: Chunk, ds: seq<Chunk>)
    requires ChunksOk(cs) && ChunksOk(ds) && ChunksOk(cs + [c]) && ChunksOk(cs + [c] + ds)
    requires c.after == [0, 0, 0] && Run(cs + [c] + ds).Done? && NoneShort(Run(cs + [c] + ds).frames)
    requires Agrees(cs) && HeaderTailZero(Cut(Data(cs)).rest, c.data)
    ensures Safe(Cut(Data(cs)).rest, c)
  {
    LastCall(cs, c);
    FramesStay(cs + [c], ds);
    var o := Feed(SlotFor(Cut(Data(cs)).rest), c);
    forall f | f in o.frames ensures |f| >= 4 {
      assert f in Run(cs + [c]).frames;
      assert f in Run(cs + [c] + ds).frames;
    }
    CallWasPending(Cut(Data(cs)).rest, c, o);
  }

  lemma HeaderOfCall(cs: seq<Chunk>, c: Chunk, ds: seq<Chunk>)
    requires ChunksOk(cs) && ChunksOk([c] + ds) && ChunksOk(cs + ([c] + ds))
    requires Agrees(cs) && Agrees(cs + ([c] + ds))
    ensures HeaderTailZero(Cut(Data(cs)).rest, c.data)
  {
    HeaderWasTrue(cs, [c] + ds);
    DataAppend([c], ds);
    assert [c][..0] == [];
    assert Data([c]) == c.data;
    assert forall k :: 0 <= k < |c.data| ==> Data([c] + ds)[k] == c.data[k];
  }

  lemma Split(cs: seq<Chunk>, n: nat)
    requires ChunksOk(cs) && 0 < n <= |cs|
    ensures var pre, c, post := cs[..n - 1], cs[n - 1], cs[n..];
            && cs == pre + [c] + post == pre + ([c] + post) && cs[..n] == pre + [c]
            && ChunksOk(pre) && ChunksOk(post) && ChunksOk(pre + [c]) && ChunksOk([c] + post)
  {
  }

  /** Every call up to the n-th was safe. */
  lemma {:induction false} CallsWereSafe(cs: seq<Chunk>, n: nat)
    requires ChunksOk(cs) && ZeroBehind(cs) && NoneShort(Cut(Data(cs)).frames) && Agrees(cs) && n <= |cs|
    ensures AllSafe(cs[..n])
  {
    if n > 0 {
      var pre, c, post := cs[..n - 1], cs[n - 1], cs[n..];
      Split(cs, n);
      CallsWereSafe(cs, n - 1);
      RunExact(pre);
      AgreesNow(pre);
      HeaderOfCall(pre, c, post);
      CallWasSafe(pre, c, post);
      SafeMore(pre, c);
    }
  }

  /** The exact theorem for the end of a run: with zeros behind every chunk and no reference
      frame shorter than its header, the tasks and the slot left at the end are those of the
      reference if and only if every call was safe. Nothing that goes wrong on the way comes
      right again. */
  lemma FinalExact(cs: seq<Chunk>)
    requires ChunksOk(cs) && ZeroBehind(cs) && NoneShort(Cut(Data(cs)).frames)
    ensures Run(cs) == Prescribed(Data(cs)) <==> AllSafe(cs)
  {
    assert cs[..|cs|] == cs;
    RunExact(cs);
    if Agrees(cs) {
      CallsWereSafe(cs, |cs|);
    }
  }

  /** With shorter frames something can: the bytes 1, 0, 0, 0, 1 are a frame of one byte and
      the start of a long one. When the first byte comes alone it is queued before its
      header is complete, and the end is the same. */
  lemma ShortFramesComeRight()
    ensures var cs := [Chunk([1], [0, 0, 0]), Chunk([0, 0, 0, 1], [0, 0, 0])];
            && ChunksOk(cs) && ZeroBehind(cs) && Run(cs) == Prescribed(Data(cs)) && !AllSafe(cs)
            && Run(cs) == Done([[1]], Some(Partial(0x100_0000, [0, 0, 0, 1])))
  {
    var z: seq<Byte> := [0, 0, 0];
    var a, b := Chunk([1], z), Chunk([0, 0, 0, 1], z);
    HeaderOf(a.data, z, [1, 0, 0, 0]);
    HeaderOf(b.data, z, [0, 0, 0, 1]);
    HeaderOf(b.data, ZEROS, [0, 0, 0, 1]);
    RunOne(a);
    assert Run([a]) == Done([[1]], None);
    assert [a, b][..1] == [a] && Data([a, b]) == [1, 0, 0, 0, 1];
    assert Run([a, b]) == Append([[1]], Feed(None, b));
    var s := Data([a, b]);
    assert s[..4] == [1, 0, 0, 0] && s[1..] == b.data;
    assert Cut(b.data) == Cutting([], b.data);
    assert [s[..1]] + [] == [[1]];
    assert Cut(s) == Cutting([[1]], b.data);
    HeaderOf(a.data, ZEROS, [1, 0, 0, 0]);
    assert [a, b][..0] == [] && Cut([]).rest + a.data == a.data;
    assert !Safe(Cut(Data([a, b][..0])).rest, [a, b][0]);
  }
}
