/** The receive buffer is 32 KiB long and a header read takes four bytes from it, whatever is
    left. Exactly when such a read runs past the end of the buffer. */
module HeaderReads {
  import opened Bytes
  import opened Frames
  import opened Reassembly
  import opened Streams

  /** A header read with `left` bytes to go, where the chunk ends at `end` of the buffer. */
  predicate PastEnd(left: nat, end: nat) {
    end + 4 > RECV_BUFFER + left
  }

  /** Some header read at a frame of `s`, the first one or a later one. */
  predicate ReadsPast(s: seq<Byte>, after: seq<Byte>, end: nat)
    requires 0 < |s| && |after| == 3
  {
    PastEnd(|s|, end) || (var n := Peek(s, after); 0 < n < |s| && ReadsPast(s[n..], after, end))
  }

  /** The bytes of a chunk that go through the branch reading headers: all, or those behind
      the frame under way, whose header has been read. The sum is an unsigned int. */
  function Loose(slot: Slot, c: Chunk): (s: seq<Byte>)
    requires ChunkOk(c) && SlotOk(slot)
    ensures |s| <= |c.data|
  {
    match slot
    case None => c.data
    case Some(p) => if (|c.data| + |p.have|) % TWO32 > p.len then c.data[p.len - |p.have|..] else []
  }

  lemma LooseBehind(p: Partial, c: Chunk)
    requires ChunkOk(c) && SlotOk(Some(p))
    ensures Loose(Some(p), c) ==
            if p.len < |p.have| + |c.data| < TWO32 then c.data[p.len - |p.have|..] else []
  {
    var total := |c.data| + |p.have|;
    assert total % TWO32 == if total >= TWO32 then total - TWO32 else total;
  }

  /** The same for a call of `makeNewTask`. */
  predicate CallReadsPast(slot: Slot, c: Chunk, end: nat)
    requires ChunkOk(c) && SlotOk(slot)
  {
    var s := Loose(slot, c);
    s != [] && ReadsPast(s, c.after, end)
  }

  // ----- In terms of the bytes -----

  /** What is left once the whole frames are gone is too short for a header, and ends too
      near to the end of the buffer; or there is a shorter frame in it and then it does. */
  predicate ShortAtEnd(s: seq<Byte>, after: seq<Byte>, end: nat)
    requires |after| == 3
  {
    var r := Cut(s).rest;
    0 < |r| < 4 && (PastEnd(|r|, end) || (var n := Peek(r, after); 0 < n < |r| && PastEnd(|r| - n, end)))
  }

  lemma {:induction false} ReadsPastExact(s: seq<Byte>, after: seq<Byte>, end: nat)
    requires 0 < |s| && |after| == 3 && end <= RECV_BUFFER
    ensures ReadsPast(s, after, end) <==> ShortAtEnd(s, after, end)
    decreases |s|
  {
    var n := Peek(s, after);
    PeekAfter(s, after);
    if |s| >= 4 && 0 < n < |s| {
      ReadsPastExact(s[n..], after, end);
    } else if |s| >= 4 && n == |s| {
      assert s[n..] == [];
    } else if |s| < 4 && 0 < n < |s| {
      ShortHeader(s, after);
      assert ReadsPast(s[n..], after, end) <==> PastEnd(|s| - n, end);
    }
  }

  /** Exactly when a call reads past the buffer, whatever is stored: by the bytes behind the
      frame under way, if any. */
  lemma CallReadsPastExact(slot: Slot, c: Chunk, end: nat)
    requires ChunkOk(c) && SlotOk(slot) && end <= RECV_BUFFER
    ensures CallReadsPast(slot, c, end) <==>
              match slot
              case None => ShortAtEnd(c.data, c.after, end)
              case Some(p) =>
                p.len < |p.have| + |c.data| < TWO32 && ShortAtEnd(c.data[p.len - |p.have|..], c.after, end)
  {
    if slot.Some? {
      LooseBehind(slot.value, c);
    }
    if Loose(slot, c) != [] {
      ReadsPastExact(Loose(slot, c), c.after, end);
    }
  }

  /** A receive that fills the buffer: whenever a piece of a header is left at its end. */
  lemma FullReceive(slot: Slot, c: Chunk)
    requires ChunkOk(c) && SlotOk(slot) && |c.data| == RECV_BUFFER
    ensures CallReadsPast(slot, c, RECV_BUFFER) <==>
              match slot
              case None => 0 < |Cut(c.data).rest| < 4
              case Some(p) =>
                p.len < |p.have| + |c.data| < TWO32 && 0 < |Cut(c.data[p.len - |p.have|..]).rest| < 4
  {
    CallReadsPastExact(slot, c, RECV_BUFFER);
  }

  /** A receive that leaves three bytes of the buffer free never does. */
  lemma RoomIsEnough(slot: Slot, c: Chunk)
    requires ChunkOk(c) && SlotOk(slot) && |c.data| + 3 <= RECV_BUFFER
    ensures !CallReadsPast(slot, c, |c.data|)
  {
    CallReadsPastExact(slot, c, |c.data|);
  }

  // ----- In a run -----

  /** What is declared longer than it is has no shorter frame in it. */
  lemma PendingAtEnd(s: seq<Byte>, after: seq<Byte>, end: nat)
    requires |after| == 3 && end <= RECV_BUFFER && Pending(Cut(s).rest)
    ensures ShortAtEnd(s, after, end) <==> Cut(s).rest != [] && PastEnd(|Cut(s).rest|, end)
  {
    if Cut(s).rest != [] {
      PeekAfter(Cut(s).rest, after);
    }
  }

  /** Cutting the first frame off leaves the same rest. */
  lemma CutBehind(s: seq<Byte>)
    requires s != [] && Pending(Cut(s).rest)
    ensures var n := Peek(s, ZEROS);
            if n < |s| then Cut(s).frames != [] && Cut(s[n..]).rest == Cut(s).rest
            else if n == |s| then Cut(s).rest == []
            else Cut(s) == Cutting([], s)
  {
    if |s| >= 4 {
      PeekWhole(s, [], ZEROS);
    }
  }

  /** What is behind the frame under way, for a header that was read in full. */
  lemma BehindFrame(rest: seq<Byte>, t: seq<Byte>)
    requires rest != [] && |rest| < Peek(rest, ZEROS) && HeaderTailZero(rest, t) && Pending(Cut(rest + t).rest)
    ensures var n, s := Peek(rest, ZEROS), rest + t;
            && (Cut(s).frames != [] && Cut(s).rest != [] ==> n < |s|)
            && (n < |s| ==> Cut(s).frames != [] && Cut(t[n - |rest|..]).rest == Cut(s).rest)
  {
    var n, s := Peek(rest, ZEROS), rest + t;
    SameHeader(rest, t);
    CutBehind(s);
    if n < |s| {
      assert s[n..] == t[n - |rest|..];
    }
  }

  /** The same for a stored frame, where `t` is what all bytes together are cut into. */
  lemma StoredReadsPast(p: Partial, c: Chunk, t: Cutting)
    requires ChunkOk(c) && |c.data| <= RECV_BUFFER && SlotOk(Some(p)) && |p.have| + |c.data| < TWO32
    requires Pending(t.rest) && (t.frames != [] && t.rest != [] ==> p.len < |p.have| + |c.data|)
    requires p.len < |p.have| + |c.data| ==> t.frames != [] && Cut(c.data[p.len - |p.have|..]).rest == t.rest
    ensures CallReadsPast(Some(p), c, |c.data|) <==> t.frames != [] && t.rest != [] && PastEnd(|t.rest|, |c.data|)
  {
    CallReadsPastExact(Some(p), c, |c.data|);
    if p.len < |p.have| + |c.data| {
      PendingAtEnd(c.data[p.len - |p.have|..], c.after, |c.data|);
    }
  }

  /** And with nothing stored. */
  lemma FirstReadsPast(c: Chunk)
    requires ChunkOk(c) && |c.data| <= RECV_BUFFER && Pending(Cut(c.data).rest)
    ensures CallReadsPast(None, c, |c.data|) <==> Cut(c.data).rest != [] && PastEnd(|Cut(c.data).rest|, |c.data|)
  {
    CallReadsPastExact(None, c, |c.data|);
    PendingAtEnd(c.data, c.after, |c.data|);
  }

  /** A safe call reads past the buffer exactly if it reads the header of what is left over
      and that is a piece of a header so near the end. */
  lemma SafeReadsPast(rest: seq<Byte>, c: Chunk)
    requires ChunkOk(c) && |c.data| <= RECV_BUFFER && SlotOk(SlotFor(rest)) && Safe(rest, c)
    ensures CallReadsPast(SlotFor(rest), c, |c.data|) <==>
              var t := Cut(rest + c.data);
              (rest == [] || t.frames != []) && t.rest != [] && PastEnd(|t.rest|, |c.data|)
  {
    if rest == [] {
      assert rest + c.data == c.data;
      FirstReadsPast(c);
    } else {
      BehindFrame(rest, c.data);
      StoredReadsPast(Partial(Peek(rest, ZEROS), rest), c, Cut(rest + c.data));
    }
  }

  /** Between admissible chunks no header read leaves the buffer. */
  lemma AdmissibleStaysInside(cs: seq<Chunk>, n: nat)
    requires Admissible(cs) && n < |cs|
    ensures ChunksOk(cs[..n]) && Run(cs[..n]).Done? && ChunkOk(cs[n])
    ensures !CallReadsPast(Run(cs[..n]).slot, cs[n], |cs[n].data|)
  {
    var pre, c := cs[..n], cs[n];
    assert c in cs;
    AdmissibleIsSafe(cs);
    RunExact(cs);
    assert Agrees(pre);
    CutRest(Data(pre));
    var r := Cut(Data(pre)).rest;
    assert cs[..n + 1][..n] == pre && cs[..n + 1][n] == c;
    assert Data(cs[..n + 1]) == Data(pre) + c.data;
    CutAppend(Data(pre), c.data);
    SafeReadsPast(r, c);
  }

  /** Nor is it out of reach otherwise: a frame of 32767 bytes and one byte more in one
      receive, whatever lies behind the buffer. */
  lemma PastReached(after: seq<Byte>)
    requires |after| == 3
    ensures var c := Chunk(WordBytes(RECV_BUFFER - 1) + seq(RECV_BUFFER - 5, _ => 0) + [4], after);
            ChunkOk(c) && |c.data| == RECV_BUFFER && CallReadsPast(None, c, RECV_BUFFER)
  {
    var f := WordBytes(RECV_BUFFER - 1) + seq(RECV_BUFFER - 5, _ => 0);
    WordRoundTrip(RECV_BUFFER - 1);
    assert f[..4] == WordBytes(RECV_BUFFER - 1);
    CutFrame(f, [4]);
    FullReceive(None, Chunk(f + [4], after));
  }

  // ----- With a limited stack -----

  predicate UnrolledPast(depth: nat, s: seq<Byte>, after: seq<Byte>, end: nat)
    requires 0 < |s| && |after| == 3
  {
    depth > 0 &&
    (PastEnd(|s|, end) || (var n := Peek(s, after); n < |s| && UnrolledPast(depth - 1, s[n..], after, end)))
  }

  predicate UnrolledCallPast(depth: nat, slot: Slot, c: Chunk, end: nat)
    requires ChunkOk(c) && SlotOk(slot)
  {
    var s := Loose(slot, c);
    depth > 0 && s != [] && UnrolledPast(if slot.None? then depth else depth - 1, s, c.after, end)
  }

  lemma {:induction false} UnrolledPastExact(depth: nat, s: seq<Byte>, after: seq<Byte>, end: nat)
    requires 0 < |s| && |after| == 3
    ensures UnrolledPast(depth, s, after, end) ==> ReadsPast(s, after, end)
    ensures depth >= |s| && ReadsPast(s, after, end) ==> UnrolledPast(depth, s, after, end)
    decreases depth
  {
    if depth > 0 {
      var n := Peek(s, after);
      if n == 0 {
        assert s[0..] == s;
        UnrolledPastExact(depth - 1, s, after, end);
      } else if n < |s| {
        UnrolledPastExact(depth - 1, s[n..], after, end);
      }
    }
  }

  /** A stack with room for all frames sees all reads. */
  lemma UnrolledCallPastExact(depth: nat, slot: Slot, c: Chunk, end: nat)
    requires ChunkOk(c) && SlotOk(slot)
    ensures UnrolledCallPast(depth, slot, c, end) ==> CallReadsPast(slot, c, end)
    ensures depth > |c.data| && CallReadsPast(slot, c, end) ==> UnrolledCallPast(depth, slot, c, end)
  {
    var s := Loose(slot, c);
    if depth > 0 && s != [] {
      UnrolledPastExact(if slot.None? then depth else depth - 1, s, c.after, end);
    }
  }
}
