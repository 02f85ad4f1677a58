/** What `taskController::makeNewTask` computes for one client, call by call, and exactly
    when that is the reference splitter of `Frames` applied to the whole stream.

    The receive buffer is zeroed before each `recv`, so the four header bytes read at the
    start of a frame are the received ones continued by zeros, or, within the last three
    bytes of the buffer, by whatever memory follows it. `Chunk.after` is those three bytes. */
module Reassembly {
  import opened Bytes
  import opened Frames

  /** A stored partial frame: the declared length and the bytes that have come so far. */
  datatype Partial = Partial(len: U32, have: seq<Byte>)

  type Slot = Option<Partial>

  /** Received bytes and the three bytes of memory behind them. */
  datatype Chunk = Chunk(data: seq<Byte>, after: seq<Byte>)

  predicate ChunkOk(c: Chunk) {
    0 < |c.data| < TWO32 && |c.after| == 3
  }

  /** The result of a call: frames queued and the slot left behind; or a recursion with
      no end; or a copy past the end of the frame buffer. */
  datatype Outcome =
    | Done(frames: seq<seq<Byte>>, slot: Slot)
    | Endless
    | Overrun

  function Prepend(f: seq<Byte>, o: Outcome): Outcome {
    if o.Done? then Done([f] + o.frames, o.slot) else o
  }

  /** Frames are taken off the front, the first of them declared `n` bytes long. */
  function Resume(n: U32, s: seq<Byte>, after: seq<Byte>): Outcome
    requires |s| > 0 && |after| == 3
    decreases |s|, 0
  {
    if n == 0 then Endless
    else if n < |s| then Prepend(s[..n], Fresh(s[n..], after))
    else if n == |s| then Done([s], None)
    else Done([], Some(Partial(n, s)))
  }

  /** The branch for a client with nothing stored reads the length from the bytes. */
  function Fresh(s: seq<Byte>, after: seq<Byte>): Outcome
    requires |s| > 0 && |after| == 3
    decreases |s|, 1
  {
    Resume(Peek(s, after), s, after)
  }

  /** One call of `makeNewTask`. The sum of lengths is an unsigned int. */
  function Feed(slot: Slot, c: Chunk): Outcome
    requires ChunkOk(c)
    requires slot.Some? ==> |slot.value.have| < slot.value.len
  {
    match slot
    case None => Fresh(c.data, c.after)
    case Some(p) =>
      var sum := (|c.data| + |p.have|) % TWO32;
      if sum < p.len then
        if |p.have| + |c.data| > p.len then Overrun
        else Done([], Some(Partial(p.len, p.have + c.data)))
      else
        var need := p.len - |p.have|;
        var frame := p.have + c.data[..need];
        if sum > p.len then Prepend(frame, Fresh(c.data[need..], c.after)) else Done([frame], None)
  }

  // ----- What every call keeps -----

  predicate SlotOk(slot: Slot) {
    slot.Some? ==> 0 < |slot.value.have| < slot.value.len
  }

  function Stored(slot: Slot): seq<Byte> {
    if slot.Some? then slot.value.have else []
  }

  lemma {:induction false} ResumeConsumes(n: U32, s: seq<Byte>, after: seq<Byte>)
    requires |s| > 0 && |after| == 3
    ensures var o := Resume(n, s, after);
            o.Done? ==> SlotOk(o.slot) && Flat(o.frames) + Stored(o.slot) == s
    decreases |s|
  {
    if 0 < n < |s| {
      var t := s[n..];
      ResumeConsumes(Peek(t, after), t, after);
      var o := Fresh(t, after);
      if o.Done? {
        FlatJoin(s[..n], o.frames, Stored(o.slot));
        assert s == s[..n] + t;
      }
    } else if n == |s| {
      FlatCons(s, []);
    }
  }

  /** A call that finds a partial frame goes on as if the stored and the new bytes had
      come together behind a header already read. */
  lemma FeedResumes(p: Partial, c: Chunk)
    requires ChunkOk(c) && SlotOk(Some(p)) && |p.have| + |c.data| < TWO32
    ensures Feed(Some(p), c) == Resume(p.len, p.have + c.data, c.after)
  {
    var s := p.have + c.data;
    assert (|c.data| + |p.have|) % TWO32 == |s|;
    assert s[..|s|] == s;
    if |s| >= p.len {
      assert s[..p.len] == p.have + c.data[..p.len - |p.have|];
      assert s[p.len..] == c.data[p.len - |p.have|..];
    }
  }

  /** Exact consumption: a call that returns has put every byte, once and in order,
      into a queued frame or the stored partial frame, and a stored frame is never
      complete. No assumption on the bytes. */
  lemma FeedConsumes(slot: Slot, c: Chunk)
    requires ChunkOk(c) && SlotOk(slot)
    ensures var o := Feed(slot, c);
            o.Done? ==> SlotOk(o.slot) && Flat(o.frames) + Stored(o.slot) == Stored(slot) + c.data
  {
    OverrunExact(slot, c);
    if slot.None? {
      ResumeConsumes(Peek(c.data, c.after), c.data, c.after);
    } else if |slot.value.have| + |c.data| < TWO32 {
      FeedResumes(slot.value, c);
      ResumeConsumes(slot.value.len, slot.value.have + c.data, c.after);
    }
  }

  lemma {:induction false} FreshNeverOverruns(s: seq<Byte>, after: seq<Byte>)
    requires |s| > 0 && |after| == 3
    ensures Fresh(s, after) != Overrun
    decreases |s|
  {
    var n := Peek(s, after);
    if 0 < n < |s| {
      FreshNeverOverruns(s[n..], after);
    }
  }

  /** A copy leaves the frame buffer exactly when the 32-bit sum of lengths wraps. */
  lemma OverrunExact(slot: Slot, c: Chunk)
    requires ChunkOk(c) && SlotOk(slot)
    ensures Feed(slot, c) == Overrun <==> slot.Some? && |slot.value.have| + |c.data| >= TWO32
  {
    if slot.None? {
      FreshNeverOverruns(c.data, c.after);
    } else {
      var p := slot.value;
      var total := |p.have| + |c.data|;
      assert total % TWO32 == if total >= TWO32 then total - TWO32 else total;
      if total % TWO32 > p.len {
        FreshNeverOverruns(c.data[p.len - |p.have|..], c.after);
      }
    }
  }

  const RECV_BUFFER := 32 * 1024

  /** A declared length that leaves room for one more receive can never wrap the sum. */
  lemma NoOverrun(slot: Slot, c: Chunk)
    requires ChunkOk(c) && |c.data| <= RECV_BUFFER && SlotOk(slot)
    requires slot.Some? ==> slot.value.len <= TWO32 - RECV_BUFFER
    ensures Feed(slot, c) != Overrun
  {
    OverrunExact(slot, c);
  }

  // ----- What a call comes to, whatever its steps -----

  /** Frames laid end to end with a rest, all of them as long as the header in front of them
      reads, and the rest shorter than its own. */
  predicate Headed(frames: seq<seq<Byte>>, slot: Slot, after: seq<Byte>)
    requires |after| == 3
    decreases |frames|
  {
    if frames == [] then
      slot.Some? ==> 0 < |slot.value.have| < slot.value.len == Peek(slot.value.have, after)
    else
      frames[0] != [] && |frames[0]| == Peek(Flat(frames) + Stored(slot), after) && Headed(frames[1..], slot, after)
  }

  lemma {:induction false} FreshHeaded(s: seq<Byte>, after: seq<Byte>)
    requires |s| > 0 && |after| == 3 && Fresh(s, after).Done?
    ensures var o := Fresh(s, after); Headed(o.frames, o.slot, after)
    decreases |s|
  {
    var n := Peek(s, after);
    ResumeConsumes(n, s, after);
    if n < |s| {
      FreshHeaded(s[n..], after);
      var o := Fresh(s[n..], after);
      assert ([s[..n]] + o.frames)[1..] == o.frames;
    }
  }

  /** There is only one way to cut bytes like that. */
  lemma {:induction false} HeadedIsFresh(frames: seq<seq<Byte>>, slot: Slot, after: seq<Byte>)
    requires |after| == 3 && Headed(frames, slot, after) && Flat(frames) + Stored(slot) != []
    ensures Fresh(Flat(frames) + Stored(slot), after) == Done(frames, slot)
    decreases |frames|
  {
    var s := Flat(frames) + Stored(slot);
    if frames == [] {
      assert s == Stored(slot);
    } else {
      var f, rest := frames[0], Flat(frames[1..]) + Stored(slot);
      assert s == f + rest;
      assert s[..|f|] == f && s[|f|..] == rest && [f] + frames[1..] == frames;
      if rest != [] {
        HeadedIsFresh(frames[1..], slot, after);
      } else {
        NothingLeft(frames[1..], slot, after);
      }
    }
  }

  lemma NothingLeft(frames: seq<seq<Byte>>, slot: Slot, after: seq<Byte>)
    requires |after| == 3 && Headed(frames, slot, after) && Flat(frames) + Stored(slot) == []
    ensures frames == [] && slot == None
  {
  }

  /** A call with nothing stored returns exactly what the headers say. */
  lemma FreshExactly(s: seq<Byte>, after: seq<Byte>, frames: seq<seq<Byte>>, slot: Slot)
    requires |s| > 0 && |after| == 3
    ensures Fresh(s, after) == Done(frames, slot) <==>
              Flat(frames) + Stored(slot) == s && Headed(frames, slot, after)
  {
    if Fresh(s, after) == Done(frames, slot) {
      ResumeConsumes(Peek(s, after), s, after);
      FreshHeaded(s, after);
    } else if Flat(frames) + Stored(slot) == s && Headed(frames, slot, after) {
      HeadedIsFresh(frames, slot, after);
    }
  }

  /** What any call returns, safe or not, in terms of the bytes: they are cut into frames and
      a rest; the frame under way is as long as was declared before; every other header is
      the one that reads there; and the sum of lengths must not wrap. */
  lemma CallExactly(slot: Slot, c: Chunk, frames: seq<seq<Byte>>, left: Slot)
    requires ChunkOk(c) && SlotOk(slot)
    ensures Feed(slot, c) == Done(frames, left) <==>
              && Flat(frames) + Stored(left) == Stored(slot) + c.data
              && match slot
                 case None => Headed(frames, left, c.after)
                 case Some(p) =>
                   && |p.have| + |c.data| < TWO32
                   && if frames == [] then left.Some? && left.value.len == p.len > |left.value.have|
                      else |frames[0]| == p.len && Headed(frames[1..], left, c.after)
  {
    if slot.None? {
      FreshExactly(c.data, c.after, frames, left);
      assert [] + c.data == c.data;
    } else {
      OverrunExact(slot, c);
      if |slot.value.have| + |c.data| < TWO32 {
        FeedResumes(slot.value, c);
        ResumeExactly(slot.value.len, slot.value.have + c.data, c.after, frames, left);
      }
    }
  }

  lemma ResumeExactly(n: U32, s: seq<Byte>, after: seq<Byte>, frames: seq<seq<Byte>>, left: Slot)
    requires |s| > 0 && |after| == 3 && n > 0
    ensures Resume(n, s, after) == Done(frames, left) <==>
              && Flat(frames) + Stored(left) == s
              && if frames == [] then left.Some? && left.value.len == n > |left.value.have|
                 else |frames[0]| == n && Headed(frames[1..], left, after)
  {
    if frames == [] {
      assert Flat(frames) + Stored(left) == Stored(left);
    } else {
      var f, rest := frames[0], Flat(frames[1..]) + Stored(left);
      assert Flat(frames) + Stored(left) == f + rest;
      assert [f] + frames[1..] == frames;
      ResumeFirst(n, s, after, frames, left);
    }
  }

  lemma ResumeFirst(n: U32, s: seq<Byte>, after: seq<Byte>, frames: seq<seq<Byte>>, left: Slot)
    requires |s| > 0 && |after| == 3 && n > 0 && frames != []
    ensures Resume(n, s, after) == Done(frames, left) <==>
              Flat(frames) + Stored(left) == s && |frames[0]| == n && Headed(frames[1..], left, after)
  {
    var rest := Flat(frames[1..]) + Stored(left);
    assert Flat(frames) + Stored(left) == frames[0] + rest && [frames[0]] + frames[1..] == frames;
    if Resume(n, s, after) == Done(frames, left) {
      ResumeConsumes(n, s, after);
      if n < |s| {
        FreshHeaded(s[n..], after);
        assert ([s[..n]] + Fresh(s[n..], after).frames)[1..] == Fresh(s[n..], after).frames;
      }
    } else if frames[0] + rest == s && |frames[0]| == n && Headed(frames[1..], left, after) {
      assert s[..n] == frames[0] && s[n..] == rest;
      if rest == [] {
        NothingLeft(frames[1..], left, after);
      } else {
        HeadedIsFresh(frames[1..], left, after);
      }
    }
  }

  // ----- Termination -----

  /** One frame, and then what a nested call comes to, if it comes to an end. */
  function Then(f: seq<Byte>, o: Option<Outcome>): Option<Outcome> {
    if o.None? then None else Some(Prepend(f, o.value))
  }

  /** `makeNewTask` for a client with nothing stored, cut off after `depth` nested calls. */
  function Unrolled(depth: nat, s: seq<Byte>, after: seq<Byte>): Option<Outcome>
    requires |s| > 0 && |after| == 3
  {
    if depth == 0 then None
    else
      var n := Peek(s, after);
      if n < |s| then Then(s[..n], Unrolled(depth - 1, s[n..], after))
      else if n == |s| then Some(Done([s], None))
      else Some(Done([], Some(Partial(n, s))))
  }

  /** `makeNewTask`, whatever is stored, cut off after `depth` calls. */
  function UnrolledCall(depth: nat, slot: Slot, c: Chunk): Option<Outcome>
    requires ChunkOk(c) && SlotOk(slot)
  {
    if slot.None? then Unrolled(depth, c.data, c.after)
    else if depth == 0 then None
    else
      var p := slot.value;
      var sum, need := (|c.data| + |p.have|) % TWO32, p.len - |p.have|;
      if sum < p.len then Some(Feed(slot, c))
      else if sum == p.len then Some(Done([p.have + c.data[..need]], None))
      else Then(p.have + c.data[..need], Unrolled(depth - 1, c.data[need..], c.after))
  }

  lemma {:induction false} UnrolledReturns(depth: nat, s: seq<Byte>, after: seq<Byte>)
    requires |s| > 0 && |after| == 3
    ensures Unrolled(depth, s, after).Some? ==>
              Fresh(s, after) == Unrolled(depth, s, after).value && Fresh(s, after).Done?
    ensures Fresh(s, after) != Endless && depth >= |s| ==> Unrolled(depth, s, after).Some?
    decreases depth
  {
    if depth > 0 {
      var n := Peek(s, after);
      if n == 0 {
        assert s[0..] == s && Fresh(s, after) == Endless;
        UnrolledReturns(depth - 1, s, after);
      } else if n < |s| {
        assert Fresh(s, after) == Prepend(s[..n], Fresh(s[n..], after));
        UnrolledReturns(depth - 1, s[n..], after);
      }
    }
  }

  lemma CallReturns(depth: nat, slot: Slot, c: Chunk)
    requires ChunkOk(c) && SlotOk(slot)
    ensures UnrolledCall(depth, slot, c).Some? ==>
              Feed(slot, c) == UnrolledCall(depth, slot, c).value && Feed(slot, c) != Endless
    ensures Feed(slot, c) != Endless && depth > |c.data| ==> UnrolledCall(depth, slot, c).Some?
  {
    if slot.None? {
      UnrolledReturns(depth, c.data, c.after);
    } else if depth > 0 {
      var p := slot.value;
      if (|c.data| + |p.have|) % TWO32 > p.len {
        UnrolledReturns(depth - 1, c.data[p.len - |p.have|..], c.after);
      }
    }
  }

  /** The bytes that make the recursion go on for ever, where frames are cut off `s`: once
      the whole frames are gone the next header reads as zero; or, as it can when fewer than
      four bytes are left, it reads as less than what is left, and the header behind that
      reads as zero. */
  predicate MeetsEmpty(s: seq<Byte>, after: seq<Byte>)
    requires |after| == 3
  {
    var r := Cut(s).rest;
    r != [] && var n := Peek(r, after); n == 0 || (n < |r| && Peek(r[n..], after) == 0)
  }

  lemma {:induction false} FreshEndless(s: seq<Byte>, after: seq<Byte>)
    requires |s| > 0 && |after| == 3
    ensures Fresh(s, after) == Endless <==> MeetsEmpty(s, after)
    decreases |s|
  {
    var n := Peek(s, after);
    PeekAfter(s, after);
    if |s| >= 4 && 0 < n < |s| {
      FreshEndless(s[n..], after);
    } else if |s| >= 4 && n == |s| {
      assert s[n..] == [];
    } else if |s| < 4 && 0 < n < |s| {
      ShortHeader(s, after);
      assert Fresh(s[n..], after) == Endless <==> Peek(s[n..], after) == 0;
    }
  }

  /** Two or three bytes that start with a whole frame are followed by a header that reads
      as zero or as more than they are. */
  lemma ShortHeader(s: seq<Byte>, after: seq<Byte>)
    requires 0 < |s| < 4 && |after| == 3 && 0 < Peek(s, after) < |s|
    ensures var n := Peek(s, after);
            Peek(s[n..], after) == 0 || Peek(s[n..], after) >= |s| - n + 1
  {
    var n := Peek(s, after);
    var h, g := (s + after)[..4], (s[n..] + after)[..4];
    assert h[0] == n && h[1] == 0 && h[2] == 0 && h[3] == 0;
    assert forall k :: 0 <= k < 4 - n ==> g[k] == h[k + n];
  }

  /** Exactly when `makeNewTask` goes on for ever, whatever is stored, in terms of the
      bytes: those behind the frame under way, if any, meet an empty frame. */
  lemma FeedEndless(slot: Slot, c: Chunk)
    requires ChunkOk(c) && SlotOk(slot)
    ensures Feed(slot, c) == Endless <==>
              match slot
              case None => MeetsEmpty(c.data, c.after)
              case Some(p) => p.len < |p.have| + |c.data| < TWO32 && MeetsEmpty(c.data[p.len - |p.have|..], c.after)
  {
    OverrunExact(slot, c);
    if slot.None? {
      FreshEndless(c.data, c.after);
    } else {
      var p := slot.value;
      if p.len < |p.have| + |c.data| < TWO32 {
        FreshEndless(c.data[p.len - |p.have|..], c.after);
      }
    }
  }

  /** The call of the source, with its recursion, returns exactly for the bytes that meet
      no empty frame; and then its result is the modelled one. (A copy past the end of the
      frame buffer is a result here.) */
  lemma RecursionReturns(slot: Slot, c: Chunk)
    requires ChunkOk(c) && SlotOk(slot)
    ensures (exists depth: nat :: UnrolledCall(depth, slot, c).Some?) <==>
              match slot
              case None => !MeetsEmpty(c.data, c.after)
              case Some(p) =>
                p.len < |p.have| + |c.data| < TWO32 ==> !MeetsEmpty(c.data[p.len - |p.have|..], c.after)
    ensures forall depth: nat :: UnrolledCall(depth, slot, c).Some? ==>
              UnrolledCall(depth, slot, c).value == Feed(slot, c)
  {
    FeedEndless(slot, c);
    forall depth: nat
      ensures UnrolledCall(depth, slot, c).Some? ==>
                UnrolledCall(depth, slot, c).value == Feed(slot, c) && Feed(slot, c) != Endless
    {
      CallReturns(depth, slot, c);
    }
    CallReturns(|c.data| + 1, slot, c);
  }

  /** Within the zeroed part of the receive buffer: the header of what is left reads as
      less than what is left. */
  lemma EmptyOverZeros(s: seq<Byte>, after: seq<Byte>)
    requires after == [0, 0, 0]
    ensures MeetsEmpty(s, after) <==> var r := Cut(s).rest; r != [] && Peek(r, ZEROS) < |r|
  {
    var r := Cut(s).rest;
    CutRest(s);
    if r != [] {
      PeekAfter(r, after);
      if |r| < 4 && 0 < Peek(r, after) < |r| {
        var n := Peek(r, after);
        var h, g := (r + after)[..4], (r[n..] + after)[..4];
        assert h[0] == n && h[1] == 0 && h[2] == 0 && h[3] == 0;
        assert forall k :: 0 <= k < 4 - n ==> g[k] == h[k + n];
        assert g == ZEROS;
      }
    }
  }

  /** One zero byte is enough. */
  lemma OneByteForEver()
    ensures ChunkOk(Chunk([0], [0, 0, 0])) && Feed(None, Chunk([0], [0, 0, 0])) == Endless
    ensures forall depth: nat :: UnrolledCall(depth, None, Chunk([0], [0, 0, 0])).None?
  {
    var c := Chunk([0], [0, 0, 0]);
    assert Cut(c.data).rest == c.data;
    assert (c.data + c.after)[..4] == ZEROS;
    assert MeetsEmpty(c.data, c.after);
    RecursionReturns(None, c);
    FeedEndless(None, c);
  }

  // ----- Exactly when a call agrees with the reference -----

  /** The slot the reference prescribes for an uncut rest. */
  function SlotFor(rest: seq<Byte>): Slot {
    if rest == [] then None else Some(Partial(Peek(rest, ZEROS), rest))
  }

  /** All bytes of `t` that fall into a four-byte header begun by `s` are zero. */
  predicate HeaderTailZero(s: seq<Byte>, t: seq<Byte>) {
    s != [] ==> forall k :: 0 <= k < |t| && k + |s| < 4 ==> t[k] == 0
  }

  /** What the reference has left uncut is declared longer than it is, as far as its
      header is known. (From four bytes on this only excludes an empty frame.) */
  predicate Pending(rest: seq<Byte>) {
    rest != [] ==> |rest| < Peek(rest, ZEROS)
  }

  /** The exact condition on a call, in terms of the bytes alone: a header that was split
      continues with zeros; the new rest is pending; if its header is read in this call,
      the bytes it lacks read as zeros; and the lengths add up in 32 bits. */
  predicate Safe(rest: seq<Byte>, c: Chunk) {
    var after := Cut(rest + c.data);
    && HeaderTailZero(rest, c.data)
    && Pending(after.rest)
    && (rest == [] || after.frames != [] ==> HeaderTailZero(after.rest, c.after))
    && (rest != [] ==> |rest| + |c.data| < TWO32)
  }

  lemma PeekAfter(s: seq<Byte>, after: seq<Byte>)
    requires |s| > 0 && |after| == 3
    ensures Peek(s, ZEROS) <= Peek(s, after)
    ensures Peek(s, after) == Peek(s, ZEROS) <==> HeaderTailZero(s, after)
    ensures |s| >= 4 ==> Peek(s, after) == Peek(s, ZEROS) == WordOf(s[..4])
  {
    if |s| < 4 {
      PeekShort(s, after, ZEROS);
      assert (s + after + ZEROS)[..4] == (s + after)[..4];
    } else {
      PeekWhole(s, after, ZEROS);
      PeekWhole(s, ZEROS, after);
      assert (s + after)[..4] == s[..4];
    }
  }

  /** A header stays the same when it is continued, exactly if by its own zeros. */
  lemma SameHeader(rest: seq<Byte>, t: seq<Byte>)
    requires rest != []
    ensures Peek(rest + t, ZEROS) == Peek(rest, ZEROS) <==> HeaderTailZero(rest, t)
  {
    if |rest| >= 4 {
      PeekWhole(rest, t, ZEROS);
    } else {
      PeekShort(rest, t, ZEROS);
    }
  }

  lemma {:induction false} FreshExact(s: seq<Byte>, after: seq<Byte>)
    requires |s| > 0 && |after| == 3
    ensures Fresh(s, after) == Done(Cut(s).frames, SlotFor(Cut(s).rest)) 
            <==> Pending(Cut(s).rest) && HeaderTailZero(Cut(s).rest, after)
    decreases |s|
  {
    var n := Peek(s, after);
    PeekAfter(s, after);
    if |s| >= 4 && 0 < n < |s| {
      FreshExact(s[n..], after);
      var o, c := Fresh(s[n..], after), Cut(s[n..]);
      if o.Done? {
        assert ([s[..n]] + o.frames)[1..] == o.frames && ([s[..n]] + c.frames)[1..] == c.frames;
      }
    } else if |s| >= 4 && n == |s| {
      assert s[..n] == s && s[n..] == [];
      assert [s] + [] == [s];
    }
  }

  /** The exact theorem for one call. If the slot is what the reference prescribes for
      the rest of the stream so far, then after the call the queued frames and the slot
      are what the reference prescribes for the longer stream if and only if the call
      was safe. */
  lemma FeedExact(rest: seq<Byte>, c: Chunk)
    requires ChunkOk(c) && SlotOk(SlotFor(rest)) && Cut(rest) == Cutting([], rest)
    ensures Feed(SlotFor(rest), c) == Done(Cut(rest + c.data).frames, SlotFor(Cut(rest + c.data).rest))
            <==> Safe(rest, c)
  {
    if rest == [] {
      assert rest + c.data == c.data;
      FreshExact(c.data, c.after);
    } else if |rest| + |c.data| >= TWO32 {
      OverrunExact(SlotFor(rest), c);
    } else {
      var n, s := Peek(rest, ZEROS), rest + c.data;
      FeedResumes(Partial(n, rest), c);
      if |rest| >= 4 {
        PeekAfter(rest, c.after);
        PeekAfter(s, c.after);
        assert s[..4] == rest[..4];
        ResumeExact(n, s, c.after);
      } else {
        PeekShort(rest, c.data, ZEROS);
        ResumeExact(n, s, c.after);
      }
    }
  }

  lemma ResumeExact(n: U32, s: seq<Byte>, after: seq<Byte>)
    requires |s| > 0 && |after| == 3 && 0 < n
    ensures Resume(n, s, after) == Done(Cut(s).frames, SlotFor(Cut(s).rest))
            <==> n == Peek(s, ZEROS) && Pending(Cut(s).rest)
                 && (Cut(s).frames != [] ==> HeaderTailZero(Cut(s).rest, after))
  {
    if n == Peek(s, ZEROS) {
      ResumeTrueHeader(s, after);
    } else {
      ResumeFalseHeader(n, s, after);
    }
  }

  lemma ResumeTrueHeader(s: seq<Byte>, after: seq<Byte>)
    requires |s| > 0 && |after| == 3 && 0 < Peek(s, ZEROS)
    ensures Resume(Peek(s, ZEROS), s, after) == Done(Cut(s).frames, SlotFor(Cut(s).rest))
            <==> Pending(Cut(s).rest) && (Cut(s).frames != [] ==> HeaderTailZero(Cut(s).rest, after))
  {
    var n := Peek(s, ZEROS);
    PeekAfter(s, after);
    if |s| >= 4 && n < |s| {
      FreshExact(s[n..], after);
      var o, c := Fresh(s[n..], after), Cut(s[n..]);
      assert ([s[..n]] + c.frames)[1..] == c.frames;
      if o.Done? {
        assert ([s[..n]] + o.frames)[1..] == o.frames;
      }
    } else if |s| >= 4 && n == |s| {
      assert s[..n] == s && s[n..] == [];
      assert [s] + [] == [s];
    }
  }

  lemma ResumeFalseHeader(n: U32, s: seq<Byte>, after: seq<Byte>)
    requires |s| > 0 && |after| == 3 && 0 < n != Peek(s, ZEROS)
    ensures Resume(n, s, after) != Done(Cut(s).frames, SlotFor(Cut(s).rest))
  {
    var o, c := Resume(n, s, after), Cut(s);
    CutFirst(s);
    if o.Done? && n <= |s| {
      assert o.frames != [] && |o.frames[0]| == n by {
        assert s[..|s|] == s;
      }
    }
  }

  /** The first frame the reference cuts is as long as the header says. */
  lemma CutFirst(s: seq<Byte>)
    requires |s| > 0
    ensures if Cut(s).frames == [] then Cut(s).rest == s else |Cut(s).frames[0]| == Peek(s, ZEROS)
  {
    if |s| >= 4 {
      PeekWhole(s, [], ZEROS);
    }
  }
}
