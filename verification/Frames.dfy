/** The reference splitter: what a whole byte stream means as a list of length-prefixed
    frames, with no chunks, buffers or connections in sight. */
module Frames {
  import opened Bytes

  datatype Cutting = Cutting(frames: seq<seq<Byte>>, rest: seq<Byte>)

  /** Cut complete frames off the front. The rest is whatever does not yet hold a whole
      frame, or starts with a frame declared to be empty, which no cut can remove. */
  function Cut(s: seq<Byte>): (c: Cutting)
    ensures |c.rest| <= |s|
  {
    if |s| < 4 then Cutting([], s)
    else
      var n := WordOf(s[..4]);
      if n == 0 || n > |s| then Cutting([], s)
      else
        var c := Cut(s[n..]);
        Cutting([s[..n]] + c.frames, c.rest)
  }

  lemma FlatJoin(f: seq<Byte>, frames: seq<seq<Byte>>, rest: seq<Byte>)
    ensures Flat([f] + frames) + rest == f + (Flat(frames) + rest)
  {
    FlatCons(f, frames);
  }

  /** Cutting loses nothing and adds nothing. */
  lemma {:induction false} CutKeepsBytes(s: seq<Byte>)
    ensures Flat(Cut(s).frames) + Cut(s).rest == s
    decreases |s|
  {
    if |s| >= 4 && 0 < WordOf(s[..4]) <= |s| {
      var n := WordOf(s[..4]);
      var f, c := s[..n], Cut(s[n..]);
      CutKeepsBytes(s[n..]);
      assert Cut(s) == Cutting([f] + c.frames, c.rest);
      FlatJoin(f, c.frames, c.rest);
    }
  }

  /** A frame says how long it is in its first four bytes. */
  predicate SelfSized(f: seq<Byte>) {
    |f| >= 4 && WordOf(f[..4]) == |f|
  }

  /** Cutting one self-sized frame off the front. */
  lemma CutFrame(f: seq<Byte>, s: seq<Byte>)
    requires SelfSized(f)
    ensures Cut(f + s) == Cutting([f] + Cut(s).frames, Cut(s).rest)
  {
    assert (f + s)[..4] == f[..4];
    assert (f + s)[..|f|] == f && (f + s)[|f|..] == s;
  }

  /** Laying self-sized frames end to end and cutting gives them back. */
  lemma {:induction false} CutFlat(fs: seq<seq<Byte>>)
    requires forall f :: f in fs ==> SelfSized(f)
    ensures Cut(Flat(fs)) == Cutting(fs, [])
  {
    if fs != [] {
      CutFlat(fs[1..]);
      CutFrame(fs[0], Flat(fs[1..]));
      assert [fs[0]] + fs[1..] == fs;
    }
  }

  /** Cutting is incremental: only the rest of the first part is needed to go on. */
  lemma {:induction false} CutAppend(a: seq<Byte>, b: seq<Byte>)
    ensures Cut(a + b) == Cutting(Cut(a).frames + Cut(Cut(a).rest + b).frames, Cut(Cut(a).rest + b).rest)
    decreases |a|
  {
    if |a| >= 4 && 0 < WordOf(a[..4]) <= |a| {
      var n := WordOf(a[..4]);
      assert (a + b)[..4] == a[..4];
      assert (a + b)[..n] == a[..n] && (a + b)[n..] == a[n..] + b;
      CutAppend(a[n..], b);
      var c := Cut(a[n..]);
      assert [a[..n]] + (c.frames + Cut(c.rest + b).frames) == ([a[..n]] + c.frames) + Cut(c.rest + b).frames;
    }
  }

  /** The rest is itself uncuttable. */
  lemma {:induction false} CutRest(s: seq<Byte>)
    ensures Cut(Cut(s).rest) == Cutting([], Cut(s).rest)
    decreases |s|
  {
    if |s| >= 4 && 0 < WordOf(s[..4]) <= |s| {
      CutRest(s[WordOf(s[..4])..]);
    }
  }
}
