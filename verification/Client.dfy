/** The receive loop of `socketClient::doConnect`. */
module Client {
  import opened Bytes
  import opened Frames
  import opened Reassembly

  const BUFFER := 4096

  predicate ReceivesOk(rs: seq<seq<Byte>>) {
    forall r :: r in rs ==> 0 < |r| <= BUFFER
  }

  function Least(a: nat, b: nat): nat {
    if a < b then a else b
  }

  /** The first frame of a stream, or all of it if it ends before. `ack` is its length. */
  function FirstFrame(s: seq<Byte>, ack: nat): seq<Byte> {
    s[..Least(ack, |s|)]
  }

  lemma FlatTake(rs: seq<seq<Byte>>, i: nat)
    requires i < |rs|
    ensures Flat(rs[..i + 1]) == Flat(rs[..i]) + rs[i]
  {
    assert rs[..i + 1] == rs[..i] + [rs[i]];
    FlatSnoc(rs[..i], rs[i]);
  }

  lemma FlatSplit(rs: seq<seq<Byte>>, i: nat)
    requires i <= |rs|
    ensures Flat(rs) == Flat(rs[..i]) + Flat(rs[i..])
  {
    assert rs == rs[..i] + rs[i..];
    FlatAppend(rs[..i], rs[i..]);
  }

  /** A receive that brings the stream up to `ack` bytes ends the frame. */
  lemma FrameEnds(rs: seq<seq<Byte>>, i: nat, ack: nat)
    requires i < |rs| && |Flat(rs[..i])| <= ack <= |Flat(rs[..i])| + |rs[i]|
    ensures FirstFrame(Flat(rs), ack) == Flat(rs[..i]) + rs[i][..ack - |Flat(rs[..i])|]
  {
    FlatTake(rs, i);
    FlatSplit(rs, i + 1);
  }

  /** `rs` is what the calls of `recv` return before the peer closes. For any way the
      stream is cut, the loop ends with the first `ackLen` bytes of the stream, or with
      all of it, where `ackLen` is read from the first receive, in a zeroed buffer. */
  method ReceiveReply(rs: seq<seq<Byte>>) returns (resp: seq<Byte>)
    requires ReceivesOk(rs)
    ensures rs == [] ==> resp == []
    ensures rs != [] ==>
              var ack := Peek(rs[0], ZEROS);
              && WordAt(rs[0] + ZEROS, 0, ack) && resp <= Flat(rs)
              && |resp| == if ack < |Flat(rs)| then ack else |Flat(rs)|
    ensures rs != [] ==> resp == FirstFrame(Flat(rs), Peek(rs[0], ZEROS))
  {
    if rs != [] {
      PeekStands(rs[0], ZEROS);
    }
    var buf := new Byte[BUFFER];
    resp := [];
    var ackLen: U32 := 0;
    var next := 0;
    assert rs[..0] == [];
    while true
      invariant 0 <= next <= |rs|
      invariant next == 0 ==> resp == [] && ackLen == 0
      invariant next > 0 ==> ackLen == Peek(rs[0], ZEROS) && |resp| < ackLen
      invariant resp == Flat(rs[..next])
      decreases |rs| - next
    {
      var len := Recv(buf, rs, next);
      if len == 0 {
        assert rs[..next] == rs;
        break;
      }
      FlatTake(rs, next);
      ghost var r := rs[next];
      next := next + 1;
      if ackLen == 0 {
        ackLen := WordOf(buf[..4]);
        resp := [];
      }
      if |resp| + len < ackLen {
        resp := resp + buf[..len];
      } else {
        FrameEnds(rs, next - 1, ackLen);
        var remainSize := ackLen - |resp|;
        assert buf[..remainSize] == r[..remainSize];
        resp := resp + buf[..remainSize];
        break;
      }
    }
  }

  /** The buffer is zeroed and then receives what comes next. */
  method Recv(buf: array<Byte>, rs: seq<seq<Byte>>, next: nat) returns (len: nat)
    requires ReceivesOk(rs) && next <= |rs| && buf.Length == BUFFER
    modifies buf
    ensures next == |rs| ==> len == 0
    ensures next < |rs| ==> len == |rs[next]| && 0 < len <= BUFFER && buf[..len] == rs[next]
                            && WordOf(buf[..4]) == Peek(rs[next], ZEROS)
  {
    len := if next == |rs| then 0 else |rs[next]|;
    assert next < |rs| ==> rs[next] in rs;
    forall i | 0 <= i < BUFFER {
      buf[i] := if i < len then rs[next][i] else 0;
    }
    if next < |rs| {
      assert buf[..4] == (rs[next] + ZEROS)[..4];
    }
  }

  /** Exactly when the loop returns the frame the stream really starts with: the header
      bytes the first receive lacked are zero, or the stream is over before it matters. */
  lemma ReplyExactly(rs: seq<seq<Byte>>)
    requires ReceivesOk(rs) && rs != [] && |Flat(rs)| >= 4
    ensures var s := Flat(rs);
            FirstFrame(s, Peek(rs[0], ZEROS)) == FirstFrame(s, WordOf(s[..4]))
            <==> HeaderTailZero(rs[0], Flat(rs[1..])) || Peek(rs[0], ZEROS) >= |s|
  {
    var s, r, t := Flat(rs), rs[0], Flat(rs[1..]);
    assert r in rs;
    assert s == r + t;
    if |r| >= 4 {
      PeekWhole(r, [], ZEROS);
      assert s[..4] == r[..4];
    } else {
      PeekShort(r, t, ZEROS);
      assert (r + t + ZEROS)[..4] == s[..4];
      var a, b := Peek(r, ZEROS), WordOf(s[..4]);
      if a != b && a < |s| {
        assert |FirstFrame(s, a)| == a && |FirstFrame(s, b)| == Least(b, |s|);
      }
    }
  }

  /** A self-sized reply, cut in any way that leaves its header in one piece, arrives
      whole, and whatever follows it is dropped. */
  lemma WholeReply(rs: seq<seq<Byte>>, f: seq<Byte>, more: seq<Byte>)
    requires ReceivesOk(rs) && SelfSized(f) && Flat(rs) == f + more && |rs| > 0 && |rs[0]| >= 4
    ensures FirstFrame(Flat(rs), Peek(rs[0], ZEROS)) == f
  {
    var r := rs[0];
    assert Flat(rs) == r + Flat(rs[1..]);
    PeekWhole(r, [], ZEROS);
    assert r[..4] == Flat(rs)[..4] == f[..4];
  }
}
