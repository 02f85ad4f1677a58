/** The send lists of `socketBase`: pushed by the workers, drained by the one sender, erased
    by the listener when a connection fails, all under one mutex. Line numbers are those of
    server/socket/socketBase.cpp. */
module SendQueue {
  import opened Bytes

  type Buf = seq<Byte>

  type Lists = map<int, seq<Buf>>

  datatype Op =
    | Send(socket: int, buf: Buf)   // lines 234-248
    | Take(socket: int)             // lines 103-113
    | Erase(socket: int)            // lines 64-66

  /** A buffer that left its list, to be sent or with the list. */
  datatype Left = Left(buf: Buf, taken: bool)

  function PendingOf(m: Lists, c: int): seq<Buf> {
    if c in m then m[c] else []
  }

  function Do(m: Lists, op: Op): Lists {
    match op
    case Send(c, b) => if c > 0 then m[c := PendingOf(m, c) + [b]] else m
    case Take(c) =>
      if m == map[] then m
      else if PendingOf(m, c) == [] then m[c := []]
      else m[c := m[c][1..]]
    case Erase(c) => m - {c}
  }

  /** The buffer the sender gets, if any. */
  function Taken(m: Lists, c: int): Option<Buf> {
    if PendingOf(m, c) == [] then None else Some(m[c][0])
  }

  function ListsAfter(ops: seq<Op>): Lists {
    if ops == [] then map[] else Do(ListsAfter(ops[..|ops| - 1]), ops[|ops| - 1])
  }

  /** What was passed to `send` for a socket, in lock order. */
  function PassedTo(ops: seq<Op>, c: int): seq<Buf> {
    if ops == [] then []
    else
      var op := ops[|ops| - 1];
      PassedTo(ops[..|ops| - 1], c) + if op.Send? && op.socket == c && c > 0 then [op.buf] else []
  }

  function Dropped(bs: seq<Buf>): (r: seq<Left>)
    ensures |r| == |bs|
  {
    if bs == [] then [] else [Left(bs[0], false)] + Dropped(bs[1..])
  }

  /** The buffers that left the list of a socket, in order. */
  function LeftOf(ops: seq<Op>, c: int): seq<Left> {
    if ops == [] then []
    else
      var m, op := ListsAfter(ops[..|ops| - 1]), ops[|ops| - 1];
      LeftOf(ops[..|ops| - 1], c) + LeftBy(m, op, c)
  }

  function LeftBy(m: Lists, op: Op, c: int): seq<Left> {
    if op.socket != c then []
    else if op.Take? && Taken(m, c).Some? then [Left(Taken(m, c).value, true)]
    else if op.Erase? then Dropped(PendingOf(m, c))
    else []
  }

  function Bufs(ls: seq<Left>): seq<Buf> {
    if ls == [] then [] else [ls[0].buf] + Bufs(ls[1..])
  }

  lemma {:induction false} BufsAppend(a: seq<Left>, b: seq<Left>)
    ensures Bufs(a + b) == Bufs(a) + Bufs(b)
    decreases |a|
  {
    if a == [] {
      assert a + b == b;
    } else {
      assert (a + b)[1..] == a[1..] + b;
      BufsAppend(a[1..], b);
    }
  }

  lemma {:induction false} BufsDropped(bs: seq<Buf>)
    ensures Bufs(Dropped(bs)) == bs
    decreases |bs|
  {
    if bs != [] {
      BufsDropped(bs[1..]);
      assert Dropped(bs)[1..] == Dropped(bs[1..]);
    }
  }

  lemma StepFifo(m: Lists, op: Op, c: int)
    ensures Bufs(LeftBy(m, op, c)) + PendingOf(Do(m, op), c)
            == PendingOf(m, c) + if op.Send? && op.socket == c && c > 0 then [op.buf] else []
  {
    if op.socket == c {
      if op.Erase? {
        BufsDropped(PendingOf(m, c));
      } else if op.Take? && PendingOf(m, c) != [] {
        assert LeftBy(m, op, c)[1..] == [];
        assert Bufs(LeftBy(m, op, c)) == [m[c][0]];
      }
    }
  }

  /** First in, first out: for every socket, what has left its list followed by what is
      pending is what was passed to `send`, in that order. */
  lemma {:induction false} SendFifo(ops: seq<Op>, c: int)
    ensures Bufs(LeftOf(ops, c)) + PendingOf(ListsAfter(ops), c) == PassedTo(ops, c)
    decreases |ops|
  {
    if ops != [] {
      var pre, op := ops[..|ops| - 1], ops[|ops| - 1];
      var m := ListsAfter(pre);
      SendFifo(pre, c);
      StepFifo(m, op, c);
      FifoJoin(LeftOf(pre, c), LeftBy(m, op, c), PendingOf(m, c), PendingOf(Do(m, op), c), PassedTo(pre, c),
               if op.Send? && op.socket == c && c > 0 then [op.buf] else []);
    }
  }

  lemma FifoJoin(left: seq<Left>, now: seq<Left>, before: seq<Buf>, after: seq<Buf>, passed: seq<Buf>, more: seq<Buf>)
    requires Bufs(left) + before == passed && Bufs(now) + after == before + more
    ensures Bufs(left + now) + after == passed + more
  {
    BufsAppend(left, now);
    assert Bufs(left) + Bufs(now) + after == Bufs(left) + (Bufs(now) + after);
  }

  predicate NeverErased(ops: seq<Op>, c: int) {
    Erase(c) !in ops
  }

  /** For a socket that was never erased, all that left was taken by the sender. */
  lemma {:induction false} AllTaken(ops: seq<Op>, c: int)
    requires NeverErased(ops, c)
    ensures forall l :: l in LeftOf(ops, c) ==> l.taken
    decreases |ops|
  {
    if ops != [] {
      AllTaken(ops[..|ops| - 1], c);
    }
  }

  /** The operations on one socket. */
  function On(ops: seq<Op>, c: int): seq<Op> {
    if ops == [] then []
    else On(ops[..|ops| - 1], c) + if ops[|ops| - 1].socket == c then [ops[|ops| - 1]] else []
  }

  lemma DoAt(m: Lists, n: Lists, op: Op, c: int)
    requires PendingOf(m, c) == PendingOf(n, c)
    ensures PendingOf(Do(m, op), c) == PendingOf(Do(n, op), c)
    ensures LeftBy(m, op, c) == LeftBy(n, op, c)
    ensures op.socket != c ==> PendingOf(Do(m, op), c) == PendingOf(m, c) && LeftBy(m, op, c) == []
  {
  }

  /** Other sockets do not matter, although the sender creates empty lists in passing. */
  lemma {:induction false} SocketIsolation(ops: seq<Op>, c: int)
    ensures PendingOf(ListsAfter(ops), c) == PendingOf(ListsAfter(On(ops, c)), c)
    ensures LeftOf(ops, c) == LeftOf(On(ops, c), c)
    decreases |ops|
  {
    if ops != [] {
      var pre, op := ops[..|ops| - 1], ops[|ops| - 1];
      SocketIsolation(pre, c);
      DoAt(ListsAfter(pre), ListsAfter(On(pre, c)), op, c);
      if op.socket == c {
        IsolationStep(On(pre, c), op, c);
        assert On(ops, c) == On(pre, c) + [op];
      } else {
        assert On(ops, c) == On(pre, c);
      }
    }
  }

  lemma IsolationStep(ops: seq<Op>, op: Op, c: int)
    ensures ListsAfter(ops + [op]) == Do(ListsAfter(ops), op)
    ensures LeftOf(ops + [op], c) == LeftOf(ops, c) + LeftBy(ListsAfter(ops), op, c)
    ensures PassedTo(ops + [op], c) == PassedTo(ops, c) + if op.Send? && op.socket == c && c > 0 then [op.buf] else []
  {
    assert (ops + [op])[..|ops|] == ops;
  }

  class SocketBase {
    var sendDataList: Lists
    /** Every operation so far, in lock order. */
    ghost var ops: seq<Op>

    ghost predicate Valid()
      reads this
    {
      sendDataList == ListsAfter(ops)
    }

    constructor ()
      ensures Valid() && ops == []
    {
      sendDataList := map[];
      ops := [];
    }

    ghost method Log(op: Op)
      modifies this`ops
      ensures ops == old(ops) + [op]
      ensures ListsAfter(ops) == Do(ListsAfter(old(ops)), op)
    {
      ops := ops + [op];
      assert ops[..|ops| - 1] == old(ops);
    }

    method SendTo(socket: int, buf: Buf) returns (ret: int)
      requires Valid()
      modifies this
      ensures Valid() && ops == old(ops) + [Send(socket, buf)] && ret == -1
      ensures socket > 0 ==> PendingOf(sendDataList, socket) == old(PendingOf(sendDataList, socket)) + [buf]
      ensures socket <= 0 ==> sendDataList == old(sendDataList)
      ensures forall c :: c != socket ==> PendingOf(sendDataList, c) == old(PendingOf(sendDataList, c))
    {
      if socket > 0 {
        ghost var m := sendDataList;
        if socket !in sendDataList {
          sendDataList := sendDataList[socket := []];
        }
        sendDataList := sendDataList[socket := sendDataList[socket] + [buf]];
        assert sendDataList == m[socket := PendingOf(m, socket) + [buf]];
      }
      Log(Send(socket, buf));
      ret := -1;
    }

    /** The queue part of the sender's loop. */
    method TakeNext(clientSocket: int) returns (data: Option<Buf>)
      requires Valid()
      modifies this
      ensures Valid() && ops == old(ops) + [Take(clientSocket)]
      ensures data == Taken(old(sendDataList), clientSocket)
      ensures data.None? <==> old(PendingOf(sendDataList, clientSocket)) == []
      ensures data.Some? ==>
                old(PendingOf(sendDataList, clientSocket)) == [data.value] + PendingOf(sendDataList, clientSocket)
      ensures data.None? ==> PendingOf(sendDataList, clientSocket) == []
      ensures forall c :: c != clientSocket ==> PendingOf(sendDataList, c) == old(PendingOf(sendDataList, c))
      ensures sendDataList == map[] <==> old(sendDataList) == map[]
      ensures LeftOf(ops, clientSocket)
              == old(LeftOf(ops, clientSocket)) + if data.Some? then [Left(data.value, true)] else []
    {
      data := None;
      if |sendDataList| > 0 {
        if clientSocket !in sendDataList {
          sendDataList := sendDataList[clientSocket := []];
        }
        var datalist := sendDataList[clientSocket];
        if |datalist| > 0 {
          data := Some(datalist[0]);
          sendDataList := sendDataList[clientSocket := datalist[1..]];
        }
      }
      Log(Take(clientSocket));
      assert ops[..|ops| - 1] == old(ops);
    }

    /** The listener on an error of a connection. */
    method EraseClient(clientSocket: int)
      requires Valid()
      modifies this
      ensures Valid() && ops == old(ops) + [Erase(clientSocket)]
      ensures sendDataList == old(sendDataList) - {clientSocket}
    {
      sendDataList := sendDataList - {clientSocket};
      Log(Erase(clientSocket));
    }
  }
}
