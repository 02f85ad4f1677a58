/** `taskController::onTaskProcessor`: one frame in, at most one buffer to send out. */
module Dispatch {
  import opened Bytes
  import opened Streams
  import opened Protocol
  import opened SendQueue

  function Repeat(b: Byte, n: nat): seq<Byte> {
    seq(n, _ => b)
  }

  const PAYLOAD := 1024

  /** The reply of a command: 1024 times the letter A or B. */
  function PayloadOf(cmd: U32): (p: seq<Byte>)
    ensures |p| == PAYLOAD
  {
    Repeat(if cmd == EAC_API1 then 65 else 66, PAYLOAD)
  }

  /** What a frame makes the server send: nothing if it is too short to be a request, an
      empty buffer if its command is unknown. */
  function ReplyTo(frame: seq<Byte>): Option<Buf> {
    var r := ParseRequest(frame);
    if r.None? then None
    else if r.value.cmd == 0 then Some(ResponseBytes(r.value.id, EAC_API1, PayloadOf(EAC_API1)))
    else if r.value.cmd == 1 then Some(ResponseBytes(r.value.id, EAC_API2, PayloadOf(EAC_API2)))
    else Some([])
  }

  /** A response with the id of a frame, one command and 1024 times one letter. */
  predicate RespondsWith(frame: seq<Byte>, r: Buf, cmd: int, letter: Byte)
    requires |frame| >= 16
  {
    && |r| == 1044 && WordAt(r, 0, 1044) && r[4..8] == frame[4..8] && WordAt(r, 8, cmd) && WordAt(r, 12, 0)
    && WordAt(r, 16, 1024) && forall i :: 20 <= i < 1044 ==> r[i] == letter
  }

  /** What is sent for a frame long enough to be a request, by the bytes of its command alone. */
  predicate Fits(frame: seq<Byte>, r: Buf)
    requires |frame| >= 16
  {
    if WordAt(frame, 8, 0) then RespondsWith(frame, r, 0, 'A' as int)
    else if WordAt(frame, 8, 1) then RespondsWith(frame, r, 1, 'B' as int)
    else r == []
  }

  /** The reply to any frame: none if it is shorter than 16 bytes; else the one its command
      word asks for, an empty one if that is neither 0 nor 1, whatever its two length words
      say. */
  lemma ReplyToFrame(frame: seq<Byte>)
    ensures ReplyTo(frame).Some? <==> |frame| >= 16
    ensures |frame| >= 16 ==> Fits(frame, ReplyTo(frame).value)
  {
    RequestParsed(frame);
    if |frame| >= 16 {
      var r := ParseRequest(frame).value;
      if r.cmd == 0 || r.cmd == 1 {
        ResponseStands(frame, r.id, r.cmd);
      }
    }
  }

  lemma ResponseStands(frame: seq<Byte>, id: U32, cmd: U32)
    requires |frame| >= 16 && WordAt(frame, 4, id) && cmd <= 1
    ensures RespondsWith(frame, ResponseBytes(id, cmd, PayloadOf(cmd)), cmd,
                         if cmd == 0 then 'A' as int else 'B' as int)
  {
    var r := ResponseBytes(id, cmd, PayloadOf(cmd));
    ResponseFields(id, cmd, PayloadOf(cmd));
    WordStands(frame, 4, id);
    WordStands(r, 4, id);
    assert forall i :: 20 <= i < 1044 ==> r[i] == r[20..][i - 20];
  }

  /** What `onTaskProcessor` does with the send lists: nothing for a short frame, else one
      call of `send` for the client, with the buffer that fits the frame. */
  method OnTaskProcessor(p: Protocol, socket: SocketBase, task: Queued)
    requires socket.Valid()
    modifies socket
    ensures socket.Valid()
    ensures |task.frame| < 16 ==> socket.ops == old(socket.ops)
    ensures |task.frame| >= 16 ==>
              exists r :: socket.ops == old(socket.ops) + [Send(task.client, r)] && Fits(task.frame, r)
    ensures var r := ReplyTo(task.frame);
            socket.ops == old(socket.ops) + if r.Some? then [Send(task.client, r.value)] else []
  {
    ReplyToFrame(task.frame);
    var ret, msgId, cmd, cmdData, cmdDataLen := ParseRequestInto(Some(task.frame));
    if ret == -1 {
      return;
    }
    var resp: Buf := [];
    var overrun := false;
    if cmd == 0 {
      var data := new Byte[PAYLOAD](_ => 65);
      assert data[..] == PayloadOf(EAC_API1);
      ret, resp, overrun := p.MakeAPIResponse(msgId, EAC_API1, data[..]);
      assert ret == 0 && !overrun;  // so the error response is never made
    } else if cmd == 1 {
      var data := new Byte[PAYLOAD](_ => 66);
      assert data[..] == PayloadOf(EAC_API2);
      ret, resp, overrun := p.MakeAPIResponse(msgId, EAC_API2, data[..]);
      assert ret == 0 && !overrun;  // so the error response is never made
    }
    var sent := socket.SendTo(task.client, resp);
  }

  /** Every request with a known command is answered by the response to its own id and
      command, whatever its data. */
  lemma ReplyToRequest(id: U32, cmd: U32, data: seq<Byte>)
    requires 16 + |data| < TWO32 && (cmd == EAC_API1 || cmd == EAC_API2)
    ensures ReplyTo(RequestBytes(id, cmd, data)) == Some(ResponseBytes(id, cmd, PayloadOf(cmd)))
    ensures ParseResponse(ResponseBytes(id, cmd, PayloadOf(cmd))) == Accepted(Reply(id, cmd, 1024, PayloadOf(cmd)))
    ensures |PayloadOf(cmd)| == 1024
    ensures forall i :: 0 <= i < 1024 ==> PayloadOf(cmd)[i] == if cmd == 0 then 'A' as int else 'B' as int
  {
    RequestRoundTrip(id, cmd, data);
    ResponseRoundTrip(id, cmd, PayloadOf(cmd), 0);
  }
}
