/** The wire protocol: the encoders write words at fixed offsets into a sized buffer, the
    parsers read them back. */
module Protocol {
  import opened Bytes
  import opened Frames

  const EAC_API1: U32 := 0
  const EAC_API2: U32 := 1

  /** [totalLen][msgId][command][dataLen][data] */
  function RequestBytes(id: U32, cmd: U32, data: seq<Byte>): (b: seq<Byte>)
    requires 16 + |data| < TWO32
    ensures |b| == 16 + |data|
  {
    WordBytes(16 + |data|) + WordBytes(id) + WordBytes(cmd) + WordBytes(|data|) + data
  }

  /** [totalLen][msgId][command][0][dataLen][data] */
  function ResponseBytes(id: U32, cmd: U32, data: seq<Byte>): (b: seq<Byte>)
    requires 20 + |data| < TWO32
    ensures |b| == 20 + |data|
  {
    WordBytes(20 + |data|) + WordBytes(id) + WordBytes(cmd) + WordBytes(0) + WordBytes(|data|) + data
  }

  /** [totalLen][msgId][command][error] */
  function ErrorBytes(id: U32, cmd: U32, err: U32): (b: seq<Byte>)
    ensures |b| == 16
  {
    WordBytes(16) + WordBytes(id) + WordBytes(cmd) + WordBytes(err)
  }

  function Field(b: seq<Byte>, k: nat): U32
    requires 4 * k + 4 <= |b|
  {
    WordOf(b[4 * k..4 * k + 4])
  }

  /** `data` is what `cmdData` points to, up to the end of the buffer; `dataLen` is what the
      message says about it, which the parsers do not check. */
  datatype Request = Request(id: U32, cmd: int, dataLen: U32, data: seq<Byte>)

  function ParseRequest(b: seq<Byte>): Option<Request> {
    if |b| < 16 then None
    else Some(Request(Field(b, 1), Signed(Field(b, 2)), Field(b, 3), b[16..]))
  }

  datatype Response =
    | Reply(id: U32, cmd: int, dataLen: U32, data: seq<Byte>)
    | Failure(id: U32, cmd: int, result: int)

  datatype Parsed =
    | Rejected
    | OverRead    // result 0 in a message too short for the length word that follows it
    | Accepted(r: Response)

  function ParseResponse(b: seq<Byte>): Parsed {
    if |b| < 16 then Rejected
    else
      var result := Signed(Field(b, 3));
      if result != 0 then Accepted(Failure(Field(b, 1), Signed(Field(b, 2)), result))
      else if |b| < 20 then OverRead
      else Accepted(Reply(Field(b, 1), Signed(Field(b, 2)), Field(b, 4), b[20..]))
  }

  lemma FieldStands(b: seq<Byte>, k: nat)
    requires 4 * k + 4 <= |b|
    ensures WordAt(b, 4 * k, Field(b, k))
  {
    WordStands(b, 4 * k, Field(b, k));
  }

  // ----- Encoding and parsing -----

  /** An int at an offset: the value of its range that is the word there modulo 2^32. */
  predicate IntAt(b: seq<Byte>, off: nat, i: int) {
    -0x8000_0000 <= i < 0x8000_0000 && WordAt(b, off, if i < 0 then i + TWO32 else i)
  }

  lemma IntStands(b: seq<Byte>, k: nat)
    requires 4 * k + 4 <= |b|
    ensures IntAt(b, 4 * k, Signed(Field(b, k)))
  {
    var n, i := Field(b, k), Signed(Field(b, k));
    FieldStands(b, k);
    var q := (n - i) / TWO32;
    assert n - i == TWO32 * q && 0 <= q <= 1;
  }

  /** What the request parser makes of any buffer, whatever its length words say. */
  lemma RequestParsed(b: seq<Byte>)
    ensures ParseRequest(b).Some? <==> |b| >= 16
    ensures |b| >= 16 ==>
              var r := ParseRequest(b).value;
              WordAt(b, 4, r.id) && IntAt(b, 8, r.cmd) && WordAt(b, 12, r.dataLen) && r.data == b[16..]
  {
    if |b| >= 16 {
      FieldStands(b, 1);
      IntStands(b, 2);
      FieldStands(b, 3);
    }
  }

  /** What the response parser makes of any buffer. */
  lemma ResponseParsed(b: seq<Byte>)
    ensures ParseResponse(b).Rejected? <==> |b| < 16
    ensures ParseResponse(b).OverRead? <==> 16 <= |b| < 20 && WordAt(b, 12, 0)
    ensures |b| >= 20 && WordAt(b, 12, 0) ==>
              var p := ParseResponse(b);
              p.Accepted? && p.r.Reply? && WordAt(b, 4, p.r.id) && IntAt(b, 8, p.r.cmd) && WordAt(b, 16, p.r.dataLen)
              && p.r.data == b[20..]
    ensures |b| >= 16 && !WordAt(b, 12, 0) ==>
              var p := ParseResponse(b);
              p.Accepted? && p.r.Failure? && WordAt(b, 4, p.r.id) && IntAt(b, 8, p.r.cmd) && IntAt(b, 12, p.r.result)
  {
    if |b| >= 16 {
      FieldStands(b, 1);
      IntStands(b, 2);
      FieldStands(b, 3);
      IntStands(b, 3);
      if |b| >= 20 {
        FieldStands(b, 4);
      }
    }
  }

  /** A reply that was cut off still parses to the id, the command and the length of the
      whole one, with what has come of its data. */
  lemma ReplyCutOff(id: U32, cmd: U32, data: seq<Byte>, n: nat)
    requires 20 + |data| < TWO32 && n <= 20 + |data|
    ensures var p := ParseResponse(ResponseBytes(id, cmd, data)[..n]);
            if n < 16 then p == Rejected
            else if n < 20 then p == OverRead
            else p == Accepted(Reply(id, Signed(cmd), |data|, data[..n - 20]))
  {
    var b := ResponseBytes(id, cmd, data);
    ResponseFields(id, cmd, data);
    assert b[20..] == data;
    if n >= 20 {
      assert b[..n][20..] == data[..n - 20];
      assert forall k :: 0 <= k <= 4 ==> b[..n][4 * k..4 * k + 4] == b[4 * k..4 * k + 4];
      assert Field(b[..n], 1) == Field(b, 1) && Field(b[..n], 2) == Field(b, 2);
      assert Field(b[..n], 3) == Field(b, 3) && Field(b[..n], 4) == Field(b, 4);
    } else if n >= 16 {
      assert b[..n][12..16] == b[12..16];
      assert Field(b[..n], 3) == Field(b, 3);
    }
  }

  /** What stands where in a request. */
  lemma RequestFields(id: U32, cmd: U32, data: seq<Byte>)
    requires 16 + |data| < TWO32
    ensures var b := RequestBytes(id, cmd, data);
            |b| == 16 + |data| && WordAt(b, 0, |b|) && WordAt(b, 4, id) && WordAt(b, 8, cmd) && WordAt(b, 12, |data|)
    ensures var b := RequestBytes(id, cmd, data);
            && Field(b, 0) == |b| && Field(b, 1) == id && Field(b, 2) == cmd && Field(b, 3) == |data|
            && b[16..] == data && SelfSized(b)
  {
    var b := RequestBytes(id, cmd, data);
    assert b[0..4] == b[..4] == WordBytes(|b|) && b[4..8] == WordBytes(id);
    assert b[8..12] == WordBytes(cmd) && b[12..16] == WordBytes(|data|);
    FieldStands(b, 0);
    FieldStands(b, 1);
    FieldStands(b, 2);
    FieldStands(b, 3);
    WordRoundTrip(|b|);
    WordRoundTrip(id);
    WordRoundTrip(cmd);
    WordRoundTrip(|data|);
  }

  lemma ResponseFields(id: U32, cmd: U32, data: seq<Byte>)
    requires 20 + |data| < TWO32
    ensures var b := ResponseBytes(id, cmd, data);
            && |b| == 20 + |data| && WordAt(b, 0, |b|) && WordAt(b, 4, id) && WordAt(b, 8, cmd) && WordAt(b, 12, 0)
            && WordAt(b, 16, |data|)
    ensures var b := ResponseBytes(id, cmd, data);
            && Field(b, 0) == |b| && Field(b, 1) == id && Field(b, 2) == cmd && Field(b, 3) == 0
            && Field(b, 4) == |data| && b[20..] == data && SelfSized(b)
  {
    var b := ResponseBytes(id, cmd, data);
    assert b[0..4] == b[..4] == WordBytes(|b|) && b[4..8] == WordBytes(id);
    assert b[8..12] == WordBytes(cmd) && b[12..16] == WordBytes(0) && b[16..20] == WordBytes(|data|);
    FieldStands(b, 0);
    FieldStands(b, 1);
    FieldStands(b, 2);
    FieldStands(b, 3);
    FieldStands(b, 4);
    WordRoundTrip(|b|);
    WordRoundTrip(id);
    WordRoundTrip(cmd);
    WordRoundTrip(|data|);
    WordRoundTrip(0);
  }

  lemma ErrorFields(id: U32, cmd: U32, err: U32)
    ensures var b := ErrorBytes(id, cmd, err);
            |b| == 16 && WordAt(b, 0, 16) && WordAt(b, 4, id) && WordAt(b, 8, cmd) && WordAt(b, 12, err)
    ensures var b := ErrorBytes(id, cmd, err);
            && Field(b, 0) == |b| && Field(b, 1) == id && Field(b, 2) == cmd && Field(b, 3) == err && SelfSized(b)
  {
    var b := ErrorBytes(id, cmd, err);
    assert b[0..4] == b[..4] == WordBytes(16) && b[4..8] == WordBytes(id);
    assert b[8..12] == WordBytes(cmd) && b[12..16] == WordBytes(err);
    FieldStands(b, 0);
    FieldStands(b, 1);
    FieldStands(b, 2);
    FieldStands(b, 3);
    WordRoundTrip(16);
    WordRoundTrip(id);
    WordRoundTrip(cmd);
    WordRoundTrip(err);
  }

  /** A request parses back to what it was made of. */
  lemma RequestRoundTrip(id: U32, cmd: U32, data: seq<Byte>)
    requires 16 + |data| < TWO32
    ensures ParseRequest(RequestBytes(id, cmd, data)) == Some(Request(id, Signed(cmd), |data|, data))
  {
    RequestFields(id, cmd, data);
  }

  /** Both kinds of response parse back to what they were made of. An error response
      comes back as one exactly when its error is not 0. */
  lemma ResponseRoundTrip(id: U32, cmd: U32, data: seq<Byte>, err: U32)
    requires 20 + |data| < TWO32
    ensures ParseResponse(ResponseBytes(id, cmd, data)) == Accepted(Reply(id, Signed(cmd), |data|, data))
    ensures ParseResponse(ErrorBytes(id, cmd, err))
            == if err == 0 then OverRead else Accepted(Failure(id, Signed(cmd), Signed(err)))
  {
    ResponseFields(id, cmd, data);
    ErrorFields(id, cmd, err);
  }

  lemma Rebuild(b: seq<Byte>)
    requires 16 < |b| < TWO32 && Field(b, 0) == |b| && Field(b, 3) == |b| - 16
    ensures b == RequestBytes(Field(b, 1), Field(b, 2), b[16..])
  {
    BytesRoundTrip(b[0..4]);
    BytesRoundTrip(b[4..8]);
    BytesRoundTrip(b[8..12]);
    BytesRoundTrip(b[12..16]);
    assert b == b[0..4] + b[4..8] + b[8..12] + b[12..16] + b[16..];
  }

  /** The encoder's image, exactly: a buffer is a request that `makeAPIRequest` can make if
      and only if its two length words are true and it carries data; and then what the
      parser returns determines it. */
  lemma RequestImage(b: seq<Byte>)
    requires |b| < TWO32
    ensures (exists id, cmd, data: seq<Byte> :: 0 < |data| < TWO32 - 16 && b == RequestBytes(id, cmd, data))
            <==> |b| > 16 && Field(b, 0) == |b| && Field(b, 3) == |b| - 16
  {
    if |b| > 16 && Field(b, 0) == |b| && Field(b, 3) == |b| - 16 {
      Rebuild(b);
    } else if exists id, cmd, data: seq<Byte> :: 0 < |data| < TWO32 - 16 && b == RequestBytes(id, cmd, data) {
      var id, cmd, data: seq<Byte> :| 0 < |data| < TWO32 - 16 && b == RequestBytes(id, cmd, data);
      RequestFields(id, cmd, data);
    }
  }

  /** Different requests are different on the wire. */
  lemma RequestInjective(id: U32, cmd: U32, data: seq<Byte>, id': U32, cmd': U32, data': seq<Byte>)
    requires 16 + |data| < TWO32 && 16 + |data'| < TWO32
    ensures RequestBytes(id, cmd, data) == RequestBytes(id', cmd', data') <==> id == id' && cmd == cmd' && data == data'
  {
    RequestFields(id, cmd, data);
    RequestFields(id', cmd', data');
  }

  // ----- The encoders, writing in place -----

  method PutWord(b: array<Byte>, off: nat, n: U32)
    requires off + 4 <= b.Length
    modifies b
    ensures b[..off + 4] == old(b[..off]) + WordBytes(n)
  {
    var w := WordBytes(n);
    b[off] := w[0];
    b[off + 1] := w[1];
    b[off + 2] := w[2];
    b[off + 3] := w[3];
  }

  method PutData(b: array<Byte>, off: nat, data: seq<Byte>)
    requires off + |data| == b.Length
    modifies b
    ensures b[..] == old(b[..off]) + data
  {
    forall i | 0 <= i < |data| {
      b[off + i] := data[i];
    }
  }

  /** What a pointer and an unsigned int can pass. */
  type Sized = s: seq<Byte> | |s| < TWO32

  /** The singleton with its message counter. */
  class Protocol {
    var msgId: U32

    constructor ()
      ensures msgId == 0
    {
      msgId := 0;
    }

    /** `buf` is None for a null pointer; `request` is the caller's string. The total is an
        unsigned int, and where it wraps the string gets too small for what is written to it:
        `overrun` says so, before anything is. */
    method MakeAPIRequest(cmd: U32, buf: Option<Sized>, request: seq<Byte>)
      returns (ret: int, made: seq<Byte>, overrun: bool)
      modifies this
      ensures overrun <==> buf.Some? && 16 + |buf.value| >= TWO32
      ensures !overrun ==> ret == if buf.None? || buf.value == [] then -1 else 0
      ensures overrun || ret == -1 ==> made == request && msgId == old(msgId)
      ensures !overrun && ret == 0 ==>
                msgId == (old(msgId) + 1) % TWO32 && made == RequestBytes(msgId, cmd, buf.value)
    {
      if buf.None? || |buf.value| == 0 {
        return -1, request, false;
      }
      var total := (16 + |buf.value|) % TWO32;
      if total < 16 + |buf.value| {
        return 0, request, true;
      }
      assert total == 16 + |buf.value|;
      var b := new Byte[total];
      PutWord(b, 0, total);
      msgId := (msgId + 1) % TWO32;
      PutWord(b, 4, msgId);
      PutWord(b, 8, cmd);
      PutWord(b, 12, |buf.value|);
      PutData(b, 16, buf.value);
      return 0, b[..], false;
    }

    method MakeAPIResponse(id: U32, cmd: U32, data: Sized) returns (ret: int, resp: seq<Byte>, overrun: bool)
      ensures ret == 0 && (overrun <==> 20 + |data| >= TWO32)
      ensures !overrun ==> resp == ResponseBytes(id, cmd, data)
    {
      var total := (20 + |data|) % TWO32;
      if total < 20 + |data| {
        return 0, [], true;
      }
      assert total == 20 + |data|;
      var b := new Byte[total];
      PutWord(b, 0, total);
      PutWord(b, 4, id);
      PutWord(b, 8, cmd);
      PutWord(b, 12, 0);
      PutWord(b, 16, |data|);
      PutData(b, 20, data);
      return 0, b[..], false;
    }

    method MakeErrResponse(id: U32, cmd: U32, err: U32) returns (ret: int, resp: seq<Byte>)
      ensures ret == 0 && resp == ErrorBytes(id, cmd, err)
    {
      var b := new Byte[16];
      PutWord(b, 0, 16);
      PutWord(b, 4, id);
      PutWord(b, 8, cmd);
      PutWord(b, 12, err);
      return 0, b[..];
    }
  }

  /** The word at a byte offset of a message. */
  method GetWord(b: seq<Byte>, off: nat) returns (n: U32)
    requires off % 4 == 0 && off + 4 <= |b|
    ensures n == Field(b, off / 4)
  {
    assert 4 * (off / 4) == off;
    n := WordOf(b[off..off + 4]);
  }

  /** `reqbuf` is None for a null pointer. The data pointer is an offset into the message.
      The length words of the message are not checked. */
  method ParseRequestInto(reqbuf: Option<seq<Byte>>)
    returns (ret: int, msgId: U32, cmd: int, cmdData: nat, cmdDataLen: U32)
    ensures ret == if reqbuf.Some? && |reqbuf.value| >= 16 then 0 else -1
    ensures ret == 0 ==>
              var b := reqbuf.value;
              WordAt(b, 4, msgId) && IntAt(b, 8, cmd) && WordAt(b, 12, cmdDataLen) && cmdData == 16
    ensures ret == 0 ==> ParseRequest(reqbuf.value) == Some(Request(msgId, cmd, cmdDataLen, reqbuf.value[cmdData..]))
  {
    ret, msgId, cmd, cmdData, cmdDataLen := -1, 0, 0, 0, 0;
    if reqbuf.None? || |reqbuf.value| < 16 {
      return;
    }
    var b := reqbuf.value;
    msgId := GetWord(b, 4);
    var word := GetWord(b, 8);
    cmd := Signed(word);
    cmdDataLen := GetWord(b, 12);
    cmdData := 16;
    ret := 0;
    RequestParsed(b);
  }

  /** `behind` is the memory behind the message, which is read for a message of less than 20
      bytes with result 0. A null data pointer comes back as None. */
  method ParseResponseInto(respbuf: Option<seq<Byte>>, behind: seq<Byte>)
    returns (ret: int, msgId: U32, cmd: int, result: int, cmdData: Option<nat>, cmdDataLen: U32)
    requires |behind| == 4
    ensures ret == if respbuf.Some? && |respbuf.value| >= 16 then 0 else -1
    ensures ret == 0 ==>
              var b := respbuf.value + behind;
              && WordAt(b, 4, msgId) && IntAt(b, 8, cmd) && IntAt(b, 12, result)
              && (result == 0 ==> WordAt(b, 16, cmdDataLen) && cmdData == Some(20))
    ensures ret == 0 ==> (cmdData.Some? <==> result == 0)
    ensures ret == 0 && cmdData.None? ==> cmdDataLen == 0
    ensures ret == 0 && cmdData.None? ==> ParseResponse(respbuf.value) == Accepted(Failure(msgId, cmd, result))
    ensures ret == 0 && cmdData.Some? && cmdData.value <= |respbuf.value| ==>
              ParseResponse(respbuf.value) == Accepted(Reply(msgId, cmd, cmdDataLen, respbuf.value[cmdData.value..]))
    ensures ret == 0 && cmdData.Some? && cmdData.value > |respbuf.value| ==>
              && ParseResponse(respbuf.value).OverRead?
              && msgId == Field(respbuf.value, 1) && cmd == Signed(Field(respbuf.value, 2))
              && cmdData.value == 20 && cmdDataLen == Field(respbuf.value + behind, 4)
  {
    ret, msgId, cmd, result, cmdData, cmdDataLen := -1, 0, 0, 0, None, 0;
    if respbuf.None? || |respbuf.value| < 16 {
      return;
    }
    var b := respbuf.value;
    msgId := GetWord(b, 4);
    var word := GetWord(b, 8);
    cmd := Signed(word);
    word := GetWord(b, 12);
    result := Signed(word);
    if result == 0 {
      cmdDataLen := GetWord(b + behind, 16);
      assert |b| >= 20 ==> (b + behind)[16..20] == b[16..20];
      cmdData := Some(20);
    }
    ret := 0;
    MessageStands(b, behind);
  }

  /** The words of a message are the same with the memory behind it. */
  lemma MessageStands(b: seq<Byte>, behind: seq<Byte>)
    requires |b| >= 16 && |behind| == 4
    ensures var m := b + behind;
            && WordAt(m, 4, Field(b, 1)) && IntAt(m, 8, Signed(Field(b, 2))) && IntAt(m, 12, Signed(Field(b, 3)))
            && WordAt(m, 16, Field(m, 4))
  {
    var m := b + behind;
    assert m[4..8] == b[4..8] && m[8..12] == b[8..12] && m[12..16] == b[12..16];
    FieldStands(m, 1);
    IntStands(m, 2);
    IntStands(m, 3);
    FieldStands(m, 4);
  }

  /** Ids drawn one after another repeat only after 2^32 requests. */
  lemma IdsRepeat(id: U32, m: nat, n: nat)
    requires m < n
    ensures (id + m) % TWO32 == (id + n) % TWO32 <==> (n - m) % TWO32 == 0
  {
    var a, b := id + m, id + n;
    assert a == TWO32 * (a / TWO32) + a % TWO32 && b == TWO32 * (b / TWO32) + b % TWO32;
    if a % TWO32 == b % TWO32 {
      assert n - m == TWO32 * (b / TWO32 - a / TWO32);
    }
  }
}
