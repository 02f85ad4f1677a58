/** Bytes, 32-bit words and the native (little-endian) word layout used on the wire. */
module Bytes {

  type Byte = x: int | 0 <= x < 256

  const TWO32: int := 0x1_0000_0000

  type U32 = x: int | 0 <= x < TWO32

  datatype Option<+T> = None | Some(value: T)

  /** The four bytes `memcpy` stores for an unsigned int. */
  function WordBytes(n: U32): (b: seq<Byte>)
    ensures |b| == 4
  {
    [n % 256, n / 0x100 % 256, n / 0x1_0000 % 256, n / 0x100_0000]
  }

  /** The unsigned int `memcpy` loads from four bytes. */
  function WordOf(b: seq<Byte>): U32
    requires |b| == 4
  {
    b[0] as int + 0x100 * b[1] as int + 0x1_0000 * b[2] as int + 0x100_0000 * b[3] as int
  }

  /** The word n stands at an offset of a buffer, lowest byte first. */
  predicate WordAt(b: seq<Byte>, off: nat, n: int) {
    off + 4 <= |b| &&
    b[off] as int + 0x100 * b[off + 1] as int + 0x1_0000 * b[off + 2] as int + 0x100_0000 * b[off + 3] as int == n
  }

  /** Storing: each byte counts 256 times the one before it. */
  lemma WordSpelled(n: U32)
    ensures var b := WordBytes(n);
            b[0] as int + 0x100 * b[1] as int + 0x1_0000 * b[2] as int + 0x100_0000 * b[3] as int == n
  {
    WordRoundTrip(n);
  }

  /** Loading: the first byte is the lowest, and the others make the rest of the word. */
  lemma WordShift(b: seq<Byte>)
    requires |b| == 4
    ensures WordOf(b) % 0x100 == b[0] && WordOf(b) / 0x100 == WordOf(b[1..] + [0])
  {
    SplitByte(WordOf(b), b[0], WordOf(b[1..] + [0]));
  }

  /** A word stands where it is loaded from, and where it was stored. */
  lemma WordStands(b: seq<Byte>, off: nat, n: int)
    requires off + 4 <= |b|
    ensures WordAt(b, off, n) <==> WordOf(b[off..off + 4]) == n
    ensures 0 <= n < TWO32 ==> (WordAt(b, off, n) <==> b[off..off + 4] == WordBytes(n))
  {
    var w := b[off..off + 4];
    BytesRoundTrip(w);
    if 0 <= n < TWO32 {
      WordRoundTrip(n);
    }
  }

  lemma WordRoundTrip(n: U32)
    ensures WordOf(WordBytes(n)) == n
  {
    var h := n / 0x100;
    assert n == 0x100 * h + n % 256;
    assert n / 0x1_0000 == h / 0x100 && n / 0x100_0000 == h / 0x1_0000;
    assert h == 0x100 * (h / 0x100) + h % 256;
  }

  lemma BytesRoundTrip(b: seq<Byte>)
    requires |b| == 4
    ensures WordBytes(WordOf(b)) == b
  {
    var b0: int, b1: int, b2: int, b3: int := b[0], b[1], b[2], b[3];
    var n := WordOf(b);
    var g := b2 + 0x100 * b3;
    var h := b1 + 0x100 * g;
    SplitByte(n, b0, h);
    SplitByte(h, b1, g);
    SplitByte(g, b2, b3);
    assert n / 0x1_0000 == h / 0x100 && n / 0x100_0000 == g / 0x100;
  }

  lemma SplitByte(n: int, low: int, high: int)
    requires 0 <= low < 256 && 0 <= high && n == low + 0x100 * high
    ensures n % 256 == low && n / 0x100 == high
  {
  }

  /** The word read from the first four bytes of `s` continued by `after`. */
  function Peek(s: seq<Byte>, after: seq<Byte>): U32
    requires |s| + |after| >= 4
  {
    WordOf((s + after)[..4])
  }

  const ZEROS: seq<Byte> := [0, 0, 0, 0]

  /** It is the word that stands there. */
  lemma PeekStands(s: seq<Byte>, after: seq<Byte>)
    requires |s| + |after| >= 4
    ensures WordAt(s + after, 0, Peek(s, after))
  {
    WordStands(s + after, 0, Peek(s, after));
  }

  /** From four bytes on, what follows in memory does not matter. */
  lemma PeekWhole(s: seq<Byte>, t: seq<Byte>, u: seq<Byte>)
    requires |s| >= 4
    ensures Peek(s, u) == Peek(s + t, u) == WordOf(s[..4])
  {
    assert (s + u)[..4] == s[..4] == (s + t + u)[..4];
  }

  /** A word read with some high bytes replaced by zeros is the same word exactly
      when those bytes are zero. */
  lemma PeekShort(s: seq<Byte>, t: seq<Byte>, u: seq<Byte>)
    requires 1 <= |s| < 4 && |u| >= 4
    requires forall k :: 0 <= k < |u| ==> u[k] == 0
    ensures Peek(s, u) <= Peek(s + t, u)
    ensures Peek(s, u) == Peek(s + t, u) <==> forall k :: 0 <= k < |t| && k + |s| < 4 ==> t[k] == 0
  {
    var a, b := (s + u)[..4], (s + t + u)[..4];
    assert forall k :: 0 <= k < |s| ==> a[k] == b[k] == s[k];
    assert forall k :: |s| <= k < 4 ==> a[k] == 0;
    assert forall k :: |s| <= k < 4 ==> b[k] == if k - |s| < |t| then t[k - |s|] else 0;
    if forall k :: 0 <= k < |t| && k + |s| < 4 ==> t[k] == 0 {
      assert a == b;
    } else {
      var k :| 0 <= k < |t| && k + |s| < 4 && t[k] != 0;
      assert b[k + |s|] > 0;
    }
  }

  /** Reading an int: the same 32 bits as a two's complement value, which is the only one
      in its range that is equal modulo 2^32. */
  function Signed(n: U32): (i: int)
    ensures -0x8000_0000 <= i < 0x8000_0000 && (n - i) % TWO32 == 0
    ensures i == 0 <==> n == 0
    ensures i == 1 <==> n == 1
  {
    if n < 0x8000_0000 then n else n - TWO32
  }

  /** The bytes of a list of buffers laid end to end. */
  function Flat(bs: seq<seq<Byte>>): seq<Byte> {
    if bs == [] then [] else bs[0] + Flat(bs[1..])
  }

  lemma FlatCons(b: seq<Byte>, bs: seq<seq<Byte>>)
    ensures Flat([b] + bs) == b + Flat(bs)
  {
    assert ([b] + bs)[1..] == bs;
  }

  lemma {:induction false} FlatAppend(a: seq<seq<Byte>>, b: seq<seq<Byte>>)
    ensures Flat(a + b) == Flat(a) + Flat(b)
  {
    if a == [] {
      assert a + b == b;
    } else {
      assert (a + b)[1..] == a[1..] + b;
      FlatAppend(a[1..], b);
    }
  }

  lemma FlatSnoc(bs: seq<seq<Byte>>, b: seq<Byte>)
    ensures Flat(bs + [b]) == Flat(bs) + b
  {
    FlatAppend(bs, [b]);
    FlatCons(b, []);
    assert [b] + [] == [b];
  }
}
