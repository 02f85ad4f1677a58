/** The hex codec: a forward encoder and a decoder that scans backwards. Line numbers are
    those of utility/hexChar.c. */
module HexChar {
  import opened Bytes

  const TOHEX: seq<Byte> := [48, 49, 50, 51, 52, 53, 54, 55, 56, 57, 65, 66, 67, 68, 69, 70]

  /** A byte read through `char`, which is signed. */
  function AsChar(b: Byte): int {
    if b < 128 then b else b - 256
  }

  function LowerToSupper(ch: int): int {
    if 97 <= ch <= 122 then ch - 32 else ch
  }

  /** The two digits of each byte, high digit first. */
  function Encode(b: seq<Byte>): (h: seq<Byte>)
    ensures |h| == 2 * |b|
  {
    seq(2 * |b|, k requires 0 <= k < 2 * |b| => if k % 2 == 0 then TOHEX[b[k / 2] / 16] else TOHEX[b[k / 2] % 16])
  }

  /** What the decoder takes a digit for. */
  function Digit(h: Byte): int {
    if 65 <= LowerToSupper(AsChar(h)) <= 70 then h - 65 + 10 else h - 48
  }

  /** The byte the decoder makes of two digits, after the cast to unsigned char. */
  function Pair(hi: Byte, lo: Byte): Byte {
    (Digit(lo) + 16 * Digit(hi)) % 256
  }

  /** What the decoder makes of a text; of an odd one it ignores the first digit. */
  function Decode(h: seq<Byte>): (b: seq<Byte>)
    ensures |b| == |h| / 2
  {
    var odd := |h| % 2;
    seq(|h| / 2, j requires 0 <= j < |h| / 2 => Pair(h[odd + 2 * j], h[odd + 2 * j + 1]))
  }

  method CharToHex(pchOut: array<Byte>, pchIn: array<Byte>, nLen: int)
    requires pchOut != pchIn && nLen <= pchIn.Length && 2 * nLen <= pchOut.Length
    modifies pchOut
    ensures nLen >= 0 ==> pchOut[..2 * nLen] == Encode(pchIn[..nLen]) && pchOut[2 * nLen..] == old(pchOut[2 * nLen..])
    ensures nLen < 0 ==> pchOut[..] == old(pchOut[..])
  {
    var i, out := 0, 0;
    while i < nLen
      invariant 0 <= i && (i <= nLen || i == 0) && out == 2 * i
      invariant forall k :: 0 <= k < out ==>
                  pchOut[k] == if k % 2 == 0 then TOHEX[pchIn[k / 2] / 16] else TOHEX[pchIn[k / 2] % 16]
      invariant forall k :: out <= k < pchOut.Length ==> pchOut[k] == old(pchOut[k])
    {
      pchOut[out] := TOHEX[pchIn[i] / 16];
      out := out + 1;
      pchOut[out] := TOHEX[pchIn[i] % 16];
      out := out + 1;
      i := i + 1;
    }
  }

  /** The loop goes on until a store has taken `st` below zero, so for an even length its
      last pass reads the byte in front of the input, as `before` reports: `stray` is
      whatever is there. */
  method HexToChar(pchOut: array<Byte>, pchIn: array<Byte>, nInLen: int, stray: Byte) returns (before: bool)
    requires pchOut != pchIn && nInLen <= pchIn.Length && nInLen / 2 <= pchOut.Length
    modifies pchOut
    ensures nInLen >= 0 ==> pchOut[..nInLen / 2] == Decode(pchIn[..nInLen])
                            && pchOut[nInLen / 2..] == old(pchOut[nInLen / 2..])
    ensures nInLen < 0 ==> pchOut[..] == old(pchOut[..])
    ensures before <==> nInLen >= 2 && nInLen % 2 == 0
  {
    before := false;
    if nInLen < 0 {
      return;  // st starts below zero
    }
    var an, num, kk := 1, 0, 0;
    var q, st := nInLen - 1, nInLen / 2 - 1;
    ghost var h, odd, was := pchIn[..nInLen], nInLen % 2, pchOut[..];
    ghost var want := Decode(h);
    while st >= 0
      invariant -1 <= st < |want| && |h| == odd + 2 * |want| && 0 <= kk <= 2 && q == odd + 2 * st + 1 - kk
      invariant st >= 0 ==> Gathered(h, odd + 2 * st, kk, an, num)
      invariant FilledFrom(pchOut[..], was, want, st + 1)
      invariant before <==> q == -2
      invariant st == -1 ==> kk == if want == [] then 0 else 1
      decreases 2 * st + 3 - kk
    {
      if kk == 2 {
        GatheredPair(h, st, an, num);
        Store(pchOut, st, num, was, want);
        st := st - 1;
        num := 0;
        an := 1;
        kk := 0;
      }
      var ch;
      ch, before := Look(pchIn, q, stray);
      an, num := TakeDigit(ch, an, num, h, odd + 2 * st, kk);
      kk := kk + 1;
      q := q - 1;
    }
    FilledAll(pchOut[..], was, want);
  }

  /** Line 41: the cast to unsigned char. */
  method Store(pchOut: array<Byte>, st: nat, num: int, ghost was: seq<Byte>, ghost want: seq<Byte>)
    requires st < |want| && num % 256 == want[st] && FilledFrom(pchOut[..], was, want, st + 1)
    modifies pchOut
    ensures FilledFrom(pchOut[..], was, want, st)
  {
    ghost var now := pchOut[..];
    FillOne(now, was, want, st);
    pchOut[st] := num % 256;
    assert pchOut[..] == now[st := want[st]];
  }

  /** The byte at q, which may be in front of the input. */
  method Look(pchIn: array<Byte>, q: int, stray: Byte) returns (ch: Byte, before: bool)
    requires q < pchIn.Length
    ensures before <==> q < 0
    ensures ch == if q < 0 then stray else pchIn[q]
  {
    before := q < 0;
    ch := if before then stray else pchIn[q];
  }

  /** The output is filled backwards: done from k on, and unchanged elsewhere. */
  predicate FilledFrom(now: seq<Byte>, was: seq<Byte>, want: seq<Byte>, k: int) {
    && 0 <= k <= |want| <= |now| == |was|
    && (forall j :: 0 <= j < |now| ==> now[j] == if k <= j < |want| then want[j] else was[j])
  }

  lemma FillOne(now: seq<Byte>, was: seq<Byte>, want: seq<Byte>, k: int)
    requires 0 <= k && FilledFrom(now, was, want, k + 1)
    ensures FilledFrom(now[k := want[k]], was, want, k)
  {
  }

  lemma FilledAll(now: seq<Byte>, was: seq<Byte>, want: seq<Byte>)
    requires FilledFrom(now, was, want, 0)
    ensures now[..|want|] == want && now[|want|..] == was[|want|..]
  {
  }

  /** Lines 47-52: one digit more. The ghost arguments say where in the text it is. */
  method TakeDigit(ch: Byte, an: int, num: int, ghost h: seq<Byte>, ghost k: int, ghost kk: int)
    returns (an': int, num': int)
    requires 0 <= kk < 2
    ensures Gathered(h, k, kk, an, num) && ch == h[k + 1 - kk] ==> Gathered(h, k, kk + 1, an', num')
  {
    var tmp;
    if LowerToSupper(AsChar(ch)) >= 65 && LowerToSupper(AsChar(ch)) <= 70 {
      tmp := ch - 65 + 10;
    } else {
      tmp := ch - 48;
    }
    assert tmp == Digit(ch);
    num' := num + an * tmp;
    an' := an * 16;
  }

  /** What the decoder has gathered of the pair at k after kk digits. */
  predicate Gathered(h: seq<Byte>, k: int, kk: int, an: int, num: int) {
    && 0 <= k && k + 1 < |h|
    && (kk == 0 ==> an == 1 && num == 0)
    && (kk == 1 ==> an == 16 && num == Digit(h[k + 1]))
    && (kk == 2 ==> num == Digit(h[k + 1]) + 16 * Digit(h[k]))
  }

  lemma GatheredPair(h: seq<Byte>, j: nat, an: int, num: int)
    requires j < |h| / 2 && Gathered(h, |h| % 2 + 2 * j, 2, an, num)
    ensures num % 256 == Decode(h)[j]
  {
  }

  lemma DigitOfHex(v: int)
    requires 0 <= v < 16
    ensures Digit(TOHEX[v]) == v
  {
  }

  lemma DecodeAt(h: seq<Byte>, j: nat)
    requires |h| % 2 == 0 && j < |h| / 2
    ensures 2 * j + 1 < |h| && Decode(h)[j] == Pair(h[2 * j], h[2 * j + 1])
  {
  }

  lemma EncodeAt(b: seq<Byte>, j: nat)
    requires j < |b|
    ensures Encode(b)[2 * j] == TOHEX[b[j] / 16] && Encode(b)[2 * j + 1] == TOHEX[b[j] % 16]
  {
    assert (2 * j) / 2 == j && (2 * j) % 2 == 0 && (2 * j + 1) / 2 == j && (2 * j + 1) % 2 == 1;
  }

  lemma PairOfHex(b: Byte)
    ensures Pair(TOHEX[b / 16], TOHEX[b % 16]) == b
  {
    DigitOfHex(b / 16);
    DigitOfHex(b % 16);
  }

  lemma DecodeEncodeAt(b: seq<Byte>, j: nat)
    requires j < |b|
    ensures Decode(Encode(b))[j] == b[j]
  {
    EncodeAt(b, j);
    DecodeAt(Encode(b), j);
    PairOfHex(b[j]);
  }

  /** Decoding an encoded text gives the bytes back, whatever they are. */
  lemma DecodeEncode(b: seq<Byte>)
    ensures Decode(Encode(b)) == b
  {
    var d := Decode(Encode(b));
    forall j | 0 <= j < |b| ensures d[j] == b[j] {
      DecodeEncodeAt(b, j);
    }
  }

  predicate UpperHex(h: Byte) {
    48 <= h <= 57 || 65 <= h <= 70
  }

  lemma HexOfDigit(h: Byte)
    requires UpperHex(h)
    ensures 0 <= Digit(h) < 16 && TOHEX[Digit(h)] == h
  {
  }

  lemma EncodedIsUpper(b: seq<Byte>, k: nat)
    requires k < 2 * |b|
    ensures UpperHex(Encode(b)[k])
  {
  }

  lemma PairOfDigits(hi: Byte, lo: Byte)
    requires 0 <= Digit(hi) < 16 && 0 <= Digit(lo) < 16
    ensures Pair(hi, lo) / 16 == Digit(hi) && Pair(hi, lo) % 16 == Digit(lo)
  {
    DivideBy16(Digit(hi), Digit(lo));
  }

  lemma DivideBy16(a: int, b: int)
    requires 0 <= a < 16 && 0 <= b < 16
    ensures (b + 16 * a) % 256 == b + 16 * a && (b + 16 * a) / 16 == a && (b + 16 * a) % 16 == b
  {
  }

  lemma HexOfPair(hi: Byte, lo: Byte)
    requires UpperHex(hi) && UpperHex(lo)
    ensures TOHEX[Pair(hi, lo) / 16] == hi && TOHEX[Pair(hi, lo) % 16] == lo
  {
    HexOfDigit(hi);
    HexOfDigit(lo);
    PairOfDigits(hi, lo);
  }

  lemma EncodeDecodeAt(h: seq<Byte>, j: nat)
    requires |h| % 2 == 0 && j < |h| / 2 && UpperHex(h[2 * j]) && UpperHex(h[2 * j + 1])
    ensures Encode(Decode(h))[2 * j] == h[2 * j] && Encode(Decode(h))[2 * j + 1] == h[2 * j + 1]
  {
    DecodeAt(h, j);
    EncodeAt(Decode(h), j);
    HexOfPair(h[2 * j], h[2 * j + 1]);
  }

  predicate AllUpperHex(h: seq<Byte>) {
    forall k :: 0 <= k < |h| ==> UpperHex(h[k])
  }

  lemma EncodeDecodeUpper(h: seq<Byte>)
    requires |h| % 2 == 0 && AllUpperHex(h)
    ensures Encode(Decode(h)) == h
  {
    var e := Encode(Decode(h));
    assert |e| == |h|;
    forall k | 0 <= k < |h| ensures e[k] == h[k] {
      EncodeDecodeAt(h, k / 2);
      assert k == 2 * (k / 2) || k == 2 * (k / 2) + 1;
    }
  }

  /** Encoding a decoded text gives the text back exactly when it has an even number of
      digits and all of them are decimal or upper-case hex digits. */
  lemma EncodeDecodeExactly(h: seq<Byte>)
    ensures Encode(Decode(h)) == h <==> |h| % 2 == 0 && AllUpperHex(h)
  {
    if Encode(Decode(h)) == h {
      forall k | 0 <= k < |h| ensures UpperHex(h[k]) {
        EncodedIsUpper(Decode(h), k);
      }
    } else if |h| % 2 == 0 && AllUpperHex(h) {
      EncodeDecodeUpper(h);
    }
  }

  /** A to F in either case. */
  predicate Letter(h: Byte) {
    65 <= h <= 70 || 97 <= h <= 102
  }

  /** What the decoder makes of any two bytes, digits or not: each counts from the digit 0,
      seven less if it is one of the letters, and the result is taken modulo 256. Of an odd
      text the first byte is left out. */
  lemma DecodeEveryByte(h: seq<Byte>, j: nat)
    requires j < |h| / 2
    ensures var hi, lo := h[|h| % 2 + 2 * j] as int, h[|h| % 2 + 2 * j + 1] as int;
            var high, low := hi - 48 - (if Letter(hi) then 7 else 0), lo - 48 - (if Letter(lo) then 7 else 0);
            (16 * high + low - Decode(h)[j]) % 256 == 0
  {
    var hi, lo := h[|h| % 2 + 2 * j], h[|h| % 2 + 2 * j + 1];
    DigitOfAny(hi);
    DigitOfAny(lo);
    LeavesMultiple(Digit(lo) + 16 * Digit(hi));
  }

  lemma LeavesMultiple(v: int)
    ensures (v - v % 256) % 256 == 0
  {
    assert v - v % 256 == 256 * (v / 256);
  }

  lemma DigitOfAny(h: Byte)
    ensures Digit(h) == h as int - 48 - (if Letter(h) then 7 else 0)
  {
  }

  predicate LowerHex(h: Byte) {
    97 <= h <= 102
  }

  /** The value a reader would give a hex digit of either case. */
  function Meant(h: Byte): int
    requires UpperHex(h) || LowerHex(h)
  {
    if LowerHex(h) then h - 97 + 10 else if h <= 57 then h - 48 else h - 65 + 10
  }

  predicate PairAsMeant(h: seq<Byte>, j: nat)
    requires 2 * j + 1 < |h| && forall k :: 0 <= k < |h| ==> UpperHex(h[k]) || LowerHex(h[k])
  {
    Pair(h[2 * j], h[2 * j + 1]) == 16 * Meant(h[2 * j]) + Meant(h[2 * j + 1])
  }

  predicate LowDigitLower(h: seq<Byte>, j: nat)
    requires 2 * j + 1 < |h|
  {
    LowerHex(h[2 * j + 1])
  }

  /** The decoder converts the case only for its test, not for the value. A lower-case
      digit so counts 32 too much, which the cast to a byte hides in the high digit of a
      pair and only there: a text is decoded as meant exactly when no low digit of a
      pair is in lower case. */
  lemma DecodeMixedCaseExactly(h: seq<Byte>)
    requires |h| % 2 == 0 && forall k :: 0 <= k < |h| ==> UpperHex(h[k]) || LowerHex(h[k])
    ensures forall j :: 0 <= j < |h| / 2 ==> Decode(h)[j] == Pair(h[2 * j], h[2 * j + 1])
    ensures (forall j :: 0 <= j < |h| / 2 ==> PairAsMeant(h, j))
            <==> forall j :: 0 <= j < |h| / 2 ==> !LowDigitLower(h, j)
  {
    forall j | 0 <= j < |h| / 2
      ensures Decode(h)[j] == Pair(h[2 * j], h[2 * j + 1]) && (PairAsMeant(h, j) <==> !LowDigitLower(h, j))
    {
      DecodeAt(h, j);
      PairMixedCase(h[2 * j], h[2 * j + 1]);
    }
  }

  lemma PairMixedCase(hi: Byte, lo: Byte)
    requires UpperHex(hi) || LowerHex(hi)
    requires UpperHex(lo) || LowerHex(lo)
    ensures Pair(hi, lo) == 16 * Meant(hi) + Meant(lo) <==> !LowerHex(lo)
  {
    var want := 16 * Meant(hi) + Meant(lo);
    assert Digit(hi) == Meant(hi) + if LowerHex(hi) then 32 else 0;
    assert Digit(lo) == Meant(lo) + if LowerHex(lo) then 32 else 0;
    assert Digit(lo) + 16 * Digit(hi) == want + (if LowerHex(lo) then 32 else 0) + (if LowerHex(hi) then 512 else 0);
    assert 0 <= want < 256;
  }
}
