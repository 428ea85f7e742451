/** UTF-8, as Rust's `String::from_utf8` accepts it (the well-formed byte
    sequences of table 3-7 of the Unicode Standard) and as Rust writes a
    `String` out. Control lines arrive as bytes and are decoded here; replies
    are strings and leave as their encoding. */
module Utf8 {
  import opened Wrappers
  import opened Uint

  predicate IsContinuation(b: u8) {
    0x80 <= b <= 0xBF
  }

  /** The length of the well-formed sequence `bs` starts with, or 0 when it
      does not start with one. */
  function SequenceLength(bs: seq<u8>): (n: nat)
    ensures n <= 4 && n <= |bs|
    ensures |bs| > 0 && bs[0] < 0x80 ==> n == 1
  {
    if |bs| == 0 then 0
    else
      var b0 := bs[0];
      if b0 < 0x80 then 1
      else if 0xC2 <= b0 <= 0xDF then
        if |bs| >= 2 && IsContinuation(bs[1]) then 2 else 0
      else if 0xE0 <= b0 <= 0xEF then
        var lo := if b0 == 0xE0 then 0xA0 else 0x80;
        var hi := if b0 == 0xED then 0x9F else 0xBF;
        if |bs| >= 3 && lo <= bs[1] <= hi && IsContinuation(bs[2]) then 3 else 0
      else if 0xF0 <= b0 <= 0xF4 then
        var lo := if b0 == 0xF0 then 0x90 else 0x80;
        var hi := if b0 == 0xF4 then 0x8F else 0xBF;
        if |bs| >= 4 && lo <= bs[1] <= hi && IsContinuation(bs[2]) && IsContinuation(bs[3])
        then 4 else 0
      else 0
  }

  /** The character a well-formed sequence stands for. */
  function ScalarOf(bs: seq<u8>): (c: char)
    requires SequenceLength(bs) == |bs| > 0
  {
    var b0 := bs[0] as int;
    if |bs| == 1 then b0 as char
    else if |bs| == 2 then ((b0 - 0xC0) * 64 + (bs[1] as int - 0x80)) as char
    else if |bs| == 3 then
      ((b0 - 0xE0) * 4096 + (bs[1] as int - 0x80) * 64 + (bs[2] as int - 0x80)) as char
    else
      ((b0 - 0xF0) * 262144 + (bs[1] as int - 0x80) * 4096 + (bs[2] as int - 0x80) * 64
       + (bs[3] as int - 0x80)) as char
  }

  /** `String::from_utf8`: the decoded text, or `None` when the bytes are not
      well-formed UTF-8. */
  function Decode(bs: seq<u8>): (r: Option<string>)
    ensures r.Some? && (forall i :: 0 <= i < |bs| ==> bs[i] < 0x80) ==> |r.value| == |bs|
  {
    if |bs| == 0 then Some([])
    else
      var n := SequenceLength(bs);
      if n == 0 then None
      else match Decode(bs[n..])
        case None => None
        case Some(rest) => Some([ScalarOf(bs[..n])] + rest)
  }

  /** The encoding of one character: one to four bytes. */
  function EncodeChar(c: char): (bs: seq<u8>)
    ensures 1 <= |bs| <= 4
  {
    var x := c as int;
    if x < 0x80 then [x as u8]
    else if x < 0x800 then [(0xC0 + x / 64) as u8, (0x80 + x % 64) as u8]
    else if x < 0x1_0000 then
      [(0xE0 + x / 4096) as u8, (0x80 + (x / 64) % 64) as u8, (0x80 + x % 64) as u8]
    else
      [(0xF0 + x / 262144) as u8, (0x80 + (x / 4096) % 64) as u8,
       (0x80 + (x / 64) % 64) as u8, (0x80 + x % 64) as u8]
  }

  /** How Rust lays a `String` out in memory and on the wire. */
  function Encode(s: string): (bs: seq<u8>)
    ensures |bs| >= |s|
  {
    if |s| == 0 then [] else EncodeChar(s[0]) + Encode(s[1..])
  }

  /** The encoding of one character is a well-formed sequence that stands
      for that character. */
  lemma EncodeCharDecodes(c: char)
    ensures SequenceLength(EncodeChar(c)) == |EncodeChar(c)|
    ensures ScalarOf(EncodeChar(c)) == c
  {
    var x := c as int;
    if x < 0x80 {
    } else if x < 0x800 {
      EncodeTwo(c);
    } else if x < 0x1_0000 {
      EncodeThree(c);
    } else {
      EncodeFour(c);
    }
  }

  lemma EncodeTwo(c: char)
    requires 0x80 <= c as int < 0x800
    ensures SequenceLength(EncodeChar(c)) == |EncodeChar(c)| == 2
    ensures ScalarOf(EncodeChar(c)) == c
  {
    var x := c as int;
    var bs := EncodeChar(c);
    assert bs[0] as int == 0xC0 + x / 64 && bs[1] as int == 0x80 + x % 64;
    assert (x / 64) * 64 + x % 64 == x;
  }

  lemma EncodeThree(c: char)
    requires 0x800 <= c as int < 0x1_0000
    ensures SequenceLength(EncodeChar(c)) == |EncodeChar(c)| == 3
    ensures ScalarOf(EncodeChar(c)) == c
  {
    var x := c as int;
    var bs := EncodeChar(c);
    assert bs[0] as int == 0xE0 + x / 4096;
    assert bs[1] as int == 0x80 + (x / 64) % 64;
    assert bs[2] as int == 0x80 + x % 64;
    assert (x / 4096) * 64 + (x / 64) % 64 == x / 64;
    assert (x / 64) * 64 + x % 64 == x;
  }

  lemma EncodeFour(c: char)
    requires 0x1_0000 <= c as int
    ensures SequenceLength(EncodeChar(c)) == |EncodeChar(c)| == 4
    ensures ScalarOf(EncodeChar(c)) == c
  {
    var x := c as int;
    var bs := EncodeChar(c);
    assert bs[0] as int == 0xF0 + x / 262144;
    assert bs[1] as int == 0x80 + (x / 4096) % 64;
    assert bs[2] as int == 0x80 + (x / 64) % 64;
    assert bs[3] as int == 0x80 + x % 64;
    assert (x / 262144) * 64 + (x / 4096) % 64 == x / 4096;
    assert (x / 4096) * 64 + (x / 64) % 64 == x / 64;
    assert (x / 64) * 64 + x % 64 == x;
  }

  /** A well-formed sequence stays the first one when more bytes follow. */
  lemma SequenceLengthPrefix(bs: seq<u8>, more: seq<u8>)
    requires SequenceLength(bs) == |bs| > 0
    ensures SequenceLength(bs + more) == |bs|
    ensures (bs + more)[..|bs|] == bs
  {
    assert forall i :: 0 <= i < |bs| ==> (bs + more)[i] == bs[i];
  }

  /** Decoding undoes encoding: every string survives the trip to bytes and
      back. */
  lemma {:induction false} DecodeEncode(s: string)
    ensures Decode(Encode(s)) == Some(s)
  {
    if |s| > 0 {
      var head := EncodeChar(s[0]);
      var tail := Encode(s[1..]);
      EncodeCharDecodes(s[0]);
      SequenceLengthPrefix(head, tail);
      assert (head + tail)[|head|..] == tail;
      DecodeEncode(s[1..]);
      assert [s[0]] + s[1..] == s;
    }
  }

  /** Every well-formed sequence is the encoding of the character it
      stands for: there is no second, overlong spelling of a character. */
  lemma EncodeScalar(bs: seq<u8>)
    requires SequenceLength(bs) == |bs| > 0
    ensures EncodeChar(ScalarOf(bs)) == bs
  {
    if |bs| == 2 {
      EncodeScalarTwo(bs);
    } else if |bs| == 3 {
      EncodeScalarThree(bs);
    } else if |bs| == 4 {
      EncodeScalarFour(bs);
    }
  }

  /** Cutting `q * 64 + r` into six-bit digits gives back `q` and `r`. */
  lemma DivMod64(q: int, r: int)
    requires 0 <= q && 0 <= r < 64
    ensures (q * 64 + r) / 64 == q && (q * 64 + r) % 64 == r
  {
  }

  lemma EncodeScalarTwo(bs: seq<u8>)
    requires SequenceLength(bs) == |bs| == 2
    ensures EncodeChar(ScalarOf(bs)) == bs
  {
    var x := ScalarOf(bs) as int;
    var h, l := bs[0] as int - 0xC0, bs[1] as int - 0x80;
    assert x == h * 64 + l && 2 <= h < 32 && 0 <= l < 64;
    DivMod64(h, l);
    assert 0x80 <= x < 0x800;
  }

  lemma EncodeScalarThree(bs: seq<u8>)
    requires SequenceLength(bs) == |bs| == 3
    ensures EncodeChar(ScalarOf(bs)) == bs
  {
    var x := ScalarOf(bs) as int;
    var h, m, l := bs[0] as int - 0xE0, bs[1] as int - 0x80, bs[2] as int - 0x80;
    assert x == (h * 64 + m) * 64 + l && 0 <= h < 16 && 0 <= m < 64 && 0 <= l < 64;
    assert h == 0 ==> m >= 0x20;
    DivMod64(h * 64 + m, l);
    DivMod64(h, m);
    assert x / 4096 == h;
    assert 0x800 <= x < 0x1_0000;
  }

  lemma EncodeScalarFour(bs: seq<u8>)
    requires SequenceLength(bs) == |bs| == 4
    ensures EncodeChar(ScalarOf(bs)) == bs
  {
    var x := ScalarOf(bs) as int;
    var h, a, m, l := bs[0] as int - 0xF0, bs[1] as int - 0x80, bs[2] as int - 0x80, bs[3] as int - 0x80;
    assert x == ((h * 64 + a) * 64 + m) * 64 + l;
    assert 0 <= h < 5 && 0 <= a < 64 && 0 <= m < 64 && 0 <= l < 64;
    assert h == 0 ==> a >= 0x10;
    DivMod64((h * 64 + a) * 64 + m, l);
    DivMod64(h * 64 + a, m);
    DivMod64(h, a);
    assert x / 4096 == h * 64 + a;
    assert x / 262144 == h;
    assert 0x1_0000 <= x;
  }

  /** Encoding undoes decoding: bytes that decode are exactly the encoding
      of what they decode to, so overlong forms, surrogates and values past
      U+10FFFF never decode. */
  lemma {:induction false} EncodeDecode(bs: seq<u8>)
    ensures Decode(bs).Some? ==> Encode(Decode(bs).value) == bs
    decreases |bs|
  {
    if |bs| > 0 && Decode(bs).Some? {
      var n := SequenceLength(bs);
      var rest := Decode(bs[n..]).value;
      var c := ScalarOf(bs[..n]);
      var s := Decode(bs).value;
      assert s == [c] + rest;
      EncodeDecode(bs[n..]);
      EncodeScalar(bs[..n]);
      calc {
        Encode(s);
        EncodeChar(s[0]) + Encode(s[1..]);
        { assert s[0] == c && s[1..] == rest; }
        bs[..n] + bs[n..];
        { assert bs[..n] + bs[n..] == bs; }
        bs;
      }
    }
  }

  /** `String::from_utf8` accepts exactly the encodings of strings, and
      gives back the string encoded. */
  lemma DecodeExactlyEncodings(bs: seq<u8>, s: string)
    ensures Decode(bs) == Some(s) <==> bs == Encode(s)
  {
    EncodeDecode(bs);
    DecodeEncode(s);
  }

  /** Bytes below 0x80 decode one-to-one to the characters with the same
      numbers. */
  lemma {:induction false} DecodeAscii(bs: seq<u8>)
    requires forall i :: 0 <= i < |bs| ==> bs[i] < 0x80
    ensures Decode(bs).Some?
    ensures forall i :: 0 <= i < |bs| ==> Decode(bs).value[i] as int == bs[i] as int
  {
    if |bs| > 0 {
      DecodeAscii(bs[1..]);
      assert SequenceLength(bs) == 1;
      assert bs[..1] == [bs[0]];
    }
  }
}
