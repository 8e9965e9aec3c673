/** UTF-8 as defined by section 4 of RFC 3629 (the well-formed byte sequences), which is what
    Python's strict 'utf-8' codec accepts. Used to model the decode/encode round trip that the
    unknown-version reply goes through. */
module Utf8 {
  import opened Bytes
  import opened Wrappers

  predicate IsTail(x: byte) {
    0x80 <= x <= 0xBF
  }

  /** Length of the well-formed sequence at the front of `b` (UTF8-1 .. UTF8-4 of RFC 3629),
      or 0 when the front of `b` is not well formed. */
  function SequenceLength(b: seq<byte>): (n: nat)
    requires |b| > 0
    ensures n <= 4 && n <= |b|
  {
    var b0 := b[0];
    if b0 <= 0x7F then 1
    else if 0xC2 <= b0 <= 0xDF then
      (if |b| >= 2 && IsTail(b[1]) then 2 else 0)
    else if b0 == 0xE0 then
      (if |b| >= 3 && 0xA0 <= b[1] <= 0xBF && IsTail(b[2]) then 3 else 0)
    else if (0xE1 <= b0 <= 0xEC) || (0xEE <= b0 <= 0xEF) then
      (if |b| >= 3 && IsTail(b[1]) && IsTail(b[2]) then 3 else 0)
    else if b0 == 0xED then
      (if |b| >= 3 && 0x80 <= b[1] <= 0x9F && IsTail(b[2]) then 3 else 0)
    else if b0 == 0xF0 then
      (if |b| >= 4 && 0x90 <= b[1] <= 0xBF && IsTail(b[2]) && IsTail(b[3]) then 4 else 0)
    else if 0xF1 <= b0 <= 0xF3 then
      (if |b| >= 4 && IsTail(b[1]) && IsTail(b[2]) && IsTail(b[3]) then 4 else 0)
    else if b0 == 0xF4 then
      (if |b| >= 4 && 0x80 <= b[1] <= 0x8F && IsTail(b[2]) && IsTail(b[3]) then 4 else 0)
    else 0
  }

  /** The scalar value carried by the well-formed sequence of length `n` at the front of `b`. */
  function ScalarValue(b: seq<byte>, n: nat): (v: nat)
    requires |b| > 0 && n == SequenceLength(b) && n > 0
    ensures v <= 0x10_FFFF && !(0xD800 <= v <= 0xDFFF)
  {
    if n == 1 then b[0]
    else if n == 2 then Scalar2(b[0], b[1])
    else if n == 3 then Scalar3(b[0], b[1], b[2])
    else Scalar4(b[0], b[1], b[2], b[3])
  }

  function Scalar2(b0: int, b1: int): int {
    (b0 - 0xC0) * 64 + (b1 - 0x80)
  }

  function Scalar3(b0: int, b1: int, b2: int): int {
    (b0 - 0xE0) * 4096 + (b1 - 0x80) * 64 + (b2 - 0x80)
  }

  function Scalar4(b0: int, b1: int, b2: int, b3: int): int {
    (b0 - 0xF0) * 262144 + (b1 - 0x80) * 4096 + (b2 - 0x80) * 64 + (b3 - 0x80)
  }

  /** `b.decode('utf-8')`: `None` where Python raises UnicodeDecodeError. */
  function Decode(b: seq<byte>): (r: Option<string>)
    decreases |b|
  {
    if |b| == 0 then Some("")
    else
      var n := SequenceLength(b);
      if n == 0 then None
      else
        match Decode(b[n..])
        case None => None
        case Some(t) => Some([ScalarValue(b, n) as char] + t)
  }

  /** An ASCII byte in front decodes on its own: the rest decides whether the whole decodes. */
  lemma {:induction false} DecodeAsciiHead(b: seq<byte>)
    requires |b| > 0 && b[0] <= 0x7F
    ensures Decode(b).None? <==> Decode(b[1..]).None?
  {
    assert SequenceLength(b) == 1;
  }

  /** Single-byte (ASCII) characters in front of a malformed buffer leave it malformed. */
  lemma {:induction false} AsciiPrefixKeepsMalformed(p: seq<byte>, rest: seq<byte>)
    requires forall i :: 0 <= i < |p| ==> p[i] <= 0x7F
    requires Decode(rest).None?
    ensures Decode(p + rest).None?
    decreases |p|
  {
    if |p| > 0 {
      AsciiPrefixKeepsMalformed(p[1..], rest);
      ConsParts(p, rest);
      DecodeAsciiHead(p + rest);
    } else {
      assert p + rest == rest;
    }
  }

  /** The shortest UTF-8 form of one scalar value. */
  function EncodeChar(c: char): (b: seq<byte>)
    ensures 1 <= |b| <= 4
  {
    var v := c as int;
    if v < 0x80 then [v]
    else if v < 0x800 then [0xC0 + v / 64, 0x80 + v % 64]
    else if v < 0x1_0000 then [0xE0 + v / 4096, 0x80 + (v / 64) % 64, 0x80 + v % 64]
    else [0xF0 + v / 262144, 0x80 + (v / 4096) % 64, 0x80 + (v / 64) % 64, 0x80 + v % 64]
  }

  /** `s.encode('utf-8')`. */
  function Encode(s: string): (b: seq<byte>)
    ensures |b| >= |s|
  {
    if |s| == 0 then [] else EncodeChar(s[0]) + Encode(s[1..])
  }

  lemma {:induction false} Digits2(b0: int, b1: int)
    requires 0xC2 <= b0 <= 0xDF && 0x80 <= b1 <= 0xBF
    ensures Scalar2(b0, b1) / 64 == b0 - 0xC0 && Scalar2(b0, b1) % 64 == b1 - 0x80
  {
  }

  lemma {:induction false} Digits3(b0: int, b1: int, b2: int)
    requires 0xE0 <= b0 <= 0xEF && 0x80 <= b1 <= 0xBF && 0x80 <= b2 <= 0xBF
    ensures Scalar3(b0, b1, b2) / 4096 == b0 - 0xE0
    ensures (Scalar3(b0, b1, b2) / 64) % 64 == b1 - 0x80
    ensures Scalar3(b0, b1, b2) % 64 == b2 - 0x80
  {
    var v := Scalar3(b0, b1, b2);
    assert v / 64 == (b0 - 0xE0) * 64 + (b1 - 0x80);
  }

  lemma {:induction false} Digits4(b0: int, b1: int, b2: int, b3: int)
    requires 0xF0 <= b0 <= 0xF4 && 0x80 <= b1 <= 0xBF && 0x80 <= b2 <= 0xBF && 0x80 <= b3 <= 0xBF
    ensures Scalar4(b0, b1, b2, b3) / 262144 == b0 - 0xF0
    ensures (Scalar4(b0, b1, b2, b3) / 4096) % 64 == b1 - 0x80
    ensures (Scalar4(b0, b1, b2, b3) / 64) % 64 == b2 - 0x80
    ensures Scalar4(b0, b1, b2, b3) % 64 == b3 - 0x80
  {
    var v := Scalar4(b0, b1, b2, b3);
    assert v / 64 == (b0 - 0xF0) * 4096 + (b1 - 0x80) * 64 + (b2 - 0x80);
    assert v / 4096 == (b0 - 0xF0) * 64 + (b1 - 0x80);
  }

  lemma {:induction false} EncodeScalar2(b: seq<byte>)
    requires |b| > 0 && SequenceLength(b) == 2
    ensures EncodeChar(ScalarValue(b, 2) as char) == b[..2]
  {
    var v := ScalarValue(b, 2);
    assert 0x80 <= v < 0x800;
    Digits2(b[0], b[1]);
  }

  lemma {:induction false} EncodeScalar3(b: seq<byte>)
    requires |b| > 0 && SequenceLength(b) == 3
    ensures EncodeChar(ScalarValue(b, 3) as char) == b[..3]
  {
    var v := ScalarValue(b, 3);
    assert 0x800 <= v < 0x1_0000;
    Digits3(b[0], b[1], b[2]);
  }

  lemma {:induction false} EncodeScalar4(b: seq<byte>)
    requires |b| > 0 && SequenceLength(b) == 4
    ensures EncodeChar(ScalarValue(b, 4) as char) == b[..4]
  {
    var v := ScalarValue(b, 4);
    assert 0x1_0000 <= v;
    Digits4(b[0], b[1], b[2], b[3]);
  }

  /** The shortest form of the scalar a well-formed sequence carries is that sequence. */
  lemma {:induction false} EncodeScalar(b: seq<byte>)
    requires |b| > 0 && SequenceLength(b) > 0
    ensures EncodeChar(ScalarValue(b, SequenceLength(b)) as char) == b[..SequenceLength(b)]
  {
    var n := SequenceLength(b);
    if n == 2 {
      EncodeScalar2(b);
    } else if n == 3 {
      EncodeScalar3(b);
    } else if n == 4 {
      EncodeScalar4(b);
    }
  }

  /** The digits `EncodeChar` splits a scalar value into put it back together. */
  lemma {:induction false} Recombine(v: nat)
    ensures v == (v / 64) * 64 + v % 64
    ensures v == (v / 4096) * 4096 + ((v / 64) % 64) * 64 + v % 64
    ensures v == (v / 262144) * 262144 + ((v / 4096) % 64) * 4096 + ((v / 64) % 64) * 64 + v % 64
  {
    var q := v / 64;
    var q2 := q / 64;
    assert v == 64 * q + v % 64;
    assert q == 64 * q2 + q % 64;
    assert v == 4096 * q2 + (q % 64) * 64 + v % 64;
    assert v / 4096 == q2;
    var q3 := q2 / 64;
    assert q2 == 64 * q3 + q2 % 64;
    assert v == 262144 * q3 + (q2 % 64) * 4096 + (q % 64) * 64 + v % 64;
    assert v / 262144 == q3;
    assert (v / 4096) % 64 == q2 % 64;
  }

  /** The encoding of one character, in front of any bytes, is read back as one well-formed
      sequence carrying that character. */
  lemma {:induction false} DecodeEncodeChar(c: char, rest: seq<byte>)
    ensures var b := EncodeChar(c) + rest;
            && SequenceLength(b) == |EncodeChar(c)|
            && ScalarValue(b, |EncodeChar(c)|) == c as int
            && b[|EncodeChar(c)|..] == rest
  {
    var v := c as int;
    var e := EncodeChar(c);
    var b := e + rest;
    Recombine(v);
    assert b[..|e|] == e && b[|e|..] == rest;
    if v < 0x80 {
    } else if v < 0x800 {
      assert b[0] == 0xC0 + v / 64 && b[1] == 0x80 + v % 64;
    } else if v < 0x1_0000 {
      assert b[0] == 0xE0 + v / 4096 && b[1] == 0x80 + (v / 64) % 64 && b[2] == 0x80 + v % 64;
      assert b[0] == 0xE0 ==> b[1] >= 0xA0;
      assert b[0] == 0xED ==> b[1] <= 0x9F;
    } else {
      assert b[0] == 0xF0 + v / 262144 && b[1] == 0x80 + (v / 4096) % 64;
      assert b[2] == 0x80 + (v / 64) % 64 && b[3] == 0x80 + v % 64;
      assert b[0] == 0xF0 ==> b[1] >= 0x90;
      assert b[0] == 0xF4 ==> b[1] <= 0x8F;
    }
  }

  /** Encoding any text and decoding it gives the text back. */
  lemma {:induction false} DecodeEncode(s: string)
    ensures Decode(Encode(s)) == Some(s)
  {
    if |s| > 0 {
      var e := EncodeChar(s[0]);
      var b := Encode(s);
      DecodeEncode(s[1..]);
      DecodeEncodeChar(s[0], Encode(s[1..]));
      assert b == e + Encode(s[1..]);
      assert [s[0]] + s[1..] == s;
    }
  }

  /** Decoding and re-encoding is the identity on every buffer that decodes. */
  lemma {:induction false} EncodeDecode(b: seq<byte>)
    requires Decode(b).Some?
    ensures Encode(Decode(b).value) == b
    decreases |b|
  {
    if |b| > 0 {
      var n := SequenceLength(b);
      var s := Decode(b).value;
      EncodeDecode(b[n..]);
      EncodeScalar(b);
      assert s[1..] == Decode(b[n..]).value;
      SplitAt(b, n);
    }
  }
}
