/** UTF-16 little-endian text, as Python's strict 'utf-16le' codec reads and writes it:
    the machine name is decoded with it and the EPID encoded with it. */
module Utf16 {
  import opened Bytes
  import opened Wrappers

  /** The 16-bit code unit stored little-endian at `b[i]`, `b[i+1]`. */
  function UnitAt(b: seq<byte>, i: nat): (u: nat)
    requires i + 2 <= |b|
    ensures u < 0x1_0000
  {
    b[i] as int + 256 * b[i + 1] as int
  }

  predicate IsSurrogate(u: nat) {
    0xD800 <= u <= 0xDFFF
  }

  predicate IsHighSurrogate(u: nat) {
    0xD800 <= u <= 0xDBFF
  }

  predicate IsLowSurrogate(u: nat) {
    0xDC00 <= u <= 0xDFFF
  }

  /** One character: a single code unit below U+10000, otherwise a high/low surrogate pair. */
  function EncodeChar(c: char): (b: seq<byte>)
    ensures |b| == (if c as int < 0x1_0000 then 2 else 4)
    ensures c as int < 0x1_0000 ==> b[0] as int + 256 * b[1] as int == c as int
    ensures c as int >= 0x1_0000 ==>
              && IsHighSurrogate(b[0] as int + 256 * b[1] as int)
              && IsLowSurrogate(b[2] as int + 256 * b[3] as int)
              && 0x1_0000 + (b[0] as int + 256 * b[1] as int - 0xD800) * 1024
                          + (b[2] as int + 256 * b[3] as int - 0xDC00) == c as int
  {
    var v := c as int;
    if v < 0x1_0000 then
      [v % 256, v / 256]
    else
      var w := v - 0x1_0000;
      var hi := 0xD800 + w / 1024;
      var lo := 0xDC00 + w % 1024;
      [hi % 256, hi / 256, lo % 256, lo / 256]
  }

  /** `s.encode('utf-16le')`: no byte-order mark, no terminator. */
  function Encode(s: string): (b: seq<byte>)
    ensures |b| % 2 == 0
    ensures |b| >= 2 * |s|
  {
    if |s| == 0 then [] else EncodeChar(s[0]) + Encode(s[1..])
  }

  /** Each ASCII character becomes its code followed by a zero byte. */
  lemma {:induction false} KnownAscii()
    ensures Encode("AC-") == [0x41, 0, 0x43, 0, 0x2D, 0]
  {
    assert "AC-"[1..] == "C-" && "C-"[1..] == "-" && "-"[1..] == "";
  }

  /** `b.decode('utf-16le')` with strict error handling: `None` where Python raises
      UnicodeDecodeError (an odd trailing byte, or a surrogate that is not part of a pair). */
  function Decode(b: seq<byte>): (r: Option<string>)
    decreases |b|
  {
    if |b| == 0 then Some("")
    else if |b| < 2 then None
    else
      var u := UnitAt(b, 0);
      if !IsSurrogate(u) then
        match Decode(b[2..])
        case None => None
        case Some(t) => Some([u as char] + t)
      else if IsHighSurrogate(u) && |b| >= 4 && IsLowSurrogate(UnitAt(b, 2)) then
        var c := 0x1_0000 + (u - 0xD800) * 1024 + (UnitAt(b, 2) - 0xDC00);
        match Decode(b[4..])
        case None => None
        case Some(t) => Some([c as char] + t)
      else None
  }

  lemma {:induction false} DecodeEncodeChar(c: char, rest: seq<byte>)
    ensures Decode(EncodeChar(c) + rest) == (match Decode(rest) case None => None case Some(t) => Some([c] + t))
  {
    var b := EncodeChar(c) + rest;
    var v := c as int;
    if v < 0x1_0000 {
      assert b[2..] == rest;
      assert UnitAt(b, 0) == v;
    } else {
      var w := v - 0x1_0000;
      assert b[4..] == rest;
      assert UnitAt(b, 0) == 0xD800 + w / 1024;
      assert UnitAt(b, 2) == 0xDC00 + w % 1024;
    }
  }

  /** Decoding an encoding gives back the text. */
  lemma {:induction false} DecodeEncode(s: string)
    ensures Decode(Encode(s)) == Some(s)
  {
    if |s| > 0 {
      DecodeEncode(s[1..]);
      DecodeEncodeChar(s[0], Encode(s[1..]));
      assert [s[0]] + s[1..] == s;
    }
  }

  lemma {:induction false} EncodeSingleUnit(b: seq<byte>)
    requires |b| >= 2 && !IsSurrogate(UnitAt(b, 0))
    ensures EncodeChar(UnitAt(b, 0) as char) == b[..2]
  {
  }

  lemma {:induction false} EncodeSurrogatePair(b: seq<byte>)
    requires |b| >= 4 && IsHighSurrogate(UnitAt(b, 0)) && IsLowSurrogate(UnitAt(b, 2))
    ensures 0x1_0000 + (UnitAt(b, 0) - 0xD800) * 1024 + (UnitAt(b, 2) - 0xDC00) <= 0x10_FFFF
    ensures EncodeChar((0x1_0000 + (UnitAt(b, 0) - 0xD800) * 1024 + (UnitAt(b, 2) - 0xDC00)) as char) == b[..4]
  {
    var hi, lo := UnitAt(b, 0), UnitAt(b, 2);
    var w := (hi - 0xD800) * 1024 + (lo - 0xDC00);
    assert w / 1024 == hi - 0xD800;
    assert w % 1024 == lo - 0xDC00;
  }

  /** Decoding succeeds on exactly the byte strings that some text encodes to. */
  lemma {:induction false} DecodableIffEncoded(b: seq<byte>)
    ensures Decode(b).Some? <==> exists t: string :: Encode(t) == b
  {
    if Decode(b).Some? {
      EncodeDecode(b);
    }
    if exists t: string :: Encode(t) == b {
      var t: string :| Encode(t) == b;
      DecodeEncode(t);
    }
  }

  /** A successful decode is undone by encoding: text and bytes correspond one to one. */
  lemma {:induction false} EncodeDecode(b: seq<byte>)
    requires Decode(b).Some?
    ensures Encode(Decode(b).value) == b
    decreases |b|
  {
    if |b| > 0 {
      var u := UnitAt(b, 0);
      var s := Decode(b).value;
      if !IsSurrogate(u) {
        EncodeDecode(b[2..]);
        EncodeSingleUnit(b);
        assert s == [u as char] + Decode(b[2..]).value;
        assert s[1..] == Decode(b[2..]).value;
        assert b == b[..2] + b[2..];
      } else {
        EncodeDecode(b[4..]);
        EncodeSurrogatePair(b);
        assert s[1..] == Decode(b[4..]).value;
        assert b == b[..4] + b[4..];
      }
    }
  }
}
