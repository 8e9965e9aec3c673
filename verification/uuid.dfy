/** The 16-byte UUID field and its `bytes_le` reading (`UUID.get`): the RFC 4122 field layout
    with the first three fields stored little-endian, as in the Microsoft GUID convention. */
module Uuid {
  import opened Bytes

  /** The raw 16 bytes of a UUID field as they appear on the wire. */
  type Raw16 = s: seq<byte> | |s| == 16 witness [0, 0, 0, 0, 0, 0, 0, 0, 0, 0, 0, 0, 0, 0, 0, 0]

  /** The value of a `uuid.UUID`: the four groups of section 4.1.2 of RFC 4122
      (time_low, time_mid, time_hi_and_version, then clock sequence and node as 8 bytes). */
  datatype Guid = Guid(timeLow: nat, timeMid: nat, timeHiVersion: nat, clockSeqNode: seq<byte>)

  predicate ValidGuid(g: Guid) {
    && g.timeLow < Pow256(4)
    && g.timeMid < Pow256(2)
    && g.timeHiVersion < Pow256(2)
    && |g.clockSeqNode| == 8
  }

  /** A `uuid.UUID` value: every group within its width. */
  type UuidValue = g: Guid | ValidGuid(g) witness Guid(0, 0, 0, [0, 0, 0, 0, 0, 0, 0, 0])

  /** The `bytes` attribute (network byte order) that `uuid.UUID(bytes_le=raw)` computes:
      byte groups 0-3, 4-5 and 6-7 reversed, bytes 8-15 kept. */
  function NetworkOrder(raw: Raw16): (n: Raw16)
    ensures forall i :: 0 <= i < 4 ==> n[i] == raw[3 - i]
    ensures forall i :: 4 <= i < 6 ==> n[i] == raw[9 - i]
    ensures forall i :: 6 <= i < 8 ==> n[i] == raw[13 - i]
    ensures n[8..] == raw[8..]
  {
    Reverse(raw[0..4]) + Reverse(raw[4..6]) + Reverse(raw[6..8]) + raw[8..16]
  }

  /** The UUID fields read from network-order bytes, big-endian, as `uuid.UUID` does. */
  function FromNetworkOrder(n: Raw16): (g: Guid)
    ensures ValidGuid(g)
  {
    Guid(BeValue(n[0..4]), BeValue(n[4..6]), BeValue(n[6..8]), n[8..16])
  }

  /** `UUID.get`: the `uuid.UUID` value of a raw field, `uuid.UUID(bytes_le=raw)`.
      The first three fields are the little-endian readings of their byte groups. */
  function Get(raw: Raw16): (g: Guid)
    ensures ValidGuid(g)
    ensures g.timeLow == LeValue(raw[0..4])
    ensures g.timeMid == LeValue(raw[4..6])
    ensures g.timeHiVersion == LeValue(raw[6..8])
    ensures g.clockSeqNode == raw[8..16]
  {
    var n := NetworkOrder(raw);
    assert n[0..4] == Reverse(raw[0..4]);
    assert n[4..6] == Reverse(raw[4..6]);
    assert n[6..8] == Reverse(raw[6..8]);
    BeValueIsReversedLe(Reverse(raw[0..4]));
    BeValueIsReversedLe(Reverse(raw[4..6]));
    BeValueIsReversedLe(Reverse(raw[6..8]));
    ReverseReverse(raw[0..4]);
    ReverseReverse(raw[4..6]);
    ReverseReverse(raw[6..8]);
    FromNetworkOrder(n)
  }

  /** The `bytes_le` encoding of a UUID value: the inverse of `Get`. */
  function BytesLe(g: Guid): (raw: Raw16)
    requires ValidGuid(g)
  {
    LeBytes(g.timeLow, 4) + LeBytes(g.timeMid, 2) + LeBytes(g.timeHiVersion, 2) + g.clockSeqNode
  }

  /** Encoding after decoding returns the original 16 bytes. */
  lemma {:induction false} BytesLeOfGet(raw: Raw16)
    ensures BytesLe(Get(raw)) == raw
  {
    var g := Get(raw);
    LeBytesOfValue(raw[0..4]);
    LeBytesOfValue(raw[4..6]);
    LeBytesOfValue(raw[6..8]);
    assert raw == raw[0..4] + raw[4..6] + raw[6..8] + raw[8..16];
  }

  /** Decoding after encoding returns the original value. */
  lemma {:induction false} GetOfBytesLe(g: Guid)
    requires ValidGuid(g)
    ensures Get(BytesLe(g)) == g
  {
    var raw := BytesLe(g);
    var p, q, t := LeBytes(g.timeLow, 4), LeBytes(g.timeMid, 2), LeBytes(g.timeHiVersion, 2);
    assert raw == p + q + t + g.clockSeqNode;
    assert raw[0..4] == p;
    assert raw[4..6] == q;
    assert raw[6..8] == t;
    assert raw[8..16] == g.clockSeqNode;
  }

  /** UUID equality is byte equality: two fields give the same `uuid.UUID` exactly when their bytes agree. */
  lemma {:induction false} GetInjective(a: Raw16, b: Raw16)
    ensures Get(a) == Get(b) <==> a == b
  {
    if Get(a) == Get(b) {
      BytesLeOfGet(a);
      BytesLeOfGet(b);
    }
  }

  function HexDigit(d: nat): (c: char)
    requires d < 16
  {
    if d < 10 then ('0' as int + d) as char else ('a' as int + d - 10) as char
  }

  /** Two lower-case hexadecimal digits of a byte, high nibble first. */
  function HexByte(x: byte): (s: string)
    ensures |s| == 2
  {
    [HexDigit(x / 16), HexDigit(x % 16)]
  }

  function HexBytes(b: seq<byte>): (s: string)
    ensures |s| == 2 * |b|
  {
    if |b| == 0 then "" else HexByte(b[0]) + HexBytes(b[1..])
  }

  /** The 16 bytes of a UUID value in network byte order (the `bytes` attribute). */
  function NetworkBytes(g: Guid): (n: Raw16)
    requires ValidGuid(g)
  {
    Reverse(LeBytes(g.timeLow, 4)) + Reverse(LeBytes(g.timeMid, 2))
      + Reverse(LeBytes(g.timeHiVersion, 2)) + g.clockSeqNode
  }

  /** The 8-4-4-4-12 lower-case hexadecimal form of 16 network-order bytes. */
  function Format(n: Raw16): (s: string)
    ensures |s| == 36
    ensures s[8] == '-' && s[13] == '-' && s[18] == '-' && s[23] == '-'
  {
    HexBytes(n[0..4]) + "-" + HexBytes(n[4..6]) + "-" + HexBytes(n[6..8]) + "-"
      + HexBytes(n[8..10]) + "-" + HexBytes(n[10..16])
  }

  lemma {:induction false} HexByteInjective(x: byte, y: byte)
    requires HexByte(x) == HexByte(y)
    ensures x == y
  {
    assert HexDigit(x / 16) == HexDigit(y / 16) && HexDigit(x % 16) == HexDigit(y % 16);
    assert x / 16 == y / 16 && x % 16 == y % 16;
  }

  /** Equal-length byte strings with the same hexadecimal text are equal. */
  lemma {:induction false} HexBytesInjective(a: seq<byte>, b: seq<byte>)
    requires |a| == |b| && HexBytes(a) == HexBytes(b)
    ensures a == b
    decreases |a|
  {
    if |a| > 0 {
      ConcatInjective(HexByte(a[0]), HexBytes(a[1..]), HexByte(b[0]), HexBytes(b[1..]));
      HexByteInjective(a[0], b[0]);
      HexBytesInjective(a[1..], b[1..]);
      ConsParts([a[0]], a[1..]);
      ConsParts([b[0]], b[1..]);
      assert a == [a[0]] + a[1..];
      assert b == [b[0]] + b[1..];
    }
  }

  /** The five groups of 16 bytes, back to back. */
  lemma {:induction false} GroupsCover(n: Raw16)
    ensures n == n[0..4] + n[4..6] + n[6..8] + n[8..10] + n[10..16]
  {
  }

  /** The text form determines the bytes: different network-order bytes print differently. */
  lemma {:induction false} FormatInjective(a: Raw16, b: Raw16)
    ensures Format(a) == Format(b) ==> a == b
  {
    if Format(a) == Format(b) {
      var a0, a1, a2, a3, a4 := HexBytes(a[0..4]), HexBytes(a[4..6]), HexBytes(a[6..8]), HexBytes(a[8..10]), HexBytes(a[10..16]);
      var b0, b1, b2, b3, b4 := HexBytes(b[0..4]), HexBytes(b[4..6]), HexBytes(b[6..8]), HexBytes(b[8..10]), HexBytes(b[10..16]);
      ConcatInjective(a0 + "-" + a1 + "-" + a2 + "-" + a3 + "-", a4, b0 + "-" + b1 + "-" + b2 + "-" + b3 + "-", b4);
      ConcatInjective(a0 + "-" + a1 + "-" + a2 + "-" + a3, "-", b0 + "-" + b1 + "-" + b2 + "-" + b3, "-");
      ConcatInjective(a0 + "-" + a1 + "-" + a2 + "-", a3, b0 + "-" + b1 + "-" + b2 + "-", b3);
      ConcatInjective(a0 + "-" + a1 + "-" + a2, "-", b0 + "-" + b1 + "-" + b2, "-");
      ConcatInjective(a0 + "-" + a1 + "-", a2, b0 + "-" + b1 + "-", b2);
      ConcatInjective(a0 + "-" + a1, "-", b0 + "-" + b1, "-");
      ConcatInjective(a0 + "-", a1, b0 + "-", b1);
      ConcatInjective(a0, "-", b0, "-");
      HexBytesInjective(a[0..4], b[0..4]);
      HexBytesInjective(a[4..6], b[4..6]);
      HexBytesInjective(a[6..8], b[6..8]);
      HexBytesInjective(a[8..10], b[8..10]);
      HexBytesInjective(a[10..16], b[10..16]);
      GroupsCover(a);
      GroupsCover(b);
    }
  }

  /** `str(uuid)`: the canonical form of a UUID value. */
  function CanonicalString(g: Guid): string
    requires ValidGuid(g)
  {
    Format(NetworkBytes(g))
  }

  /** Reading a raw field and taking its network order agrees with `NetworkOrder`. */
  lemma {:induction false} NetworkBytesOfGet(raw: Raw16)
    ensures NetworkBytes(Get(raw)) == NetworkOrder(raw)
  {
    BytesLeOfGet(raw);
    var g := Get(raw);
    assert LeBytes(g.timeLow, 4) == raw[0..4];
    assert LeBytes(g.timeMid, 2) == raw[4..6];
    assert LeBytes(g.timeHiVersion, 2) == raw[6..8];
  }

  /** The network order is a permutation of the 16 bytes, so it loses nothing. */
  lemma {:induction false} NetworkOrderInjective(a: Raw16, b: Raw16)
    requires NetworkOrder(a) == NetworkOrder(b)
    ensures a == b
  {
    var na, nb := NetworkOrder(a), NetworkOrder(b);
    forall i | 0 <= i < 16
      ensures a[i] == b[i]
    {
      if i < 4 { assert na[3 - i] == nb[3 - i]; }
      else if i < 6 { assert na[9 - i] == nb[9 - i]; }
      else if i < 8 { assert na[13 - i] == nb[13 - i]; }
      else { assert na[8..][i - 8] == nb[8..][i - 8]; }
    }
  }

  /** Two raw fields print the same `str(uuid)` exactly when their bytes are equal. */
  lemma {:induction false} CanonicalStringInjective(a: Raw16, b: Raw16)
    ensures CanonicalString(Get(a)) == CanonicalString(Get(b)) <==> a == b
  {
    if CanonicalString(Get(a)) == CanonicalString(Get(b)) {
      NetworkBytesOfGet(a);
      NetworkBytesOfGet(b);
      FormatInjective(NetworkOrder(a), NetworkOrder(b));
      NetworkOrderInjective(a, b);
    }
  }

  lemma {:induction false} KnownDigits()
    ensures HexByte(0x12) == "12" && HexByte(0x34) == "34"
    ensures HexByte(0x56) == "56" && HexByte(0x78) == "78"
  {
    assert HexDigit(1) == '1' && HexDigit(2) == '2' && HexDigit(3) == '3' && HexDigit(4) == '4';
    assert HexDigit(5) == '5' && HexDigit(6) == '6' && HexDigit(7) == '7' && HexDigit(8) == '8';
  }

  lemma {:induction false} KnownGroups()
    ensures HexBytes([0x12, 0x34]) == "1234"
    ensures HexBytes([0x56, 0x78]) == "5678"
  {
    KnownDigits();
    assert [0x12, 0x34][1..] == [0x34];
    assert [0x56, 0x78][1..] == [0x78];
  }

  lemma {:induction false} KnownNetworkOrder()
    ensures NetworkOrder([0x78, 0x56, 0x34, 0x12, 0x34, 0x12, 0x78, 0x56,
                          0x12, 0x34, 0x56, 0x78, 0x12, 0x34, 0x56, 0x78])
         == [0x12, 0x34, 0x56, 0x78, 0x12, 0x34, 0x56, 0x78,
             0x12, 0x34, 0x56, 0x78, 0x12, 0x34, 0x56, 0x78]
  {
  }

  lemma {:induction false} HexBytesAppend(a: seq<byte>, b: seq<byte>)
    ensures HexBytes(a + b) == HexBytes(a) + HexBytes(b)
  {
    if |a| == 0 {
      assert a + b == b;
    } else {
      assert (a + b)[1..] == a[1..] + b;
      HexBytesAppend(a[1..], b);
    }
  }

  lemma {:induction false} KnownLongGroups()
    ensures HexBytes([0x12, 0x34, 0x56, 0x78]) == "12345678"
    ensures HexBytes([0x56, 0x78, 0x12, 0x34, 0x56, 0x78]) == "567812345678"
  {
    KnownGroups();
    HexBytesAppend([0x12, 0x34], [0x56, 0x78]);
    assert [0x12, 0x34] + [0x56, 0x78] == [0x12, 0x34, 0x56, 0x78];
    HexBytesAppend([0x56, 0x78], [0x12, 0x34, 0x56, 0x78]);
    assert [0x56, 0x78] + [0x12, 0x34, 0x56, 0x78] == [0x56, 0x78, 0x12, 0x34, 0x56, 0x78];
  }

  lemma {:induction false} CanonicalStringOfRaw(raw: Raw16)
    ensures CanonicalString(Get(raw)) == Format(NetworkOrder(raw))
  {
    NetworkBytesOfGet(raw);
  }

  lemma {:induction false} KnownPrint(raw: Raw16)
    requires raw == [0x78, 0x56, 0x34, 0x12, 0x34, 0x12, 0x78, 0x56,
                     0x12, 0x34, 0x56, 0x78, 0x12, 0x34, 0x56, 0x78]
    ensures Format(NetworkOrder(raw)) == "12345678-1234-5678-1234-567812345678"
  {
    var n := NetworkOrder(raw);
    KnownNetworkOrder();
    KnownGroups();
    KnownLongGroups();
    KnownSlices(n);
    var h0, h1, h2, h3, h4 := HexBytes(n[0..4]), HexBytes(n[4..6]), HexBytes(n[6..8]), HexBytes(n[8..10]), HexBytes(n[10..16]);
    assert Format(n) == h0 + "-" + h1 + "-" + h2 + "-" + h3 + "-" + h4;
    KnownConcat(h0, h1, h2, h3, h4);
  }

  /** The five groups of the known network-order bytes. */
  lemma {:induction false} KnownSlices(n: seq<byte>)
    requires n == [0x12, 0x34, 0x56, 0x78, 0x12, 0x34, 0x56, 0x78,
                   0x12, 0x34, 0x56, 0x78, 0x12, 0x34, 0x56, 0x78]
    ensures n[0..4] == [0x12, 0x34, 0x56, 0x78]
    ensures n[4..6] == [0x12, 0x34] && n[8..10] == [0x12, 0x34]
    ensures n[6..8] == [0x56, 0x78]
    ensures n[10..16] == [0x56, 0x78, 0x12, 0x34, 0x56, 0x78]
  {
  }

  lemma {:induction false} KnownConcat(a: string, b: string, c: string, d: string, e: string)
    requires a == "12345678" && b == "1234" && c == "5678" && d == "1234" && e == "567812345678"
    ensures a + "-" + b + "-" + c + "-" + d + "-" + e == "12345678-1234-5678-1234-567812345678"
  {
  }

  /** The example of the Python `uuid` documentation: these `bytes_le` read as
      12345678-1234-5678-1234-567812345678. */
  lemma {:induction false} KnownBytesLe(raw: Raw16)
    requires raw == [0x78, 0x56, 0x34, 0x12, 0x34, 0x12, 0x78, 0x56,
                     0x12, 0x34, 0x56, 0x78, 0x12, 0x34, 0x56, 0x78]
    ensures CanonicalString(Get(raw)) == "12345678-1234-5678-1234-567812345678"
  {
    CanonicalStringOfRaw(raw);
    KnownPrint(raw);
  }
}
