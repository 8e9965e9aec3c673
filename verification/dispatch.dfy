/** `generateKmsResponseData` and the handler for unknown protocol versions. */
module Dispatch {
  import opened Wrappers
  import opened Bytes
  import opened Codec
  import opened Messages
  import Tables
  import Utf8
  import Server

  /** The request handlers; V4, V5 and V6 are separate classes, not part of this model. */
  datatype Handler = V4 | V5 | V6 | Unknown

  /** Version dispatch: every major version has exactly one handler. */
  function HandlerFor(versionMajor: int): (h: Handler)
    ensures h == V4 <==> versionMajor == 4
    ensures h == V5 <==> versionMajor == 5
    ensures h == V6 <==> versionMajor == 6
    ensures h == Unknown <==> versionMajor != 4 && versionMajor != 5 && versionMajor != 6
  {
    if versionMajor == 4 then V4
    else if versionMajor == 5 then V5
    else if versionMajor == 6 then V6
    else Unknown
  }

  /** The bytes the unknown-version handler assembles: two little-endian u32 zeros, then the
      error code `SL_E_VL_KEY_MANAGEMENT_SERVICE_ID_MISMATCH` as a little-endian u32. */
  function UnknownReplyBuffer(): (b: seq<byte>)
    ensures |b| == 12
    ensures forall i :: 0 <= i < 8 ==> b[i] == 0
    ensures LeValue(b[8..12]) == Tables.SL_E_VL_KEY_MANAGEMENT_SERVICE_ID_MISMATCH
  {
    Pow256Widths();
    var code := LeBytes(Tables.SL_E_VL_KEY_MANAGEMENT_SERVICE_ID_MISMATCH, 4);
    var b := LeBytes(0, 4) + LeBytes(0, 4) + code;
    assert b[8..12] == code;
    b
  }

  /** `struct.pack('<I', 0)`. */
  lemma {:induction false} PackZero()
    ensures LeBytes(0, 4) == [0, 0, 0, 0]
  {
    var zero: seq<byte> := [0, 0, 0, 0];
    LeBytesOfValue(zero);
  }

  /** `struct.pack('<I', 0xC004F042)`. */
  lemma {:induction false} PackMismatch()
    ensures LeBytes(Tables.SL_E_VL_KEY_MANAGEMENT_SERVICE_ID_MISMATCH, 4) == [0x42, 0xF0, 0x04, 0xC0]
  {
    var code: seq<byte> := [0x42, 0xF0, 0x04, 0xC0];
    assert LeValue(code) == Tables.SL_E_VL_KEY_MANAGEMENT_SERVICE_ID_MISMATCH by {
      assert LeValue(code[3..]) == 0xC0;
      assert code[2..][1..] == code[3..];
      assert code[1..][1..] == code[2..];
      assert code[1..] == [0xF0, 0x04, 0xC0];
    }
    LeBytesOfValue(code);
  }

  /** The reply bytes spelled out: eight zeros, then 42 F0 04 C0. */
  lemma {:induction false} UnknownReplyBytes()
    ensures UnknownReplyBuffer() == [0, 0, 0, 0, 0, 0, 0, 0, 0x42, 0xF0, 0x04, 0xC0]
  {
    PackZero();
    PackMismatch();
  }

  /** The error raised by `bytes.decode('utf-8')` on a malformed buffer. */
  datatype DecodeError = UnicodeDecodeError

  /** `b.decode('utf-8').encode('utf-8')`: the buffer itself when it is well-formed UTF-8, an
      exception otherwise. */
  function Utf8RoundTrip(b: seq<byte>): (r: Result<seq<byte>, DecodeError>)
    ensures r.Success? <==> Utf8.Decode(b).Some?
    ensures r.Success? ==> r.value == b
  {
    match Utf8.Decode(b)
    case None => Failure(UnicodeDecodeError)
    case Some(s) => Utf8.EncodeDecode(b); Success(Utf8.Encode(s))
  }

  /** `kmsRequestUnknown.executeRequestLogic` as written: the assembled buffer goes through the
      UTF-8 round trip of its last line. Neither the request data nor the configuration is read. */
  function ExecuteUnknownAsWritten(data: seq<byte>, config: Server.Config): (r: Result<seq<byte>, DecodeError>)
    ensures r.Success? ==> r.value == UnknownReplyBuffer()
  {
    Utf8RoundTrip(UnknownReplyBuffer())
  }

  /** The reply is not well-formed UTF-8: its byte 0xF0 must be followed by one of 0x90-0xBF. */
  lemma {:induction false} ReplyIsNotUtf8(b: seq<byte>)
    requires b == [0, 0, 0, 0, 0, 0, 0, 0, 0x42, 0xF0, 0x04, 0xC0]
    ensures Utf8.Decode(b).None?
  {
    var rest := b[9..];
    assert Utf8.SequenceLength(rest) == 0;
    assert b == b[..9] + rest;
    Utf8.AsciiPrefixKeepsMalformed(b[..9], rest);
  }

  /** The handler as written never returns: the round trip always raises. */
  lemma {:induction false} AsWrittenAlwaysRaises(data: seq<byte>, config: Server.Config)
    ensures ExecuteUnknownAsWritten(data, config) == Failure(UnicodeDecodeError)
  {
    UnknownReplyBytes();
    ReplyIsNotUtf8(UnknownReplyBuffer());
  }

  /** The handler as intended: the assembled 12 bytes are the reply. */
  function ExecuteUnknown(data: seq<byte>, config: Server.Config): (r: seq<byte>)
    ensures |r| == 12
    ensures forall i :: 0 <= i < 8 ==> r[i] == 0
    ensures r[8..12] == [0x42, 0xF0, 0x04, 0xC0]
    ensures LeValue(r[8..12]) == Tables.SL_E_VL_KEY_MANAGEMENT_SERVICE_ID_MISMATCH
  {
    UnknownReplyBytes();
    UnknownReplyBuffer()
  }

  /** The intended reply does not depend on the request or the configuration, and it is what
      the written handler would return wherever its round trip succeeded. */
  lemma {:induction false} ExecuteUnknownIsConstant(d1: seq<byte>, c1: Server.Config, d2: seq<byte>, c2: Server.Config)
    ensures ExecuteUnknown(d1, c1) == ExecuteUnknown(d2, c2)
    ensures Utf8RoundTrip(ExecuteUnknown(d1, c1)).Success? ==>
              Utf8RoundTrip(ExecuteUnknown(d1, c1)).value == ExecuteUnknown(d2, c2)
  {
  }

  /** What `generateKmsResponseData` does with a message: hand it to a versioned handler, or
      answer with the unknown-version reply. */
  datatype Route = Delegate(handler: Handler) | Reply(bytes: seq<byte>)

  /** `generateKmsResponseData` with the corrected unknown-version handler. A message shorter
      than the 12-byte generic header cannot be read. */
  function GenerateKmsResponseData(data: seq<byte>, config: Server.Config): (r: Result<Route, CodecError>)
    ensures r.Success? <==> |data| >= 12
    ensures r.Success? && r.value.Delegate? ==>
              r.value.handler == HandlerFor(LeValue(data[10..12])) && r.value.handler != Unknown
    ensures r.Success? && r.value.Reply? ==>
              HandlerFor(LeValue(data[10..12])) == Unknown && r.value.bytes == ExecuteUnknown(data, config)
    ensures r.Success? ==> (r.value.Reply? <==> LeValue(data[10..12]) !in {4, 5, 6})
  {
    match ParseHeader(data)
    case Failure(e) => Failure(e)
    case Success(h) =>
      var handler := HandlerFor(h.versionMajor);
      if handler == Unknown then Success(Reply(ExecuteUnknown(data, config)))
      else Success(Delegate(handler))
  }
}
