/** The plaintext wire records of kmsBase.py: the generic request header, the KMS request
    and the KMS response, each an ordered field list of the record codec. */
module Messages {
  import opened Bytes
  import opened Wrappers
  import opened Codec
  import opened Uuid
  import Utf16

  type u16 = x: int | 0 <= x < 0x1_0000
  type u32 = x: int | 0 <= x < 0x1_0000_0000
  type u64 = x: int | 0 <= x < 0x1_0000_0000_0000_0000

  // ---------------------------------------------------------------- generic header

  /** `GenericRequestHeader`: two body lengths and the protocol version; `remainder` is the
      unparsed rest of the message. */
  datatype GenericHeader = GenericHeader(
    bodyLength1: u32, bodyLength2: u32, versionMinor: u16, versionMajor: u16, remainder: seq<byte>)

  const HeaderLayout: seq<Kind> := [U32, U32, U16, U16]

  lemma {:induction false} HeaderOffsets()
    ensures TotalWidth(HeaderLayout) == 12
    ensures Offset(HeaderLayout, 2) == 8 && Offset(HeaderLayout, 3) == 10
  {
    assert HeaderLayout[..2] == [U32, U32];
    assert HeaderLayout[..3] == [U32, U32, U16];
  }

  /** Reads the first 12 bytes; any version number is a valid outcome. */
  function ParseHeader(b: seq<byte>): (r: Result<GenericHeader, CodecError>)
    ensures r.Success? <==> |b| >= 12
    ensures r.Success? ==> r.value.versionMajor == LeValue(b[10..12])
    ensures r.Success? ==> r.value.versionMinor == LeValue(b[8..10])
    ensures r.Success? ==> r.value.remainder == b[12..]
  {
    HeaderOffsets();
    match DecodeFields(HeaderLayout, b)
    case Failure(e) => Failure(e)
    case Success(d) =>
      DecodedFieldAt(HeaderLayout, b, 2);
      DecodedFieldAt(HeaderLayout, b, 3);
      var vs := d.values;
      Success(GenericHeader(vs[0].n, vs[1].n, vs[2].n, vs[3].n, d.rest))
  }

  function HeaderValues(h: GenericHeader): (vs: seq<Value>)
    ensures Conforms(HeaderLayout, vs)
  {
    Pow256Widths();
    [Int(h.bodyLength1), Int(h.bodyLength2), Int(h.versionMinor), Int(h.versionMajor)]
  }

  function EncodeHeader(h: GenericHeader): seq<byte> {
    EncodeFields(HeaderLayout, HeaderValues(h)) + h.remainder
  }

  /** The header leaves the message untouched: writing back what was parsed reproduces it. */
  lemma {:induction false} EncodeParseHeader(b: seq<byte>)
    requires |b| >= 12
    ensures EncodeHeader(ParseHeader(b).value) == b
  {
    HeaderOffsets();
    EncodeDecode(HeaderLayout, b);
    var vs := DecodeFields(HeaderLayout, b).value.values;
    assert HeaderValues(ParseHeader(b).value) == vs;
    assert b == b[..12] + b[12..];
  }

  lemma {:induction false} ParseEncodeHeader(h: GenericHeader)
    ensures ParseHeader(EncodeHeader(h)) == Success(h)
  {
    DecodeEncode(HeaderLayout, HeaderValues(h), h.remainder);
  }

  // ---------------------------------------------------------------- text fields

  /** The two zero bytes that close a `u` (UTF-16LE text) field of structure.py. */
  const Terminator: seq<byte> := [0, 0]

  /** A `u` field holding `n` bytes of text: the text, then its terminator. */
  function TextField(n: nat): seq<Kind> {
    [Raw(n), Raw(2)]
  }

  function TextValues(t: seq<byte>): (vs: seq<Value>)
    ensures Conforms(TextField(|t|), vs)
  {
    [Blob(t), Blob(Terminator)]
  }

  lemma {:induction false} TextFieldOffsets(n: nat)
    ensures TotalWidth(TextField(n)) == n + 2
    ensures Offset(TextField(n), 1) == n
  {
    OffsetOne(TextField(n));
    assert TextField(n)[1..] == [Raw(2)];
    WidthOfSingleton(Raw(2));
  }

  /** A written text field is its bytes followed by the terminator. */
  lemma {:induction false} EncodeText(t: seq<byte>)
    ensures EncodeFields(TextField(|t|), TextValues(t)) == t + Terminator
  {
    EncodeRawPair(t, Terminator);
  }

  // ---------------------------------------------------------------- request

  /** Bytes left for the machine name and its padding after the terminator. */
  const MachineNameRegion: nat := 126

  /** Bytes of a request: 108 fixed bytes, then the name, its terminator and the padding. */
  const RequestSize: nat := 108 + 2 + MachineNameRegion

  /** The fields before `machineName`, in wire order. */
  const RequestFixedLayout: seq<Kind> :=
    [U16, U16, U32, U32, U32, Raw(16), Raw(16), Raw(16), Raw(16), U32, U64, Raw(16)]

  /** `kmsRequestStruct` for a name of `nameLen` bytes: `mnPad` takes `126 - len(machineName)` bytes. */
  function RequestLayout(nameLen: nat): seq<Kind>
    requires nameLen <= MachineNameRegion
  {
    RequestFixedLayout + NameRegionLayout(nameLen)
  }

  /** `machineName`, a text field, and `mnPad`. */
  function NameRegionLayout(nameLen: nat): seq<Kind>
    requires nameLen <= MachineNameRegion
  {
    TextField(nameLen) + [Raw(MachineNameRegion - nameLen)]
  }

  datatype KmsRequest = KmsRequest(
    versionMinor: u16,
    versionMajor: u16,
    isClientVm: u32,
    licenseStatus: u32,
    graceTime: u32,
    applicationId: Raw16,
    skuId: Raw16,
    kmsCountedId: Raw16,
    clientMachineId: Raw16,
    requiredClientCount: u32,
    requestTime: u64,
    previousClientMachineId: Raw16,
    machineName: seq<byte>,
    mnPad: seq<byte>)

  /** The name and its padding together take the 126 bytes left beside the terminator. */
  predicate WellFormedRequest(r: KmsRequest) {
    |r.machineName| <= MachineNameRegion && |r.mnPad| == MachineNameRegion - |r.machineName|
  }

  lemma {:induction false} FixedOffsets()
    ensures TotalWidth(RequestFixedLayout) == 108
    ensures Offset(RequestFixedLayout, 1) == 2
    ensures Offset(RequestFixedLayout, 8) == 64
    ensures Offset(RequestFixedLayout, 10) == 84
  {
    assert RequestFixedLayout[..1] == [U16];
    assert RequestFixedLayout[..8] == [U16, U16, U32, U32, U32, Raw(16), Raw(16), Raw(16)];
    assert RequestFixedLayout[..10] == [U16, U16, U32, U32, U32, Raw(16), Raw(16), Raw(16), Raw(16), U32];
  }

  lemma {:induction false} NameRegionOffsets(nameLen: nat)
    requires nameLen <= MachineNameRegion
    ensures TotalWidth(NameRegionLayout(nameLen)) == 2 + MachineNameRegion
    ensures Offset(NameRegionLayout(nameLen), 1) == nameLen
    ensures Offset(NameRegionLayout(nameLen), 2) == nameLen + 2
  {
    var pad := [Raw(MachineNameRegion - nameLen)];
    TextFieldOffsets(nameLen);
    WidthOfSingleton(Raw(MachineNameRegion - nameLen));
    TotalWidthAppend(TextField(nameLen), pad);
    PrefixOffset(TextField(nameLen), pad, 1);
    OffsetAppend(TextField(nameLen), pad, 0);
  }

  lemma {:induction false} RequestWidth(nameLen: nat)
    requires nameLen <= MachineNameRegion
    ensures TotalWidth(RequestLayout(nameLen)) == RequestSize
  {
    NameRegionOffsets(nameLen);
    FixedOffsets();
    TotalWidthAppend(RequestFixedLayout, NameRegionLayout(nameLen));
  }

  lemma {:induction false} FixedFieldOffsets(nameLen: nat)
    requires nameLen <= MachineNameRegion
    ensures Offset(RequestLayout(nameLen), 1) == 2
    ensures Offset(RequestLayout(nameLen), 8) == 64
    ensures Offset(RequestLayout(nameLen), 10) == 84
  {
    var tail := NameRegionLayout(nameLen);
    FixedOffsets();
    PrefixOffset(RequestFixedLayout, tail, 1);
    PrefixOffset(RequestFixedLayout, tail, 8);
    PrefixOffset(RequestFixedLayout, tail, 10);
  }

  lemma {:induction false} NameOffsets(nameLen: nat)
    requires nameLen <= MachineNameRegion
    ensures Offset(RequestLayout(nameLen), 12) == 108
    ensures Offset(RequestLayout(nameLen), 13) == 108 + nameLen
    ensures Offset(RequestLayout(nameLen), 14) == 108 + nameLen + 2
  {
    var tail := NameRegionLayout(nameLen);
    FixedOffsets();
    NameRegionOffsets(nameLen);
    OffsetAppend(RequestFixedLayout, tail, 0);
    OffsetAppend(RequestFixedLayout, tail, 1);
    OffsetAppend(RequestFixedLayout, tail, 2);
  }

  lemma {:induction false} RequestOffsets(nameLen: nat)
    requires nameLen <= MachineNameRegion
    ensures TotalWidth(RequestLayout(nameLen)) == RequestSize
    ensures Offset(RequestLayout(nameLen), 1) == 2
    ensures Offset(RequestLayout(nameLen), 8) == 64
    ensures Offset(RequestLayout(nameLen), 10) == 84
    ensures Offset(RequestLayout(nameLen), 12) == 108
    ensures Offset(RequestLayout(nameLen), 13) == 108 + nameLen
    ensures Offset(RequestLayout(nameLen), 14) == 108 + nameLen + 2
  {
    RequestWidth(nameLen);
    FixedFieldOffsets(nameLen);
    NameOffsets(nameLen);
  }

  /** The values of the fields before `machineName`. */
  function RequestFixedValues(r: KmsRequest): (vs: seq<Value>)
    ensures Conforms(RequestFixedLayout, vs)
  {
    Pow256Widths();
    [Int(r.versionMinor), Int(r.versionMajor), Int(r.isClientVm), Int(r.licenseStatus),
     Int(r.graceTime), Blob(r.applicationId), Blob(r.skuId), Blob(r.kmsCountedId),
     Blob(r.clientMachineId), Int(r.requiredClientCount), Int(r.requestTime),
     Blob(r.previousClientMachineId)]
  }

  function NameRegionValues(r: KmsRequest): (vs: seq<Value>)
    requires WellFormedRequest(r)
    ensures Conforms(NameRegionLayout(|r.machineName|), vs)
  {
    var pad := [Raw(MachineNameRegion - |r.machineName|)];
    assert Conforms(pad, [Blob(r.mnPad)]);
    ConformsAppend(TextField(|r.machineName|), pad, TextValues(r.machineName), [Blob(r.mnPad)]);
    TextValues(r.machineName) + [Blob(r.mnPad)]
  }

  function RequestValues(r: KmsRequest): (vs: seq<Value>)
    requires WellFormedRequest(r)
    ensures Conforms(RequestLayout(|r.machineName|), vs)
  {
    ConformsAppend(RequestFixedLayout, NameRegionLayout(|r.machineName|), RequestFixedValues(r), NameRegionValues(r));
    RequestFixedValues(r) + NameRegionValues(r)
  }

  /** The request held by a decoded field list; the terminator field is not kept. */
  function RequestOfValues(nameLen: nat, vs: seq<Value>): (r: KmsRequest)
    requires nameLen <= MachineNameRegion
    requires Conforms(RequestLayout(nameLen), vs)
    ensures WellFormedRequest(r) && |r.machineName| == nameLen
  {
    Pow256Widths();
    var l := RequestLayout(nameLen);
    assert Fits(l[0], vs[0]) && Fits(l[1], vs[1]) && Fits(l[2], vs[2]) && Fits(l[3], vs[3]);
    assert Fits(l[4], vs[4]) && Fits(l[9], vs[9]) && Fits(l[10], vs[10]);
    assert Fits(l[12], vs[12]) && Fits(l[14], vs[14]);
    KmsRequest(vs[0].n, vs[1].n, vs[2].n, vs[3].n, vs[4].n, vs[5].bytes, vs[6].bytes,
               vs[7].bytes, vs[8].bytes, vs[9].n, vs[10].n, vs[11].bytes, vs[12].bytes, vs[14].bytes)
  }

  /** The request as the client puts it on the wire: always 236 bytes, with the version at
      bytes 0-3, the client machine id at 64-79, the request time at 84-91, the machine name
      from byte 108, its terminator right after it and the padding to the end. */
  function EncodeRequest(r: KmsRequest): (b: seq<byte>)
    requires WellFormedRequest(r)
    ensures |b| == RequestSize
    ensures LeValue(b[0..2]) == r.versionMinor
    ensures LeValue(b[2..4]) == r.versionMajor
    ensures b[64..80] == r.clientMachineId
    ensures LeValue(b[84..92]) == r.requestTime
    ensures b[108..108 + |r.machineName|] == r.machineName
    ensures b[108 + |r.machineName| .. 108 + |r.machineName| + 2] == Terminator
    ensures b[108 + |r.machineName| + 2 ..] == r.mnPad
  {
    var b := EncodeFields(RequestLayout(|r.machineName|), RequestValues(r));
    RequestWidth(|r.machineName|);
    RequestVersionMinorAt(r);
    RequestVersionAt(r);
    RequestMachineIdAt(r);
    RequestTimeAt(r);
    RequestNameAt(r);
    b
  }

  lemma {:induction false} RequestVersionMinorAt(r: KmsRequest)
    requires WellFormedRequest(r)
    ensures var b := EncodeFields(RequestLayout(|r.machineName|), RequestValues(r));
            |b| >= 2 && LeValue(b[0..2]) == r.versionMinor
  {
    HeadField(RequestLayout(|r.machineName|), RequestValues(r));
  }

  lemma {:induction false} RequestVersionAt(r: KmsRequest)
    requires WellFormedRequest(r)
    ensures var b := EncodeFields(RequestLayout(|r.machineName|), RequestValues(r));
            |b| >= 4 && LeValue(b[2..4]) == r.versionMajor
  {
    var n := |r.machineName|;
    FixedFieldOffsets(n);
    FieldAt(RequestLayout(n), RequestValues(r), 1);
  }

  lemma {:induction false} RequestMachineIdAt(r: KmsRequest)
    requires WellFormedRequest(r)
    ensures var b := EncodeFields(RequestLayout(|r.machineName|), RequestValues(r));
            |b| >= 80 && b[64..80] == r.clientMachineId
  {
    var n := |r.machineName|;
    FixedFieldOffsets(n);
    FieldAt(RequestLayout(n), RequestValues(r), 8);
  }

  lemma {:induction false} RequestTimeAt(r: KmsRequest)
    requires WellFormedRequest(r)
    ensures var b := EncodeFields(RequestLayout(|r.machineName|), RequestValues(r));
            |b| >= 92 && LeValue(b[84..92]) == r.requestTime
  {
    var n := |r.machineName|;
    FixedFieldOffsets(n);
    FieldAt(RequestLayout(n), RequestValues(r), 10);
  }

  /** The name region of a written request: the name, its terminator, then the padding. */
  lemma {:induction false} NameRegionBytes(r: KmsRequest)
    requires WellFormedRequest(r)
    ensures EncodeFields(NameRegionLayout(|r.machineName|), NameRegionValues(r))
         == r.machineName + (Terminator + r.mnPad)
  {
    var n := |r.machineName|;
    var pad := [Raw(MachineNameRegion - n)];
    assert Conforms(pad, [Blob(r.mnPad)]);
    EncodeFieldsAppend(TextField(n), pad, TextValues(r.machineName), [Blob(r.mnPad)]);
    EncodeText(r.machineName);
    assert EncodeFields(pad, [Blob(r.mnPad)]) == r.mnPad by {
      assert pad[1..] == [];
    }
  }

  /** Everything from byte 108 of a written request is its name region. */
  lemma {:induction false} RequestNameRegionAt(r: KmsRequest)
    requires WellFormedRequest(r)
    ensures var b := EncodeFields(RequestLayout(|r.machineName|), RequestValues(r));
            |b| >= 108 && b[108..] == r.machineName + (Terminator + r.mnPad)
  {
    var n := |r.machineName|;
    var tl, tv := NameRegionLayout(n), NameRegionValues(r);
    EncodeFieldsAppend(RequestFixedLayout, tl, RequestFixedValues(r), tv);
    var pre := EncodeFields(RequestFixedLayout, RequestFixedValues(r));
    assert |pre| == 108 by { FixedOffsets(); }
    NameRegionBytes(r);
    ConcatParts(pre, EncodeFields(tl, tv));
  }

  lemma {:induction false} RequestNameAt(r: KmsRequest)
    requires WellFormedRequest(r)
    ensures var b := EncodeFields(RequestLayout(|r.machineName|), RequestValues(r));
            var n := |r.machineName|;
            && |b| == 108 + n + 2 + |r.mnPad|
            && b[108..108 + n] == r.machineName
            && b[108 + n .. 108 + n + 2] == Terminator
            && b[108 + n + 2 ..] == r.mnPad
  {
    RequestNameRegionAt(r);
    var b := EncodeFields(RequestLayout(|r.machineName|), RequestValues(r));
    ThreeParts(b, 108, r.machineName, Terminator, r.mnPad);
  }

  /** The decoded terminator field holds the two bytes after the name. */
  lemma {:induction false} DecodedTerminator(b: seq<byte>, nameLen: nat)
    requires nameLen <= MachineNameRegion && |b| >= RequestSize
    ensures DecodeFields(RequestLayout(nameLen), b).Success?
    ensures DecodeFields(RequestLayout(nameLen), b).value.values[13] == Blob(b[108 + nameLen .. 108 + nameLen + 2])
  {
    var l := RequestLayout(nameLen);
    RequestOffsets(nameLen);
    DecodedFieldAt(l, b, 13);
  }

  /** Decodes a request whose machine name is `nameLen` bytes long. Where the name ends is
      found by the text-field rules of structure.py, which are not part of this model, so
      the length is a parameter here; the two bytes after the name must be its terminator. */
  function DecodeRequest(b: seq<byte>, nameLen: nat): (r: Result<KmsRequest, CodecError>)
    ensures r.Success? <==> && nameLen <= MachineNameRegion && |b| >= RequestSize
                            && b[108 + nameLen .. 108 + nameLen + 2] == Terminator
    ensures r.Success? ==> WellFormedRequest(r.value) && |r.value.machineName| == nameLen
  {
    if nameLen > MachineNameRegion then Failure(BadLength)
    else
      RequestWidth(nameLen);
      match DecodeFields(RequestLayout(nameLen), b)
      case Failure(e) => Failure(e)
      case Success(d) =>
        DecodedTerminator(b, nameLen);
        if d.values[13] != Blob(Terminator) then Failure(BadTerminator)
        else Success(RequestOfValues(nameLen, d.values))
  }

  lemma {:induction false} DecodeEncodeRequest(r: KmsRequest, rest: seq<byte>)
    requires WellFormedRequest(r)
    ensures DecodeRequest(EncodeRequest(r) + rest, |r.machineName|) == Success(r)
  {
    var n := |r.machineName|;
    DecodeEncode(RequestLayout(n), RequestValues(r), rest);
  }

  lemma {:induction false} RequestValuesOf(nameLen: nat, vs: seq<Value>)
    requires nameLen <= MachineNameRegion
    requires Conforms(RequestLayout(nameLen), vs) && vs[13] == Blob(Terminator)
    ensures RequestValues(RequestOfValues(nameLen, vs)) == vs
  {
    var l := RequestLayout(nameLen);
    var ws := RequestValues(RequestOfValues(nameLen, vs));
    forall i | 0 <= i < 15 ensures ws[i] == vs[i] {
      assert Fits(l[i], vs[i]);
    }
  }

  lemma {:induction false} EncodeDecodeRequest(b: seq<byte>, nameLen: nat)
    requires nameLen <= MachineNameRegion && |b| >= RequestSize
    requires b[108 + nameLen .. 108 + nameLen + 2] == Terminator
    ensures EncodeRequest(DecodeRequest(b, nameLen).value) == b[..RequestSize]
  {
    RequestOffsets(nameLen);
    EncodeDecode(RequestLayout(nameLen), b);
    DecodedTerminator(b, nameLen);
    RequestValuesOf(nameLen, DecodeFields(RequestLayout(nameLen), b).value.values);
  }

  /** `getMachineName`: the name read as UTF-16LE; `None` where the decode raises, which is
      exactly when no string encodes to the name's bytes. */
  function GetMachineName(r: KmsRequest): (name: Option<string>)
    ensures name.Some? ==> Utf16.Encode(name.value) == r.machineName
    ensures name.None? ==> forall t: string :: Utf16.Encode(t) != r.machineName
  {
    var d := Utf16.Decode(r.machineName);
    if d.Some? then Utf16.EncodeDecode(r.machineName); d
    else Utf16.DecodableIffEncoded(r.machineName); d
  }

  // ---------------------------------------------------------------- response

  /** `kmsResponseStruct`. `epidLen` is not stored: it is computed when the record is written. */
  datatype KmsResponse = KmsResponse(
    versionMinor: u16,
    versionMajor: u16,
    kmsEpid: seq<byte>,
    clientMachineId: Raw16,
    responseTime: u64,
    currentClientCount: int,
    vLActivationInterval: int,
    vLRenewalInterval: int)

  /** The value written to `epidLen`: the EPID's byte length plus its 2-byte terminator. */
  function EpidLen(r: KmsResponse): nat {
    |r.kmsEpid| + 2
  }

  const ResponseHead: seq<Kind> := [U16, U16, U32]
  const ResponseTail: seq<Kind> := [Raw(16), U64, U32, U32, U32]

  /** Head (`versionMinor`, `versionMajor`, `epidLen`), the EPID text field, then the 36-byte tail. */
  function ResponseLayout(epidBytes: nat): seq<Kind> {
    ResponseHead + (TextField(epidBytes) + ResponseTail)
  }

  lemma {:induction false} ResponseHeadTailWidths()
    ensures TotalWidth(ResponseHead) == 8 && Offset(ResponseHead, 2) == 4
    ensures TotalWidth(ResponseTail) == 36
  {
    assert ResponseHead[..2] == [U16, U16];
  }

  lemma {:induction false} ResponseKinds(e: nat)
    ensures ResponseLayout(e) == [U16, U16, U32, Raw(e), Raw(2), Raw(16), U64, U32, U32, U32]
  {
  }

  lemma {:induction false} ResponseOffsets(e: nat)
    ensures TotalWidth(ResponseLayout(e)) == 8 + e + 2 + 36
    ensures Offset(ResponseLayout(e), 1) == 2
    ensures Offset(ResponseLayout(e), 2) == 4
    ensures Offset(ResponseLayout(e), 3) == 8
    ensures Offset(ResponseLayout(e), 4) == 8 + e
    ensures Offset(ResponseLayout(e), 5) == 8 + e + 2
    ensures Offset(ResponseLayout(e), 6) == 8 + e + 2 + 16
  {
    var c := TextField(e) + ResponseTail;
    ResponseHeadTailWidths();
    TextFieldOffsets(e);
    TotalWidthAppend(TextField(e), ResponseTail);
    TotalWidthAppend(ResponseHead, c);
    PrefixOffset(ResponseHead, c, 1);
    OffsetOne(ResponseHead);
    PrefixOffset(ResponseHead, c, 2);
    OffsetAppend(ResponseHead, c, 0);
    OffsetAppend(ResponseHead, c, 1);
    PrefixOffset(TextField(e), ResponseTail, 1);
    OffsetAppend(ResponseHead, c, 2);
    OffsetAppend(TextField(e), ResponseTail, 0);
    OffsetAppend(ResponseHead, c, 3);
    OffsetAppend(TextField(e), ResponseTail, 1);
    OffsetOne(ResponseTail);
  }

  function ResponseValues(r: KmsResponse): seq<Value> {
    [Int(r.versionMinor), Int(r.versionMajor), Int(EpidLen(r))] + TextValues(r.kmsEpid) +
    [Blob(r.clientMachineId), Int(r.responseTime), Int(r.currentClientCount),
     Int(r.vLActivationInterval), Int(r.vLRenewalInterval)]
  }

  /** Every integer of the response fits its field. */
  predicate ResponseFits(r: KmsResponse) {
    && EpidLen(r) < 0x1_0000_0000
    && 0 <= r.currentClientCount < 0x1_0000_0000
    && 0 <= r.vLActivationInterval < 0x1_0000_0000
    && 0 <= r.vLRenewalInterval < 0x1_0000_0000
  }

  lemma {:induction false} ResponseConforms(r: KmsResponse)
    ensures Conforms(ResponseLayout(|r.kmsEpid|), ResponseValues(r)) <==> ResponseFits(r)
  {
    var l, vs := ResponseLayout(|r.kmsEpid|), ResponseValues(r);
    Pow256Widths();
    ResponseKinds(|r.kmsEpid|);
    if ResponseFits(r) {
      assert forall i :: 0 <= i < |vs| ==> Fits(l[i], vs[i]);
    } else {
      assert !Fits(l[2], vs[2]) || !Fits(l[7], vs[7]) || !Fits(l[8], vs[8]) || !Fits(l[9], vs[9]);
    }
  }

  /** Writing the response; fails as `struct.pack` does when an integer does not fit.
      The written `epidLen` is always the EPID's byte length plus 2, which counts the
      terminator written after the EPID. */
  function EncodeResponse(r: KmsResponse): (b: Result<seq<byte>, CodecError>)
    ensures b.Success? <==> ResponseFits(r)
    ensures b.Success? ==> |b.value| == 8 + |r.kmsEpid| + 2 + 36
    ensures b.Success? ==> LeValue(b.value[0..2]) == r.versionMinor && LeValue(b.value[2..4]) == r.versionMajor
    ensures b.Success? ==> LeValue(b.value[4..8]) == |r.kmsEpid| + 2
    ensures b.Success? ==> b.value[8..8 + |r.kmsEpid|] == r.kmsEpid
    ensures b.Success? ==> b.value[8 + |r.kmsEpid| .. 8 + |r.kmsEpid| + 2] == Terminator
    ensures b.Success? ==> b.value[8 + |r.kmsEpid| + 2 .. 8 + |r.kmsEpid| + 18] == r.clientMachineId
    ensures b.Success? ==> LeValue(b.value[8 + |r.kmsEpid| + 18 .. 8 + |r.kmsEpid| + 26]) == r.responseTime
  {
    var e := |r.kmsEpid|;
    ResponseConforms(r);
    var packed := Pack(ResponseLayout(e), ResponseValues(r));
    if packed.Failure? then packed
    else
      ResponseOffsets(e);
      ResponseVersionsAt(r);
      ResponseEpidLenAt(r);
      ResponseEpidAt(r);
      ResponseTerminatorAt(r);
      ResponseMachineIdAt(r);
      ResponseTimeAt(r);
      packed
  }

  lemma {:induction false} ResponseVersionsAt(r: KmsResponse)
    requires Conforms(ResponseLayout(|r.kmsEpid|), ResponseValues(r))
    ensures var b := EncodeFields(ResponseLayout(|r.kmsEpid|), ResponseValues(r));
            |b| >= 4 && LeValue(b[0..2]) == r.versionMinor && LeValue(b[2..4]) == r.versionMajor
  {
    ResponseKinds(|r.kmsEpid|);
    ResponseOffsets(|r.kmsEpid|);
    HeadField(ResponseLayout(|r.kmsEpid|), ResponseValues(r));
    FieldAt(ResponseLayout(|r.kmsEpid|), ResponseValues(r), 1);
  }

  lemma {:induction false} ResponseEpidLenAt(r: KmsResponse)
    requires Conforms(ResponseLayout(|r.kmsEpid|), ResponseValues(r))
    ensures var b := EncodeFields(ResponseLayout(|r.kmsEpid|), ResponseValues(r));
            |b| >= 8 && LeValue(b[4..8]) == |r.kmsEpid| + 2
  {
    ResponseKinds(|r.kmsEpid|);
    ResponseOffsets(|r.kmsEpid|);
    FieldAt(ResponseLayout(|r.kmsEpid|), ResponseValues(r), 2);
  }

  lemma {:induction false} ResponseEpidAt(r: KmsResponse)
    requires Conforms(ResponseLayout(|r.kmsEpid|), ResponseValues(r))
    ensures var b := EncodeFields(ResponseLayout(|r.kmsEpid|), ResponseValues(r));
            |b| >= 8 + |r.kmsEpid| && b[8..8 + |r.kmsEpid|] == r.kmsEpid
  {
    ResponseKinds(|r.kmsEpid|);
    ResponseOffsets(|r.kmsEpid|);
    FieldAt(ResponseLayout(|r.kmsEpid|), ResponseValues(r), 3);
  }

  lemma {:induction false} ResponseTerminatorAt(r: KmsResponse)
    requires Conforms(ResponseLayout(|r.kmsEpid|), ResponseValues(r))
    ensures var b := EncodeFields(ResponseLayout(|r.kmsEpid|), ResponseValues(r));
            |b| >= 8 + |r.kmsEpid| + 2 && b[8 + |r.kmsEpid| .. 8 + |r.kmsEpid| + 2] == Terminator
  {
    ResponseKinds(|r.kmsEpid|);
    ResponseOffsets(|r.kmsEpid|);
    FieldAt(ResponseLayout(|r.kmsEpid|), ResponseValues(r), 4);
  }

  lemma {:induction false} ResponseMachineIdAt(r: KmsResponse)
    requires Conforms(ResponseLayout(|r.kmsEpid|), ResponseValues(r))
    ensures var b := EncodeFields(ResponseLayout(|r.kmsEpid|), ResponseValues(r));
            |b| >= 8 + |r.kmsEpid| + 18 && b[8 + |r.kmsEpid| + 2 .. 8 + |r.kmsEpid| + 18] == r.clientMachineId
  {
    ResponseKinds(|r.kmsEpid|);
    ResponseOffsets(|r.kmsEpid|);
    FieldAt(ResponseLayout(|r.kmsEpid|), ResponseValues(r), 5);
  }

  lemma {:induction false} ResponseTimeAt(r: KmsResponse)
    requires Conforms(ResponseLayout(|r.kmsEpid|), ResponseValues(r))
    ensures var b := EncodeFields(ResponseLayout(|r.kmsEpid|), ResponseValues(r));
            && |b| >= 8 + |r.kmsEpid| + 26
            && LeValue(b[8 + |r.kmsEpid| + 18 .. 8 + |r.kmsEpid| + 26]) == r.responseTime
  {
    ResponseKinds(|r.kmsEpid|);
    ResponseOffsets(|r.kmsEpid|);
    FieldAt(ResponseLayout(|r.kmsEpid|), ResponseValues(r), 6);
  }

  /** The decoded terminator field holds the two bytes after the EPID. */
  lemma {:induction false} DecodedEpidTerminator(b: seq<byte>, e: nat)
    requires |b| >= 8 + e + 2 + 36
    ensures DecodeFields(ResponseLayout(e), b).Success?
    ensures DecodeFields(ResponseLayout(e), b).value.values[4] == Blob(b[8 + e .. 8 + e + 2])
  {
    ResponseOffsets(e);
    ResponseKinds(e);
    DecodedFieldAt(ResponseLayout(e), b, 4);
  }

  /** Reads a response: the EPID is `epidLen - 2` bytes followed by its two-byte terminator,
      so an `epidLen` below 2, a buffer too short for it, or a non-zero terminator fails. */
  function DecodeResponse(b: seq<byte>): (r: Result<KmsResponse, CodecError>)
    ensures r.Success? <==> && |b| >= 8 && LeValue(b[4..8]) >= 2 && |b| >= LeValue(b[4..8]) + 44
                            && b[LeValue(b[4..8]) + 6 .. LeValue(b[4..8]) + 8] == Terminator
    ensures r.Success? ==> |r.value.kmsEpid| == LeValue(b[4..8]) - 2
  {
    if |b| < 8 then Failure(Truncated)
    else
      var epidLen := LeValue(b[4..8]);
      if epidLen < 2 then Failure(BadLength)
      else
        var e := epidLen - 2;
        ResponseOffsets(e);
        match DecodeFields(ResponseLayout(e), b)
        case Failure(err) => Failure(err)
        case Success(d) =>
          var vs := d.values;
          var l := ResponseLayout(e);
          Pow256Widths();
          ResponseKinds(e);
          DecodedEpidTerminator(b, e);
          if vs[4] != Blob(Terminator) then Failure(BadTerminator)
          else
            assert Fits(l[0], vs[0]) && Fits(l[1], vs[1]) && Fits(l[3], vs[3]) && Fits(l[5], vs[5]);
            assert Fits(l[6], vs[6]);
            Success(KmsResponse(vs[0].n, vs[1].n, vs[3].bytes, vs[5].bytes, vs[6].n, vs[7].n, vs[8].n, vs[9].n))
  }

  lemma {:induction false} DecodeEncodeResponse(r: KmsResponse, rest: seq<byte>)
    requires ResponseFits(r)
    ensures DecodeResponse(EncodeResponse(r).value + rest) == Success(r)
  {
    var e := |r.kmsEpid|;
    var b := EncodeResponse(r).value + rest;
    ResponseConforms(r);
    DecodeEncode(ResponseLayout(e), ResponseValues(r), rest);
    assert b[4..8] == EncodeResponse(r).value[4..8];
  }

  lemma {:induction false} EncodeDecodeResponse(b: seq<byte>)
    requires DecodeResponse(b).Success?
    ensures EncodeResponse(DecodeResponse(b).value).Success?
    ensures EncodeResponse(DecodeResponse(b).value).value == b[..|EncodeResponse(DecodeResponse(b).value).value|]
  {
    var e := LeValue(b[4..8]) - 2;
    ResponseOffsets(e);
    EncodeDecode(ResponseLayout(e), b);
    var r := DecodeResponse(b).value;
    DecodedResponseValues(b);
    ResponseConforms(r);
  }

  /** The values of a decoded response are the decoded fields, `epidLen` and the terminator included. */
  lemma {:induction false} DecodedResponseValues(b: seq<byte>)
    requires DecodeResponse(b).Success?
    ensures var e := LeValue(b[4..8]) - 2;
            ResponseValues(DecodeResponse(b).value) == DecodeFields(ResponseLayout(e), b).value.values
  {
    var e := LeValue(b[4..8]) - 2;
    ResponseOffsets(e);
    ResponseKinds(e);
    var l := ResponseLayout(e);
    var vs := DecodeFields(l, b).value.values;
    var ws := ResponseValues(DecodeResponse(b).value);
    assert vs[2] == Int(e + 2) by { DecodedFieldAt(l, b, 2); }
    assert vs[4] == Blob(Terminator) by { DecodedEpidTerminator(b, e); }
    forall i | 0 <= i < 10 ensures ws[i] == vs[i] {
      assert Fits(l[i], vs[i]);
    }
  }
}
