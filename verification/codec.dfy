/** The ordered field-list record codec: a layout is a sequence of fixed-width field kinds,
    encoded back to back, integers little-endian. The request, response and header records
    are all expressed as layouts of this one codec. */
module Codec {
  import opened Bytes
  import opened Wrappers

  /** Field formats: `<H`, `<I`, `<Q`, and a raw byte region of known length
      (a nested 16-byte UUID, or a text region whose length the record fixes). */
  datatype Kind = U16 | U32 | U64 | Raw(len: nat) {
    function Width(): nat {
      match this
      case U16 => 2
      case U32 => 4
      case U64 => 8
      case Raw(n) => n
    }
  }

  datatype Value = Int(n: int) | Blob(bytes: seq<byte>)

  datatype CodecError =
    | Truncated        // fewer bytes remain than the next field needs
    | OutOfRange       // an integer does not fit its field width (`struct.error`)
    | BadLength        // a computed length cannot be satisfied
    | BadTerminator    // a text field is not followed by its two-byte NUL terminator

  datatype Decoded = Decoded(values: seq<Value>, rest: seq<byte>)

  /** `v` can be written in a field of kind `k`. */
  predicate Fits(k: Kind, v: Value) {
    match k
    case Raw(n) => v.Blob? && |v.bytes| == n
    case _ => v.Int? && 0 <= v.n < Pow256(k.Width())
  }

  predicate Conforms(layout: seq<Kind>, vs: seq<Value>) {
    |layout| == |vs| && forall i :: 0 <= i < |vs| ==> Fits(layout[i], vs[i])
  }

  function TotalWidth(layout: seq<Kind>): nat {
    if |layout| == 0 then 0 else layout[0].Width() + TotalWidth(layout[1..])
  }

  /** Byte offset of field `i`: the widths of the fields before it. */
  function Offset(layout: seq<Kind>, i: nat): nat
    requires i <= |layout|
  {
    TotalWidth(layout[..i])
  }

  function EncodeValue(k: Kind, v: Value): (b: seq<byte>)
    requires Fits(k, v)
    ensures |b| == k.Width()
  {
    if k.Raw? then v.bytes else LeBytes(v.n, k.Width())
  }

  function DecodeValue(k: Kind, b: seq<byte>): (v: Value)
    requires |b| == k.Width()
    ensures Fits(k, v)
  {
    if k.Raw? then Blob(b) else Int(LeValue(b))
  }

  /** The fields written back to back in layout order. */
  function EncodeFields(layout: seq<Kind>, vs: seq<Value>): (b: seq<byte>)
    requires Conforms(layout, vs)
    ensures |b| == TotalWidth(layout)
  {
    if |layout| == 0 then []
    else EncodeValue(layout[0], vs[0]) + EncodeFields(layout[1..], vs[1..])
  }

  /** Encoding with the range check `struct.pack` performs. */
  function Pack(layout: seq<Kind>, vs: seq<Value>): (r: Result<seq<byte>, CodecError>)
    ensures r.Success? <==> Conforms(layout, vs)
    ensures r.Success? ==> |r.value| == TotalWidth(layout)
  {
    if Conforms(layout, vs) then Success(EncodeFields(layout, vs)) else Failure(OutOfRange)
  }

  /** Reads the fields of `layout` from the front of `b`; the unread tail is returned. */
  function DecodeFields(layout: seq<Kind>, b: seq<byte>): (r: Result<Decoded, CodecError>)
    ensures r.Success? <==> |b| >= TotalWidth(layout)
    ensures r.Success? ==> Conforms(layout, r.value.values)
    ensures r.Success? ==> r.value.rest == b[TotalWidth(layout)..]
  {
    if |layout| == 0 then Success(Decoded([], b))
    else if |b| < layout[0].Width() then Failure(Truncated)
    else
      var w := layout[0].Width();
      match DecodeFields(layout[1..], b[w..])
      case Failure(e) => Failure(e)
      case Success(d) => Success(Decoded([DecodeValue(layout[0], b[..w])] + d.values, d.rest))
  }

  lemma {:induction false} DecodeEncodeValue(k: Kind, v: Value)
    requires Fits(k, v)
    ensures DecodeValue(k, EncodeValue(k, v)) == v
  {
  }

  lemma {:induction false} EncodeDecodeValue(k: Kind, b: seq<byte>)
    requires |b| == k.Width()
    ensures EncodeValue(k, DecodeValue(k, b)) == b
  {
    if !k.Raw? {
      LeBytesOfValue(b);
    }
  }

  /** Decoding what was encoded gives back the same field values and leaves what followed. */
  lemma {:induction false} DecodeEncode(layout: seq<Kind>, vs: seq<Value>, rest: seq<byte>)
    requires Conforms(layout, vs)
    ensures DecodeFields(layout, EncodeFields(layout, vs) + rest) == Success(Decoded(vs, rest))
  {
    if |layout| > 0 {
      var head := EncodeValue(layout[0], vs[0]);
      var tail := EncodeFields(layout[1..], vs[1..]);
      var b := EncodeFields(layout, vs) + rest;
      assert b == head + (tail + rest);
      assert b[..layout[0].Width()] == head;
      assert b[layout[0].Width()..] == tail + rest;
      assert Conforms(layout[1..], vs[1..]) by {
        forall i | 0 <= i < |vs| - 1 ensures Fits(layout[1..][i], vs[1..][i]) {
          assert Fits(layout[i + 1], vs[i + 1]);
        }
      }
      DecodeEncode(layout[1..], vs[1..], rest);
      DecodeEncodeValue(layout[0], vs[0]);
      assert [vs[0]] + vs[1..] == vs;
    }
  }

  /** Re-encoding decoded fields reproduces the bytes they were read from. */
  lemma {:induction false} EncodeDecode(layout: seq<Kind>, b: seq<byte>)
    requires |b| >= TotalWidth(layout)
    ensures DecodeFields(layout, b).Success?
    ensures EncodeFields(layout, DecodeFields(layout, b).value.values) == b[..TotalWidth(layout)]
  {
    if |layout| > 0 {
      var w := layout[0].Width();
      var t := TotalWidth(layout[1..]);
      EncodeDecode(layout[1..], b[w..]);
      var d := DecodeFields(layout[1..], b[w..]).value;
      var vs := [DecodeValue(layout[0], b[..w])] + d.values;
      assert DecodeFields(layout, b).value.values == vs;
      EncodeDecodeValue(layout[0], b[..w]);
      assert vs[1..] == d.values;
      PrefixOfRest(b, w, t);
    }
  }

  lemma {:induction false} EncodeCons(layout: seq<Kind>, vs: seq<Value>)
    requires Conforms(layout, vs) && |layout| > 0
    ensures EncodeFields(layout, vs) == EncodeValue(layout[0], vs[0]) + EncodeFields(layout[1..], vs[1..])
  {
  }

  lemma {:induction false} ConformsSlice(layout: seq<Kind>, vs: seq<Value>, lo: nat, hi: nat)
    requires Conforms(layout, vs)
    requires lo <= hi <= |layout|
    ensures Conforms(layout[lo..hi], vs[lo..hi])
  {
    forall j | 0 <= j < hi - lo ensures Fits(layout[lo..hi][j], vs[lo..hi][j]) {
      assert Fits(layout[lo + j], vs[lo + j]);
    }
  }

  lemma {:induction false} ConformsAppend(a: seq<Kind>, c: seq<Kind>, va: seq<Value>, vc: seq<Value>)
    requires Conforms(a, va) && Conforms(c, vc)
    ensures Conforms(a + c, va + vc)
  {
    var z, vz := a + c, va + vc;
    forall j | 0 <= j < |vz| ensures Fits(z[j], vz[j]) {
      if j < |a| {
        assert Fits(a[j], va[j]);
      } else {
        assert Fits(c[j - |a|], vc[j - |a|]);
      }
    }
  }

  lemma {:induction false} ConformsTail(layout: seq<Kind>, vs: seq<Value>)
    requires Conforms(layout, vs) && |layout| > 0
    ensures Conforms(layout[1..], vs[1..])
  {
    forall j | 0 <= j < |vs| - 1 ensures Fits(layout[1..][j], vs[1..][j]) {
      assert Fits(layout[j + 1], vs[j + 1]);
    }
  }

  /** Encoding distributes over concatenation of layouts and values. */
  lemma {:induction false} EncodeFieldsAppend(a: seq<Kind>, c: seq<Kind>, va: seq<Value>, vc: seq<Value>)
    requires Conforms(a, va) && Conforms(c, vc)
    ensures Conforms(a + c, va + vc)
    ensures EncodeFields(a + c, va + vc) == EncodeFields(a, va) + EncodeFields(c, vc)
    decreases |a|
  {
    ConformsAppend(a, c, va, vc);
    if |a| == 0 {
      assert a + c == c && va + vc == vc;
    } else {
      ConformsTail(a, va);
      EncodeFieldsAppend(a[1..], c, va[1..], vc);
      ConsParts(a, c);
      ConsParts(va, vc);
    }
  }

  /** Two raw regions encode as their bytes back to back. */
  lemma {:induction false} EncodeRawPair(x: seq<byte>, y: seq<byte>)
    ensures Conforms([Raw(|x|), Raw(|y|)], [Blob(x), Blob(y)])
    ensures EncodeFields([Raw(|x|), Raw(|y|)], [Blob(x), Blob(y)]) == x + y
  {
    var l, vs := [Raw(|x|), Raw(|y|)], [Blob(x), Blob(y)];
    assert l[1..] == [Raw(|y|)] && vs[1..] == [Blob(y)];
    assert [Raw(|y|)][1..] == [] && [Blob(y)][1..] == [];
  }

  lemma {:induction false} TotalWidthAppend(a: seq<Kind>, c: seq<Kind>)
    ensures TotalWidth(a + c) == TotalWidth(a) + TotalWidth(c)
  {
    if |a| == 0 {
      assert a + c == c;
    } else {
      assert (a + c)[1..] == a[1..] + c;
      TotalWidthAppend(a[1..], c);
    }
  }

  /** Field `i` of an encoded record sits at `Offset(layout, i)` and holds exactly that field's encoding. */
  lemma {:induction false} FieldAt(layout: seq<Kind>, vs: seq<Value>, i: nat)
    requires Conforms(layout, vs)
    requires i < |layout|
    ensures Offset(layout, i) + layout[i].Width() <= |EncodeFields(layout, vs)|
    ensures EncodeFields(layout, vs)[Offset(layout, i) .. Offset(layout, i) + layout[i].Width()]
         == EncodeValue(layout[i], vs[i])
  {
    var a, c := layout[..i], layout[i..];
    var w := layout[i].Width();
    ConformsSlice(layout, vs, 0, i);
    ConformsSlice(layout, vs, i, |layout|);
    var pre, post := EncodeFields(a, vs[..i]), EncodeFields(c, vs[i..]);
    assert EncodeFields(layout, vs) == pre + post by {
      SplitAt(layout, i);
      SplitAt(vs, i);
      EncodeFieldsAppend(a, c, vs[..i], vs[i..]);
    }
    assert w <= |post| && post[..w] == EncodeValue(layout[i], vs[i]) by {
      HeadField(c, vs[i..]);
    }
    SliceOfSplit(EncodeFields(layout, vs), pre, post, Offset(layout, i), w, EncodeValue(layout[i], vs[i]));
  }

  /** The first field's encoding opens the record. */
  lemma {:induction false} HeadField(layout: seq<Kind>, vs: seq<Value>)
    requires Conforms(layout, vs) && |layout| > 0
    ensures layout[0].Width() <= |EncodeFields(layout, vs)|
    ensures EncodeFields(layout, vs)[..layout[0].Width()] == EncodeValue(layout[0], vs[0])
  {
    EncodeCons(layout, vs);
  }

  lemma {:induction false} SliceOfSplit<T>(e: seq<T>, pre: seq<T>, post: seq<T>, o: nat, w: nat, field: seq<T>)
    requires e == pre + post && o == |pre| && w <= |post| && post[..w] == field
    ensures o + w <= |e| && e[o..o + w] == field
  {
    assert e[o..o + w] == post[..w];
  }

  /** Field `i` of a decoded record is the decoding of the bytes at its offset. */
  lemma {:induction false} DecodedFieldAt(layout: seq<Kind>, b: seq<byte>, i: nat)
    requires |b| >= TotalWidth(layout)
    requires i < |layout|
    ensures DecodeFields(layout, b).Success?
    ensures Offset(layout, i) + layout[i].Width() <= TotalWidth(layout)
    ensures DecodeFields(layout, b).value.values[i]
         == DecodeValue(layout[i], b[Offset(layout, i) .. Offset(layout, i) + layout[i].Width()])
  {
    var vs := DecodeFields(layout, b).value.values;
    var lo, hi := Offset(layout, i), Offset(layout, i) + layout[i].Width();
    assert hi <= TotalWidth(layout) && b[lo..hi] == EncodeValue(layout[i], vs[i]) by {
      EncodeDecode(layout, b);
      FieldAt(layout, vs, i);
      SliceOfPrefix(b, TotalWidth(layout), lo, hi);
    }
    DecodeEncodeValue(layout[i], vs[i]);
  }

  lemma {:induction false} WidthOfSingleton(k: Kind)
    ensures TotalWidth([k]) == k.Width()
  {
    assert [k][1..] == [];
  }

  /** The second field starts where the first one ends. */
  lemma {:induction false} OffsetOne(c: seq<Kind>)
    requires |c| >= 1
    ensures Offset(c, 1) == c[0].Width()
  {
    assert c[..1] == [c[0]];
    WidthOfSingleton(c[0]);
  }

  /** Offsets past a prefix of the layout add the prefix's width. */
  lemma {:induction false} OffsetAppend(a: seq<Kind>, c: seq<Kind>, j: nat)
    requires j <= |c|
    ensures Offset(a + c, |a| + j) == TotalWidth(a) + Offset(c, j)
  {
    PrefixOfConcat(a, c, j);
    TotalWidthAppend(a, c[..j]);
  }

  /** Offsets inside a prefix of the layout do not depend on what follows it. */
  lemma {:induction false} PrefixOffset(a: seq<Kind>, c: seq<Kind>, i: nat)
    requires i <= |a|
    ensures Offset(a + c, i) == Offset(a, i)
  {
    assert (a + c)[..i] == a[..i];
  }
}
