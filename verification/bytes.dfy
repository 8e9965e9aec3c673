/** Bytes and the little-endian integer encoding used by every fixed-width field (`<H`, `<I`, `<Q`). */
module Bytes {

  type byte = x: int | 0 <= x < 256

  /** 256 to the power `n`: the number of values an `n`-byte field can hold. */
  function Pow256(n: nat): (p: nat)
    ensures p >= 1
  {
    if n == 0 then 1 else 256 * Pow256(n - 1)
  }

  /** A sequence is its prefix followed by the rest. */
  lemma {:induction false} SplitAt<T>(s: seq<T>, n: nat)
    requires n <= |s|
    ensures s[..n] + s[n..] == s
  {
  }

  /** A prefix of the rest, after a prefix, is a longer prefix. */
  lemma {:induction false} PrefixOfRest<T>(s: seq<T>, w: nat, t: nat)
    requires w + t <= |s|
    ensures s[..w] + s[w..][..t] == s[..w + t]
  {
  }

  /** The two halves of a concatenation. */
  lemma {:induction false} ConcatParts<T>(x: seq<T>, y: seq<T>)
    ensures (x + y)[..|x|] == x && (x + y)[|x|..] == y
  {
  }

  /** The head and the tail of a concatenation with a non-empty front. */
  lemma {:induction false} ConsParts<T>(x: seq<T>, y: seq<T>)
    requires |x| > 0
    ensures (x + y)[0] == x[0] && (x + y)[1..] == x[1..] + y
  {
  }

  /** A prefix reaching past `x` is `x` followed by a prefix of `y`. */
  lemma {:induction false} PrefixOfConcat<T>(x: seq<T>, y: seq<T>, j: nat)
    requires j <= |y|
    ensures (x + y)[..|x| + j] == x + y[..j]
  {
  }

  /** A slice inside a prefix is a slice of the whole. */
  lemma {:induction false} SliceOfPrefix<T>(s: seq<T>, t: nat, lo: nat, hi: nat)
    requires lo <= hi <= t <= |s|
    ensures s[..t][lo..hi] == s[lo..hi]
  {
  }

  /** Three parts written back to back from offset `o` are found again at their offsets. */
  lemma {:induction false} ThreeParts<T>(e: seq<T>, o: nat, x: seq<T>, y: seq<T>, z: seq<T>)
    requires o <= |e| && e[o..] == x + (y + z)
    ensures |e| == o + |x| + |y| + |z|
    ensures e[o .. o + |x|] == x
    ensures e[o + |x| .. o + |x| + |y|] == y
    ensures e[o + |x| + |y| ..] == z
  {
    assert e[o .. o + |x|] == e[o..][..|x|];
    assert e[o + |x| .. o + |x| + |y|] == e[o..][|x| .. |x| + |y|];
    assert e[o + |x| + |y| ..] == e[o..][|x| + |y| ..];
  }

  lemma {:induction false} ConcatInjective<T>(x1: seq<T>, y1: seq<T>, x2: seq<T>, y2: seq<T>)
    requires |x1| == |x2| && x1 + y1 == x2 + y2
    ensures x1 == x2 && y1 == y2
  {
    ConcatParts(x1, y1);
    ConcatParts(x2, y2);
  }

  lemma {:induction false} Pow256Widths()
    ensures Pow256(2) == 0x1_0000
    ensures Pow256(4) == 0x1_0000_0000
    ensures Pow256(8) == 0x1_0000_0000_0000_0000
  {
  }

  /** The unsigned value of `b` read little-endian: `b[0]` is the least significant byte. */
  function LeValue(b: seq<byte>): (v: nat)
    ensures v < Pow256(|b|)
  {
    if |b| == 0 then 0 else b[0] + 256 * LeValue(b[1..])
  }

  /** The unsigned value of `b` read big-endian (network byte order). */
  function BeValue(b: seq<byte>): (v: nat)
    ensures v < Pow256(|b|)
  {
    if |b| == 0 then 0 else BeValue(b[..|b| - 1]) * 256 + b[|b| - 1]
  }

  /** The `width`-byte little-endian encoding of `v`, as `struct.pack` writes it. */
  function LeBytes(v: nat, width: nat): (b: seq<byte>)
    requires v < Pow256(width)
    ensures |b| == width
    ensures LeValue(b) == v
  {
    if width == 0 then [] else [(v % 256) as byte] + LeBytes(v / 256, width - 1)
  }

  function Reverse(b: seq<byte>): (r: seq<byte>)
    ensures |r| == |b|
    ensures forall i :: 0 <= i < |b| ==> r[i] == b[|b| - 1 - i]
  {
    if |b| == 0 then [] else [b[|b| - 1]] + Reverse(b[..|b| - 1])
  }

  /** Encoding is injective on values: a little-endian field decodes back to the bytes it came from. */
  lemma {:induction false} LeBytesOfValue(b: seq<byte>)
    ensures LeBytes(LeValue(b), |b|) == b
  {
    if |b| > 0 {
      LeBytesOfValue(b[1..]);
      assert (b[0] + 256 * LeValue(b[1..])) / 256 == LeValue(b[1..]);
    }
  }

  /** Reading a byte string big-endian is reading its reversal little-endian. */
  lemma {:induction false} BeValueIsReversedLe(b: seq<byte>)
    ensures BeValue(b) == LeValue(Reverse(b))
  {
    if |b| > 0 {
      var r := Reverse(b);
      BeValueIsReversedLe(b[..|b| - 1]);
      assert r[1..] == Reverse(b[..|b| - 1]);
    }
  }

  lemma {:induction false} ReverseReverse(b: seq<byte>)
    ensures Reverse(Reverse(b)) == b
  {
  }
}
