/** `getPadding`: the RPC frame padding after a body of `bodyLength` bytes. */
module Padding {

  /** The source expression `4 + (((~bodyLength & 3) + 1) & 3)` on 32-bit lengths: always
      4 to 7 bytes, and it brings the framed length to a multiple of 4, a full 4 bytes when the
      body is already aligned. Equal to the arithmetic form `4 + ((4 - n mod 4) mod 4)`. */
  function GetPadding(bodyLength: bv32): (p: bv32)
    ensures 4 <= p <= 7
    ensures (bodyLength + p) % 4 == 0
    ensures p == 4 + (4 - bodyLength % 4) % 4
  {
    4 + (((!bodyLength & 3) + 1) & 3)
  }

  /** Python's `~n`: the bitwise complement of an unbounded integer, which is `-n - 1`. */
  function Invert(n: int): int {
    -n - 1
  }

  /** Python's `x & 3` on an unbounded two's-complement integer: its two low bits, which is
      the non-negative remainder modulo 4 (Dafny's `%` is Euclidean). */
  function LowTwoBits(x: int): (r: int)
    ensures 0 <= r < 4
  {
    x % 4
  }

  /** The source expression evaluated on Python's unbounded integers, where the same
      properties hold for every length. */
  function GetPaddingInt(bodyLength: int): (p: int)
    ensures 4 <= p <= 7
    ensures (bodyLength + p) % 4 == 0
    ensures p == 4 + (4 - bodyLength % 4) % 4
  {
    4 + LowTwoBits(LowTwoBits(Invert(bodyLength)) + 1)
  }

  /** The values 0 to 4 map to 4, 7, 6, 5, 4. */
  lemma {:induction false} PaddingTable()
    ensures GetPaddingInt(0) == 4 && GetPaddingInt(1) == 7 && GetPaddingInt(2) == 6
    ensures GetPaddingInt(3) == 5 && GetPaddingInt(4) == 4
  {
  }
}
