/** The fixed-width integers of the C sources, as subset types of int. */
module Bytes {
  const M16: nat := 0x1_0000
  const M32: nat := 0x1_0000_0000
  const M64: nat := 0x1_0000_0000_0000_0000

  type u8 = x: int | 0 <= x < 0x100
  type u16 = x: int | 0 <= x < M16
  type u32 = x: int | 0 <= x < M32
  type u64 = x: int | 0 <= x < M64

  type Ip4 = s: seq<u8> | |s| == 4 witness [0, 0, 0, 0]
  type Mac = s: seq<u8> | |s| == 6 witness [0, 0, 0, 0, 0, 0]

  datatype Option<+T> = None | Some(value: T)

  /** The 16-bit value of two bytes in network order. */
  function Be16(hi: u8, lo: u8): u16 {
    0x100 * (hi as int) + lo as int
  }

  /** uint32_t addition. */
  function Add32(a: u32, b: u32): u32 {
    if a + b < M32 then a + b else a + b - M32
  }

  /** Wrapping an accumulator early or late gives the same residue. */
  lemma WrapAdd(a: nat, b: nat)
    ensures (a % M32 + b) % M32 == (a + b) % M32
  {
    var q, p := a / M32, (a % M32 + b) / M32;
    WrapUnique(a + b, q + p, (a % M32 + b) % M32);
  }

  lemma WrapUnique(x: int, q: int, r: int)
    requires x == M32 * q + r && 0 <= r < M32
    ensures x / M32 == q && x % M32 == r
  {
  }

  /** memcpy of mem.c, whose length is a uint16_t. */
  method Memcpy(dest: array<u8>, off: nat, src: seq<u8>)
    requires off + |src| <= dest.Length && |src| < M16
    modifies dest
    ensures forall k :: off <= k < off + |src| ==> dest[k] == src[k - off]
    ensures forall k :: 0 <= k < off || off + |src| <= k < dest.Length ==> dest[k] == old(dest[k])
  {
    var i := 0;
    while i < |src|
      invariant 0 <= i <= |src|
      invariant forall k :: off <= k < off + i ==> dest[k] == src[k - off]
      invariant forall k :: 0 <= k < off || off + i <= k < dest.Length ==> dest[k] == old(dest[k])
    {
      dest[off + i] := src[i];
      i := i + 1;
    }
  }
}
