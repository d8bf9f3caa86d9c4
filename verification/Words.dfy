/** Machine words: the byte layout of a 32-bit word in memory, and the byte swap of the tree scanner. */
module Words {

  const TWO31: int := 0x8000_0000
  const TWO32: int := 0x1_0000_0000
  const TWO63: int := 0x8000_0000_0000_0000
  const TWO64: int := 0x1_0000_0000_0000_0000

  type byte = x: int | 0 <= x < 256
  type u32 = x: int | 0 <= x < 0x1_0000_0000
  type u64 = x: int | 0 <= x < 0x1_0000_0000_0000_0000

  /** A 32-bit word as its four bytes, lowest address first. */
  datatype Word = Word(b0: byte, b1: byte, b2: byte, b3: byte)

  /** The number a big-endian reader sees: what `bswap` of a little-endian load yields. */
  function Be(w: Word): u32 {
    w.b0 * 0x100_0000 + w.b1 * 0x1_0000 + w.b2 * 0x100 + w.b3
  }

  /** The word that stores a token big-endian. */
  function Token(t: byte): (w: Word)
    ensures Be(w) == t
  {
    Word(0, 0, 0, t)
  }

  /** The conversion of an unsigned 32-bit value to `int`. */
  function ToInt32(n: u32): (r: int)
    ensures -TWO31 <= r < TWO31 && (r == n || r == n - TWO32)
  {
    if n < TWO31 then n else n - TWO32
  }

  // ---- the mask-and-shift byte swap, on bit vectors ----

  function Bswap(x: bv32): bv32 {
    var y := ((x & 0x00FF00FF) << 8) | ((x & 0xFF00FF00) >> 8);
    ((y & 0x0000FFFF) << 16) | ((y & 0xFFFF0000) >> 16)
  }

  /** The 32-bit value a little-endian machine loads from four consecutive bytes. */
  function Load32(b0: bv8, b1: bv8, b2: bv8, b3: bv8): bv32 {
    (b0 as bv32) | ((b1 as bv32) << 8) | ((b2 as bv32) << 16) | ((b3 as bv32) << 24)
  }

  /** Swapping the loaded value is loading the bytes in the opposite order, so `Be` is what the scanner reads. */
  lemma BswapReversesBytes(b0: bv8, b1: bv8, b2: bv8, b3: bv8)
    ensures Bswap(Load32(b0, b1, b2, b3)) == Load32(b3, b2, b1, b0)
  {
  }

  /** The scanner's number for four bytes in memory has these bytes as its base-256 digits, the first in memory most
      significant; and so has `Be` of them. */
  lemma BswapDigits(b0: bv8, b1: bv8, b2: bv8, b3: bv8)
    ensures var x := Bswap(Load32(b0, b1, b2, b3));
            x >> 24 == b0 as bv32 && (x >> 16) & 0xFF == b1 as bv32 && (x >> 8) & 0xFF == b2 as bv32
            && x & 0xFF == b3 as bv32
  {
  }

  lemma BeDigits(w: Word)
    ensures Be(w) == w.b3 + 0x100 * (w.b2 + 0x100 * (w.b1 + 0x100 * w.b0))
  {
  }
}
