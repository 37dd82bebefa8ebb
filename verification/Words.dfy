/** Eight bytes examined at once in a 64-bit little-endian word. */
module Words {
  import opened Unicode

  const HIGH: bv64 := 0x8080_8080_8080_8080
  const LOW: bv64 := 0x0101_0101_0101_0101

  /** `u64::from_le_bytes` on eight separate lanes. */
  function Load(b0: bv8, b1: bv8, b2: bv8, b3: bv8, b4: bv8, b5: bv8, b6: bv8, b7: bv8): bv64 {
    b0 as bv64 | (b1 as bv64 << 8) | (b2 as bv64 << 16) | (b3 as bv64 << 24)
    | (b4 as bv64 << 32) | (b5 as bv64 << 40) | (b6 as bv64 << 48) | (b7 as bv64 << 56)
  }

  function Word(chunk: seq<Byte>): bv64
    requires |chunk| == 8
  {
    Load(chunk[0] as bv8, chunk[1] as bv8, chunk[2] as bv8, chunk[3] as bv8,
         chunk[4] as bv8, chunk[5] as bv8, chunk[6] as bv8, chunk[7] as bv8)
  }

  /** `u64::trailing_zeros`: the position of the lowest set bit, lane by lane. */
  function TrailingZeros(x: bv64): nat {
    if x & 0xFF != 0 then LowBit(x)
    else if x & 0xFF00 != 0 then 8 + LowBit(x >> 8)
    else if x & 0xFF_0000 != 0 then 16 + LowBit(x >> 16)
    else if x & 0xFF00_0000 != 0 then 24 + LowBit(x >> 24)
    else if x & 0xFF_0000_0000 != 0 then 32 + LowBit(x >> 32)
    else if x & 0xFF00_0000_0000 != 0 then 40 + LowBit(x >> 40)
    else if x & 0xFF_0000_0000_0000 != 0 then 48 + LowBit(x >> 48)
    else if x != 0 then 56 + LowBit(x >> 56)
    else 64
  }

  function LowBit(x: bv64): nat {
    if x & 1 != 0 then 0 else if x & 2 != 0 then 1 else if x & 4 != 0 then 2
    else if x & 8 != 0 then 3 else if x & 16 != 0 then 4 else if x & 32 != 0 then 5
    else if x & 64 != 0 then 6 else 7
  }

  /** Whether lane `i` of a word carries its top bit. */
  predicate Marked(x: bv64, i: nat) {
    match i
    case 0 => x & 0x80 != 0
    case 1 => x & 0x8000 != 0
    case 2 => x & 0x80_0000 != 0
    case 3 => x & 0x8000_0000 != 0
    case 4 => x & 0x80_0000_0000 != 0
    case 5 => x & 0x8000_0000_0000 != 0
    case 6 => x & 0x80_0000_0000_0000 != 0
    case 7 => x & 0x8000_0000_0000_0000 != 0
    case _ => false
  }

  predicate TopsOnly(x: bv64) { x & HIGH == x }

  /** When only top bits can be set, a nonzero word's trailing zeros find its lowest marked lane. */
  lemma LowestMark(x: bv64) returns (j: nat)
    requires TopsOnly(x) && x != 0
    ensures j < 8 && Marked(x, j) && forall i: nat | i < j :: !Marked(x, i)
    ensures TrailingZeros(x) == 8 * j + 7
  {
    if Marked(x, 0) { j := 0; }
    else if Marked(x, 1) { j := 1; }
    else if Marked(x, 2) { j := 2; }
    else if Marked(x, 3) { j := 3; }
    else if Marked(x, 4) { j := 4; }
    else if Marked(x, 5) { j := 5; }
    else if Marked(x, 6) { j := 6; }
    else { j := 7; }
  }

  /** Octets keep their order below the constants the filters compare with, and their identity. */
  lemma OctetBounds(b: Byte)
    ensures (b as bv8 < 0x80) <==> b < 0x80
    ensures (b as bv8 < 0x20) <==> b < 0x20
  {}

  lemma OctetValue(b: Byte)
    ensures (b as bv8) as int == b
  {
    // Splitting by magnitude fixes the high bits one case at a time.
    if b < 16 {} else if b < 32 {} else if b < 64 {} else if b < 128 {} else if b < 192 {} else {}
  }

  lemma OctetEquals(b: Byte, c: Byte)
    ensures b as bv8 == c as bv8 <==> b == c
  {
    OctetValue(b);
    OctetValue(c);
  }
}
