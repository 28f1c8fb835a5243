/** Numbers in network byte order, as a processor of either byte order loads them. */
module ByteOrder {
  type Port16 = p: nat | p < 0x10000

  type Port32 = p: nat | p < 0x1_0000_0000

  function Loaded16(littleEndian: bool, v: Port16): nat {
    if littleEndian then v % 256 * 256 + v / 256 else v
  }

  function Loaded32(littleEndian: bool, v: Port32): nat {
    if littleEndian then
      v % 256 * 0x1000000 + v / 256 % 256 * 0x10000 + v / 256 / 256 % 256 * 0x100 + v / 256 / 256 / 256
    else v
  }

  /** What a 16-bit number is taken for when it is compared with 32-bit ones as loaded. */
  function Scale(littleEndian: bool): nat { if littleEndian then 0x10000 else 1 }

  /** A 32-bit and a 16-bit number that are loaded alike: on a little-endian machine the 16 bits are the upper half. */
  lemma LoadedAlike(littleEndian: bool, port: Port32, v: Port16)
    ensures Loaded32(littleEndian, port) == Loaded16(littleEndian, v) <==> port == v * Scale(littleEndian)
  {
    var h: nat, l: nat := v / 256, v % 256;
    var p: nat := port;
    var q: nat := p / 256;
    var r: nat := q / 256;
    Swapped(r / 256, r % 256, q % 256, p % 256, h, l);
    assert p == 0x1000000 * (r / 256) + 0x10000 * (r % 256) + 0x100 * (q % 256) + p % 256;
    assert v == 256 * h + l;
  }

  lemma Swapped(b0: nat, b1: nat, b2: nat, b3: nat, h: nat, l: nat)
    requires b0 < 256 && b1 < 256 && b2 < 256 && b3 < 256 && h < 256 && l < 256
    ensures b3 * 0x1000000 + b2 * 0x10000 + b1 * 0x100 + b0 == l * 256 + h <==> b0 == h && b1 == l && b2 == b3 == 0
    ensures 0x1000000 * b0 + 0x10000 * b1 + 0x100 * b2 + b3 == (256 * h + l) * 0x10000
            <==> b0 == h && b1 == l && b2 == b3 == 0
  {
  }
}
