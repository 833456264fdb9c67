/** The CRC-32 of zlib (`zlib.crc32`), computed bit by bit as in section 8
    of RFC 1952: reflected polynomial 0xEDB88320, register preset to all
    ones and inverted at the end. The register is a 32-bit vector. */
module Crc32 {
  import opened Binary

  const Polynomial: bv32 := 0xEDB8_8320
  const AllOnes: bv32 := 0xFFFF_FFFF

  /** `bits` rounds of the shift register: shift right, and fold in the
      polynomial when the bit shifted out is set. */
  function Shift(c: bv32, bits: nat): bv32
    decreases bits
  {
    if bits == 0 then c
    else Shift(if c & 1 == 1 then (c >> 1) ^ Polynomial else c >> 1, bits - 1)
  }

  /** Feeds `data` into the register `c`, one byte at a time. */
  function Update(c: bv32, data: Bytes): bv32
    decreases |data|
  {
    if |data| == 0 then c else Update(Shift(c ^ (data[0] as bv32), 8), data[1..])
  }

  /** The checksum as the unsigned value stored in a 4-byte field. */
  function Checksum(data: Bytes): (r: nat)
    ensures r < U32Limit
  {
    (Update(AllOnes, data) ^ AllOnes) as nat
  }

  /** The checksum of the single byte `a` is zlib's 0xE8B7BE43. */
  lemma ChecksumOfA()
    ensures Checksum([0x61]) == 0xE8B7_BE43
  {
    var data: Bytes := [0x61];
    assert data[0] as bv32 == 0x61;
  }
}
