/** The IEEE 802.3 CRC-32, defined in its own right: the frame check sequence
    of IEEE 802.3 section 3.2.9 (generator polynomial 0x04C11DB7), in its usual
    bit-reflected form (0xEDB88320), with an all-ones initial register and an
    all-ones final complement.  No equivalence to any library routine is
    claimed, and nothing in the model depends on more than its being a
    function of the bytes. */
module Crc32 {

  const ReflectedPolynomial: bv32 := 0xEDB8_8320

  /** The CRC register after `k` more bit steps, least significant bit first. */
  function ShiftBits(crc: bv32, k: nat): bv32
    decreases k
  {
    if k == 0 then crc
    else ShiftBits(if crc & 1 == 1 then (crc >> 1) ^ ReflectedPolynomial else crc >> 1, k - 1)
  }

  /** The CRC register after feeding `data`, one byte (eight bit steps) at a time. */
  function Update(crc: bv32, data: seq<bv8>): bv32
    decreases |data|
  {
    if |data| == 0 then crc
    else Update(ShiftBits(crc ^ (data[0] as bv32), 8), data[1..])
  }

  function Checksum(data: seq<bv8>): bv32
  {
    Update(0xFFFF_FFFF, data) ^ 0xFFFF_FFFF
  }
}
