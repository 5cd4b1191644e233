/**
 * The CRC-32 of IEEE 802.3 (reflected polynomial 0xEDB88320), computed one
 * bit at a time, and the checksum the packer stores in each journal record.
 */
module Crc32 {
  import opened Bytes

  const POLYNOMIAL: bv32 := 0xEDB8_8320

  /** `k` steps of the reflected shift register. */
  function Shift(c: bv32, k: nat): bv32
    decreases k
  {
    if k == 0 then c
    else Shift(if c & 1 == 1 then (c >> 1) ^ POLYNOMIAL else c >> 1, k - 1)
  }

  /** Feeding one byte into the register. */
  function Step(c: bv32, b: byte): bv32 {
    Shift(c ^ (b as bv32), 8)
  }

  /** The register after feeding `data` into it, starting from `c`; no inversions. */
  function Register(c: bv32, data: bytes): bv32
    decreases |data|
  {
    if data == [] then c
    else Register(Step(c, data[0]), data[1..])
  }

  /**
   * zlib's `crc32(data, value)`: `value` is the CRC of whatever came before,
   * so the register is seeded with its complement and the result complemented.
   */
  function ZlibCrc32(data: bytes, value: bv32): (crc: bv32)
    ensures data == [] ==> crc == value
  {
    !Register(!value, data)
  }

  /** The packer's checksum: `zlib.crc32(data, 0xFFFFFFFF) ^ 0xFFFFFFFF`. */
  function Checksum(data: bytes): (crc: int)
    ensures InU32(crc)
  {
    (ZlibCrc32(data, 0xFFFF_FFFF) ^ 0xFFFF_FFFF) as int
  }

  /** The double inversion amounts to running the bare register from zero. */
  lemma ChecksumIsRegisterFromZero(data: bytes)
    ensures Checksum(data) == Register(0, data) as int
  {
  }

  /** The register values while feeding ASCII "123456789", byte by byte. */
  lemma CheckSteps1()
    ensures Step(0xFFFF_FFFF, 0x31) == 0x7C23_1048
    ensures Step(0x7C23_1048, 0x32) == 0xB0AC_BB32
    ensures Step(0xB0AC_BB32, 0x33) == 0x77B7_9C2D
  {
  }

  lemma CheckSteps2()
    ensures Step(0x77B7_9C2D, 0x34) == 0x641C_1F5C
    ensures Step(0x641C_1F5C, 0x35) == 0x340A_C5E3
    ensures Step(0x340A_C5E3, 0x36) == 0xF68D_2C9E
  {
  }

  lemma CheckSteps3()
    ensures Step(0xF68D_2C9E, 0x37) == 0xAFFC_9660
    ensures Step(0xAFFC_9660, 0x38) == 0x651F_2550
    ensures Step(0x651F_2550, 0x39) == 0x340B_C6D9
  {
  }

  /** Feeding one byte and then the rest. */
  lemma RegisterCons(c: bv32, b: byte, rest: bytes)
    ensures Register(c, [b] + rest) == Register(Step(c, b), rest)
  {
    assert ([b] + rest)[1..] == rest;
  }

  /** Feeding a single byte is one step. */
  lemma RegisterOne(c: bv32, b: byte)
    ensures Register(c, [b]) == Step(c, b)
  {
    assert [b][1..] == [];
  }

  /** The register from the fifth byte of "123456789" on. */
  lemma CheckTail()
    ensures Register(0x641C_1F5C, [0x35, 0x36, 0x37, 0x38, 0x39]) == 0x340B_C6D9
  {
    CheckSteps2();
    CheckSteps3();
    RegisterOne(0x651F_2550, 0x39);
    RegisterCons(0xAFFC_9660, 0x38, [0x39]);
    RegisterCons(0xF68D_2C9E, 0x37, [0x38, 0x39]);
    RegisterCons(0x340A_C5E3, 0x36, [0x37, 0x38, 0x39]);
    RegisterCons(0x641C_1F5C, 0x35, [0x36, 0x37, 0x38, 0x39]);
  }

  /** The standard check value of CRC-32: the CRC of ASCII "123456789". */
  lemma CheckValue()
    ensures ZlibCrc32([0x31, 0x32, 0x33, 0x34, 0x35, 0x36, 0x37, 0x38, 0x39], 0) == 0xCBF4_3926
  {
    CheckSteps1();
    CheckSteps2();
    CheckTail();
    RegisterCons(0x77B7_9C2D, 0x34, [0x35, 0x36, 0x37, 0x38, 0x39]);
    RegisterCons(0xB0AC_BB32, 0x33, [0x34, 0x35, 0x36, 0x37, 0x38, 0x39]);
    RegisterCons(0x7C23_1048, 0x32, [0x33, 0x34, 0x35, 0x36, 0x37, 0x38, 0x39]);
    RegisterCons(0xFFFF_FFFF, 0x31, [0x32, 0x33, 0x34, 0x35, 0x36, 0x37, 0x38, 0x39]);
  }
}
