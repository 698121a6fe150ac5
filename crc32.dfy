/** CRC-32 as used for the frame check sequence of section 3.2.9 of IEEE 802.3:
    generator polynomial 0x04C11DB7 processed bit-reflected (0xEDB88320),
    register preset to all ones and complemented at the end. `Update` is the
    shape of Zephyr's `crc32_ieee_update` (seed in and result out both
    complemented), `Crc` that of `crc32_ieee`. The table-driven code behind those
    two is not part of this model; this is the bitwise definition it computes. */
module Crc32 {

  const POLY: bv32 := 0xEDB8_8320
  const BYTE_BITS: nat := 8

  /** One shift of the reflected register. */
  function ShiftRound(c: bv32): bv32
  {
    if c & 1 == 1 then (c >> 1) ^ POLY else c >> 1
  }

  function Rounds(c: bv32, n: nat): bv32
    decreases n
  {
    if n == 0 then c else Rounds(ShiftRound(c), n - 1)
  }

  /** Feeds one byte, least significant bit first. */
  function StepByte(c: bv32, b: bv8): bv32
  {
    Rounds(c ^ (b as bv32), BYTE_BITS)
  }

  /** The raw register after feeding `s` from state `c`. */
  function Raw(c: bv32, s: seq<bv8>): bv32
    decreases |s|
  {
    if s == [] then c else Raw(StepByte(c, s[0]), s[1..])
  }

  /** `crc32_ieee_update(crc, s)`. */
  function Update(crc: bv32, s: seq<bv8>): bv32
  {
    !Raw(!crc, s)
  }

  /** `crc32_ieee(s)`. */
  function Crc(s: seq<bv8>): bv32
  {
    Update(0, s)
  }

  /** Feeding a concatenation is feeding its parts in turn. */
  lemma {:induction false} RawAppend(c: bv32, a: seq<bv8>, b: seq<bv8>)
    ensures Raw(c, a + b) == Raw(Raw(c, a), b)
    decreases |a|
  {
    if a == [] {
      assert a + b == b;
    } else {
      assert (a + b)[0] == a[0];
      assert (a + b)[1..] == a[1..] + b;
      RawAppend(StepByte(c, a[0]), a[1..], b);
    }
  }

  /** Chunked updates compose: updating with `a` and then with `b` is updating
      with `a + b`, whatever the split. */
  lemma {:induction false} UpdateAppend(crc: bv32, a: seq<bv8>, b: seq<bv8>)
    ensures Update(Update(crc, a), b) == Update(crc, a + b)
  {
    var x := Raw(!crc, a);
    assert Update(crc, a) == !x;
    assert !Update(crc, a) == x;
    RawAppend(!crc, a, b);
  }

  /** The empty update is the identity; in particular `crc32_ieee(NULL, 0)` is 0. */
  lemma UpdateEmpty(crc: bv32)
    ensures Update(crc, []) == crc
    ensures Crc([]) == 0
  {
  }


}

module Crc32Check {
  import opened Crc32
  /** The standard check value: the CRC of the ASCII string "123456789". */
  lemma CheckValue()
    ensures Crc([0x31, 0x32, 0x33, 0x34, 0x35, 0x36, 0x37, 0x38, 0x39]) == 0xCBF4_3926
  {
    var s: seq<bv8> := [0x31, 0x32, 0x33, 0x34, 0x35, 0x36, 0x37, 0x38, 0x39];
    assert BYTE_BITS == 8;
    // the register after each byte
    assert StepByte(0xFFFFFFFF, 0x31) == 0x7C231048;
    assert StepByte(0x7C231048, 0x32) == 0xB0ACBB32;
    assert StepByte(0xB0ACBB32, 0x33) == 0x77B79C2D;
    assert StepByte(0x77B79C2D, 0x34) == 0x641C1F5C;
    assert StepByte(0x641C1F5C, 0x35) == 0x340AC5E3;
    assert StepByte(0x340AC5E3, 0x36) == 0xF68D2C9E;
    assert StepByte(0xF68D2C9E, 0x37) == 0xAFFC9660;
    assert StepByte(0xAFFC9660, 0x38) == 0x651F2550;
    assert StepByte(0x651F2550, 0x39) == 0x340BC6D9;
    assert Raw(0x651F2550, s[8..]) == 0x340BC6D9 by { assert s[8..][1..] == s[9..]; }
    assert Raw(0xAFFC9660, s[7..]) == 0x340BC6D9 by { assert s[7..][1..] == s[8..]; }
    assert Raw(0xF68D2C9E, s[6..]) == 0x340BC6D9 by { assert s[6..][1..] == s[7..]; }
    assert Raw(0x340AC5E3, s[5..]) == 0x340BC6D9 by { assert s[5..][1..] == s[6..]; }
    assert Raw(0x641C1F5C, s[4..]) == 0x340BC6D9 by { assert s[4..][1..] == s[5..]; }
    assert Raw(0x77B79C2D, s[3..]) == 0x340BC6D9 by { assert s[3..][1..] == s[4..]; }
    assert Raw(0xB0ACBB32, s[2..]) == 0x340BC6D9 by { assert s[2..][1..] == s[3..]; }
    assert Raw(0x7C231048, s[1..]) == 0x340BC6D9 by { assert s[1..][1..] == s[2..]; }
    assert Raw(0xFFFFFFFF, s[0..]) == 0x340BC6D9 by { assert s[0..][1..] == s[1..]; }
  }
}
