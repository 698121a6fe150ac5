/** Little-endian byte layouts of fixed-width integers, as the Cortex-M core
    stores them, the big-endian 16-bit store of `sys_put_be16`, and the
    powers of two that bit positions stand for. */
module Bytes {

  /** 2 to the power n, the value of bit n of an unsigned integer. */
  function Pow2(n: nat): (p: nat)
    ensures p >= 1
  {
    if n == 0 then 1 else 2 * Pow2(n - 1)
  }

  /** Byte `k` of `x`, counting from the least significant. */
  function ByteOf(x: bv32, k: nat): bv8
    requires k < 4
  {
    if k == 0 then (x & 0xFF) as bv8
    else if k == 1 then ((x >> 8) & 0xFF) as bv8
    else if k == 2 then ((x >> 16) & 0xFF) as bv8
    else (x >> 24) as bv8
  }

  /** The word whose bytes, least significant first, are b0 to b3. */
  function Word(b0: bv8, b1: bv8, b2: bv8, b3: bv8): bv32
  {
    (b0 as bv32) | ((b1 as bv32) << 8) | ((b2 as bv32) << 16) | ((b3 as bv32) << 24)
  }

  lemma WordOfBytes(x: bv32)
    ensures Word(ByteOf(x, 0), ByteOf(x, 1), ByteOf(x, 2), ByteOf(x, 3)) == x
  {
  }

  lemma BytesOfWord(b0: bv8, b1: bv8, b2: bv8, b3: bv8)
    ensures var x := Word(b0, b1, b2, b3);
            ByteOf(x, 0) == b0 && ByteOf(x, 1) == b1 && ByteOf(x, 2) == b2 && ByteOf(x, 3) == b3
  {
  }

  /** The four bytes of `x`, least significant first (`sys_put_le32`). */
  function Le32(x: bv32): (b: seq<bv8>)
    ensures |b| == 4
  {
    [ByteOf(x, 0), ByteOf(x, 1), ByteOf(x, 2), ByteOf(x, 3)]
  }

  /** The word stored little-endian in four bytes. */
  function GetLe32(b: seq<bv8>): bv32
    requires |b| == 4
  {
    Word(b[0], b[1], b[2], b[3])
  }

  /** Storing and loading a word are inverse bijections. */
  lemma {:induction false} Le32RoundTrip(x: bv32, b: seq<bv8>)
    ensures GetLe32(Le32(x)) == x
    ensures |b| == 4 ==> Le32(GetLe32(b)) == b
  {
    WordOfBytes(x);
    if |b| == 4 {
      BytesOfWord(b[0], b[1], b[2], b[3]);
    }
  }

  /** Four bytes inside a longer sequence are the storage of the word they hold. */
  lemma Le32At(b: seq<bv8>, i: nat)
    requires i + 4 <= |b|
    ensures Le32(Word(b[i], b[i + 1], b[i + 2], b[i + 3])) == b[i..i + 4]
  {
    BytesOfWord(b[i], b[i + 1], b[i + 2], b[i + 3]);
  }

  /** ...and the word stored in four bytes inside a longer sequence is read back. */
  lemma WordAt(b: seq<bv8>, i: nat, x: bv32)
    requires i + 4 <= |b| && b[i..i + 4] == Le32(x)
    ensures Word(b[i], b[i + 1], b[i + 2], b[i + 3]) == x
  {
    assert b[i] == b[i..i + 4][0] && b[i + 1] == b[i..i + 4][1];
    assert b[i + 2] == b[i..i + 4][2] && b[i + 3] == b[i..i + 4][3];
    WordOfBytes(x);
  }

  function Lo(x: bv64): bv32 { (x & 0xFFFF_FFFF) as bv32 }
  function Hi(x: bv64): bv32 { (x >> 32) as bv32 }
  function Join(lo: bv32, hi: bv32): bv64 { (lo as bv64) | ((hi as bv64) << 32) }

  lemma JoinHalves(x: bv64, lo: bv32, hi: bv32)
    ensures Join(Lo(x), Hi(x)) == x
    ensures Lo(Join(lo, hi)) == lo && Hi(Join(lo, hi)) == hi
  {
  }

  function Le64(x: bv64): (b: seq<bv8>)
    ensures |b| == 8
  {
    Le32(Lo(x)) + Le32(Hi(x))
  }

  function GetLe64(b: seq<bv8>): bv64
    requires |b| == 8
  {
    Join(GetLe32(b[..4]), GetLe32(b[4..]))
  }

  lemma {:induction false} Le64RoundTrip(x: bv64, b: seq<bv8>)
    ensures GetLe64(Le64(x)) == x
    ensures |b| == 8 ==> Le64(GetLe64(b)) == b
  {
    assert Le64(x)[..4] == Le32(Lo(x)) && Le64(x)[4..] == Le32(Hi(x));
    Le32RoundTrip(Lo(x), []);
    Le32RoundTrip(Hi(x), []);
    JoinHalves(x, 0, 0);
    if |b| == 8 {
      var lo, hi := GetLe32(b[..4]), GetLe32(b[4..]);
      JoinHalves(0, lo, hi);
      Le32RoundTrip(0, b[..4]);
      Le32RoundTrip(0, b[4..]);
      assert b == b[..4] + b[4..];
    }
  }

  /** The two bytes of `x`, most significant first (`sys_put_be16`). */
  function Be16(x: bv16): (b: seq<bv8>)
    ensures |b| == 2
  {
    [(x >> 8) as bv8, (x & 0xFF) as bv8]
  }

  function GetBe16(b: seq<bv8>): bv16
    requires |b| == 2
  {
    ((b[0] as bv16) << 8) | (b[1] as bv16)
  }

  lemma Be16RoundTrip(x: bv16)
    ensures GetBe16(Be16(x)) == x
  {
  }
}
