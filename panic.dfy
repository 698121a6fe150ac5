/** The panic reason codes of `boot/src/panic.h`: three plain values and three
    families built from an error or a fatal-error code, as the 32-bit
    `pb_panic_reason_t`.

    Codes are numbers below 2^32. Each family macro ORs a single-bit tag with a
    value that lies entirely below that bit, which is the sum of the two; the
    model writes that sum, and `x & (2^n - 1)` as `x % 2^n`. */
module Panic {
  import opened Bytes

  type Reason = c: int | 0 <= c < 0x1_0000_0000

  const INIT_FAIL: Reason := 0x0000_0001
  const PRF_UNSTABLE: Reason := 0x0000_0002
  const RESET_LOOP: Reason := 0x0000_0003

  const FW_LOAD_TAG: Reason := 0x0001_0000
  const PRF_LOAD_TAG: Reason := 0x0002_0000
  const SYSTEM_TAG: Reason := 0x0800_0000

  /** `(uint16_t)(-(err))`: the negated error reduced modulo 2^16, as the
      conversion to an unsigned type does. */
  function Low16(err: int): (v: nat)
    ensures v < 0x1_0000
    ensures -0xFFFF <= err <= -1 ==> v == -err
  {
    (-err) % 0x1_0000
  }

  /** `PB_PANIC_REASON_FW_LOAD_FAIL(err)`. */
  function FwLoadFail(err: int): Reason
  {
    FW_LOAD_TAG + Low16(err)
  }

  /** `PB_PANIC_REASON_PRF_LOAD_FAIL(err)`. */
  function PrfLoadFail(err: int): Reason
  {
    PRF_LOAD_TAG + Low16(err)
  }

  /** `PB_PANIC_REASON_SYSTEM(code)` for a 32-bit fatal-error code. */
  function System(code: Reason): Reason
  {
    SYSTEM_TAG + code % 0x800_0000
  }

  /** Bit n of a code. */
  predicate Bit(c: Reason, n: nat)
    requires n < 32
  {
    (c / Pow2(n)) % 2 == 1
  }

  /** The error a load-failure code carries, read back from its low half. */
  function ErrOf(c: Reason): int
  {
    -(c % 0x1_0000)
  }

  lemma PlainReasonsDistinct()
    ensures INIT_FAIL != PRF_UNSTABLE && PRF_UNSTABLE != RESET_LOOP && INIT_FAIL != RESET_LOOP
  {
  }

  /** A firmware load failure has bit 16 set and bits 17 and 27 clear; for an
      error in -65535..-1 its low 16 bits are the error negated, so the error
      is read back from the code. */
  lemma FwLoadFailBits(err: int)
    ensures Bit(FwLoadFail(err), 16) && !Bit(FwLoadFail(err), 17) && !Bit(FwLoadFail(err), 27)
    ensures FwLoadFail(err) % 0x1_0000 == Low16(err)
    ensures -0xFFFF <= err <= -1 ==> ErrOf(FwLoadFail(err)) == err
  {
    PowersUsed();
  }

  /** A recovery load failure has bit 17 set and bits 16 and 27 clear, with
      the same low half. */
  lemma PrfLoadFailBits(err: int)
    ensures Bit(PrfLoadFail(err), 17) && !Bit(PrfLoadFail(err), 16) && !Bit(PrfLoadFail(err), 27)
    ensures PrfLoadFail(err) % 0x1_0000 == Low16(err)
    ensures -0xFFFF <= err <= -1 ==> ErrOf(PrfLoadFail(err)) == err
  {
    PowersUsed();
  }

  /** A system code has bit 27 set, keeps bits 0 to 26 of the fatal-error code
      and has no bit above 27. */
  lemma SystemBits(code: Reason)
    ensures Bit(System(code), 27)
    ensures System(code) % 0x800_0000 == code % 0x800_0000
    ensures System(code) < 0x1000_0000
  {
    PowersUsed();
  }

  lemma PowersUsed()
    ensures Pow2(16) == 0x1_0000 && Pow2(17) == 0x2_0000 && Pow2(27) == 0x800_0000
  {
    assert Pow2(4) == 16;
    assert Pow2(8) == 256 by { assert Pow2(6) == 64; }
    assert Pow2(16) == 0x1_0000 by { assert Pow2(12) == 0x1000; }
    assert Pow2(27) == 0x800_0000 by { assert Pow2(20) == 0x10_0000; assert Pow2(24) == 0x100_0000; }
  }

  /** The reason families never overlap: no firmware load failure is a recovery
      load failure, neither is one of the plain reasons, and no system code is
      any of those. */
  lemma {:induction false} FamiliesDisjoint(e1: int, e2: int, code: Reason)
    ensures FwLoadFail(e1) != PrfLoadFail(e2)
    ensures FwLoadFail(e1) !in {INIT_FAIL, PRF_UNSTABLE, RESET_LOOP}
    ensures PrfLoadFail(e2) !in {INIT_FAIL, PRF_UNSTABLE, RESET_LOOP}
    ensures System(code) !in {INIT_FAIL, PRF_UNSTABLE, RESET_LOOP, FwLoadFail(e1), PrfLoadFail(e2)}
  {
  }

  /** Within one family the code determines the error, for every errno value
      below 2^16. */
  lemma LoadFailInjective(e1: int, e2: int)
    requires -0xFFFF <= e1 <= -1 && -0xFFFF <= e2 <= -1
    ensures FwLoadFail(e1) == FwLoadFail(e2) <==> e1 == e2
    ensures PrfLoadFail(e1) == PrfLoadFail(e2) <==> e1 == e2
  {
  }

  /** Errors that agree modulo 2^16 collide: -65536 gives the same code as 0. */
  lemma LoadFailWraps()
    ensures FwLoadFail(-0x1_0000) == FwLoadFail(0) == FW_LOAD_TAG
  {
  }
}
