/** Persistent boot bits: a register in the RTC backup domain that survives a warm
    reset, its single-bit primitives set/clr/tst, the 2- and 3-bit counters built
    from them and the one-shot test-and-clear flags.

    The enumerators of `pb_bootbit` are masks `BIT(n)`. The backend hands them to
    Zephyr's `sys_bitfield_*` helpers, which read their argument as a bit NUMBER
    (word `bit >> 5`, bit `bit & 31` from the register's address), while `init`
    writes the mask into the word itself. `Reading` keeps both interpretations so
    that the lemmas below can say where they part ways. */
module BootBit {
  import opened Bytes

  /** The members of `enum pb_bootbit`. */
  datatype Flag =
    | Initialized
    | NewFwAvailable
    | NewFwUpdateInProgress
    | FwStartFailStrikeOne
    | FwStartFailStrikeTwo
    | RecoveryLoadFailStrikeOne
    | RecoveryLoadFailStrikeTwo
    | RecoveryStartInProgress
    | SoftwareFailureOccurred
    | ResetLoopDetectOne
    | ResetLoopDetectTwo
    | ResetLoopDetectThree
    | FwStable
    | NewFwInstalled
    | ForcePrf
    | NewPrfAvailable

  const FW_FAIL_CNT_MAX: nat := 3
  const PRF_FAIL_CNT_MAX: nat := 3
  const RESET_LOOP_CNT_MAX: nat := 7

  /** The flags of the firmware strike counter. */
  predicate FwFailFlag(g: Flag)
  {
    g == FwStartFailStrikeOne || g == FwStartFailStrikeTwo
  }

  /** The flags of the recovery strike counter. */
  predicate PrfFailFlag(g: Flag)
  {
    g == RecoveryLoadFailStrikeOne || g == RecoveryLoadFailStrikeTwo
  }

  /** The flags of the reset-loop counter. */
  predicate ResetLoopFlag(g: Flag)
  {
    g == ResetLoopDetectOne || g == ResetLoopDetectTwo || g == ResetLoopDetectThree
  }

  /** n in the enumerator's `BIT(n)`. */
  function Pos(f: Flag): BitIndex
  {
    match f
    case Initialized => 0
    case NewFwAvailable => 1
    case NewFwUpdateInProgress => 2
    case FwStartFailStrikeOne => 3
    case FwStartFailStrikeTwo => 4
    case RecoveryLoadFailStrikeOne => 5
    case RecoveryLoadFailStrikeTwo => 6
    case RecoveryStartInProgress => 7
    case SoftwareFailureOccurred => 9
    case ResetLoopDetectOne => 11
    case ResetLoopDetectTwo => 12
    case ResetLoopDetectThree => 13
    case FwStable => 14
    case NewFwInstalled => 15
    case ForcePrf => 17
    case NewPrfAvailable => 18
  }

  /** The numeric value of the enumerator, as the C compiler sees it. */
  function EnumValue(f: Flag): (v: nat)
    ensures v == Pow2(Pos(f))
  {
    PowersOfTwo();
    match f
    case Initialized => 0x1
    case NewFwAvailable => 0x2
    case NewFwUpdateInProgress => 0x4
    case FwStartFailStrikeOne => 0x8
    case FwStartFailStrikeTwo => 0x10
    case RecoveryLoadFailStrikeOne => 0x20
    case RecoveryLoadFailStrikeTwo => 0x40
    case RecoveryStartInProgress => 0x80
    case SoftwareFailureOccurred => 0x200
    case ResetLoopDetectOne => 0x800
    case ResetLoopDetectTwo => 0x1000
    case ResetLoopDetectThree => 0x2000
    case FwStable => 0x4000
    case NewFwInstalled => 0x8000
    case ForcePrf => 0x2_0000
    case NewPrfAvailable => 0x4_0000
  }

  /** The enumerators are pairwise-distinct single-bit masks. */
  lemma EnumValuesDistinct(f: Flag, g: Flag)
    ensures EnumValue(f) == Pow2(Pos(f))
    ensures f != g ==> EnumValue(f) != EnumValue(g)
  {
  }

  /** The powers of two the enumerators use. */
  lemma PowersOfTwo()
    ensures Pow2(0) == 0x1 && Pow2(1) == 0x2 && Pow2(2) == 0x4 && Pow2(3) == 0x8 && Pow2(4) == 0x10
    ensures Pow2(5) == 0x20 && Pow2(6) == 0x40 && Pow2(7) == 0x80 && Pow2(9) == 0x200
    ensures Pow2(11) == 0x800 && Pow2(12) == 0x1000 && Pow2(13) == 0x2000 && Pow2(14) == 0x4000
    ensures Pow2(15) == 0x8000 && Pow2(17) == 0x2_0000 && Pow2(18) == 0x4_0000
  {
    assert Pow2(8) == 0x100;
    assert Pow2(10) == 0x400;
    assert Pow2(16) == 0x1_0000;
  }

  // ---------------------------------------------------------------------------
  // ---------------------------------------------------------------------------
  // The backing store: the bits of the 32-bit words from the backup register on.

  /** A bit index inside a 32-bit word. */
  type BitIndex = b: nat | b < 32

  /** A bit of the memory: the word, counted from the register (word 0 is
      `RTC_BKP2R`), and the bit inside it. */
  datatype Loc = Loc(word: nat, bit: BitIndex)

  /** The memory as bits; a bit absent from the map reads as zero. */
  type Mem = map<Loc, bool>

  /** `sys_test_bit`. */
  predicate TestBit(m: Mem, l: Loc)
  {
    l in m && m[l]
  }

  /** m and m' agree on every bit outside `locs`. */
  ghost predicate SameExcept(m: Mem, m': Mem, locs: set<Loc>)
  {
    forall l: Loc :: l !in locs ==> TestBit(m', l) == TestBit(m, l)
  }

  /** `sys_set_bit`: one bit of one word becomes 1, the rest of the word is kept. */
  function SetBit(m: Mem, l: Loc): (m': Mem)
    ensures TestBit(m', l)
    ensures SameExcept(m, m', {l})
  {
    m[l := true]
  }

  /** `sys_clear_bit`: one bit of one word becomes 0, the rest of the word is kept. */
  function ClrBit(m: Mem, l: Loc): (m': Mem)
    ensures !TestBit(m', l)
    ensures SameExcept(m, m', {l})
  {
    m[l := false]
  }

  /** Bit b of the number v. */
  predicate ValueBit(v: nat, b: BitIndex)
  {
    (v / Pow2(b)) % 2 == 1
  }

  /** The 32 bits of word w. */
  function WordLocs(w: nat): (ls: set<Loc>)
    ensures forall l :: l in ls <==> l.word == w
  {
    set b: BitIndex | 0 <= b < 32 :: Loc(w, b)
  }

  /** `sys_write32` of v to word w: every bit of that word is replaced by the
      corresponding bit of v, and no other word changes. */
  function WriteWord(m: Mem, w: nat, v: nat): (m': Mem)
    ensures forall l: Loc :: l.word == w ==> TestBit(m', l) == ValueBit(v, l.bit)
    ensures forall l: Loc :: l.word != w ==> TestBit(m', l) == TestBit(m, l)
  {
    map l | l in m.Keys + WordLocs(w) :: if l.word == w then ValueBit(v, l.bit) else TestBit(m, l)
  }

  /** The number 1 has bit 0 alone. */
  lemma OneBits()
    ensures forall b: BitIndex :: ValueBit(1, b) == (b == 0)
  {
    forall b: BitIndex | b > 0 ensures !ValueBit(1, b) {
      OneOver(Pow2(b - 1));
    }
  }

  lemma OneOver(p: nat)
    requires p >= 1
    ensures 1 / (2 * p) == 0
  {
  }

  // ---------------------------------------------------------------------------
  // Where a flag lives.

  /** `EnumAsIndex` is what the backend does: the enumerator goes to
      `sys_bitfield_*` as a bit number. `EnumAsMask` is what the header intends:
      the enumerator is a mask over the register word. */
  datatype Reading = EnumAsIndex | EnumAsMask

  function LocOf(r: Reading, f: Flag): Loc
  {
    match r
    case EnumAsIndex => IndexLoc(f)
    case EnumAsMask => Loc(0, Pos(f))
  }

  /** Where `sys_bitfield_*(addr, bit)` puts the enumerator taken as a bit
      number: word `bit >> 5`, bit `bit & 31`. */
  function IndexLoc(f: Flag): (l: Loc)
    ensures l.word * 32 + l.bit as nat == EnumValue(f)
  {
    match f
    case Initialized => Loc(0, 1)
    case NewFwAvailable => Loc(0, 2)
    case NewFwUpdateInProgress => Loc(0, 4)
    case FwStartFailStrikeOne => Loc(0, 8)
    case FwStartFailStrikeTwo => Loc(0, 16)
    case RecoveryLoadFailStrikeOne => Loc(1, 0)
    case RecoveryLoadFailStrikeTwo => Loc(2, 0)
    case RecoveryStartInProgress => Loc(4, 0)
    case SoftwareFailureOccurred => Loc(16, 0)
    case ResetLoopDetectOne => Loc(64, 0)
    case ResetLoopDetectTwo => Loc(128, 0)
    case ResetLoopDetectThree => Loc(256, 0)
    case FwStable => Loc(512, 0)
    case NewFwInstalled => Loc(1024, 0)
    case ForcePrf => Loc(4096, 0)
    case NewPrfAvailable => Loc(8192, 0)
  }

  /** Under either reading, distinct flags occupy distinct bits. */
  lemma LocInjective(r: Reading, f: Flag, g: Flag)
    ensures LocOf(r, f) == LocOf(r, g) ==> f == g
  {
  }

  /** Read as bit numbers, only the five smallest masks address the backup
      register itself; every other flag addresses a word 1 to 8192 words past it. */
  lemma AsIndexWordZero(f: Flag)
    ensures LocOf(EnumAsIndex, f).word == 0 <==>
              f in {Initialized, NewFwAvailable, NewFwUpdateInProgress,
                    FwStartFailStrikeOne, FwStartFailStrikeTwo}
    ensures LocOf(EnumAsIndex, f).word <= 8192
  {
  }

  // ---------------------------------------------------------------------------
  // pb_bootbit_tst / set / clr / init, on the memory.

  /** `pb_bootbit_tst`: the bit the flag lives in reads as one. */
  predicate Test(r: Reading, m: Mem, f: Flag)
  {
    TestBit(m, LocOf(r, f))
  }

  /** `pb_bootbit_set` */
  function SetFlag(r: Reading, m: Mem, f: Flag): (m': Mem)
    ensures Test(r, m', f)
    ensures forall g :: g != f ==> Test(r, m', g) == Test(r, m, g)
    ensures SameExcept(m, m', {LocOf(r, f)})
  {
    var m' := SetBit(m, LocOf(r, f));
    OtherFlagsKept(r, m, m', f);
    m'
  }

  /** `pb_bootbit_clr` */
  function ClrFlag(r: Reading, m: Mem, f: Flag): (m': Mem)
    ensures !Test(r, m', f)
    ensures forall g :: g != f ==> Test(r, m', g) == Test(r, m, g)
    ensures SameExcept(m, m', {LocOf(r, f)})
  {
    var m' := ClrBit(m, LocOf(r, f));
    OtherFlagsKept(r, m, m', f);
    m'
  }

  /** A change confined to one flag's bit leaves every other flag as it was. */
  lemma OtherFlagsKept(r: Reading, m: Mem, m': Mem, f: Flag)
    requires SameExcept(m, m', {LocOf(r, f)})
    ensures forall g :: g != f ==> Test(r, m', g) == Test(r, m, g)
  {
    forall g | g != f ensures Test(r, m', g) == Test(r, m, g) {
      LocInjective(r, f, g);
      var lg := LocOf(r, g);
      assert lg !in {LocOf(r, f)};
      assert TestBit(m', lg) == TestBit(m, lg);
    }
  }

  /** `pb_bootbit_init`: when `tst(INITIALIZED)` fails, the register word is
      overwritten with the enumerator's value, whatever the other bits held. */
  function InitMem(r: Reading, m: Mem): (m': Mem)
    ensures Test(r, m, Initialized) ==> m' == m
    ensures !Test(r, m, Initialized) ==>
              && (forall l: Loc :: l.word == 0 ==> TestBit(m', l) == (l.bit == 0))
              && (forall l: Loc :: l.word != 0 ==> TestBit(m', l) == TestBit(m, l))
  {
    if Test(r, m, Initialized) then m
    else
      OneBits();
      WriteWord(m, 0, EnumValue(Initialized))
  }

  // ---------------------------------------------------------------------------
  // The flags as a set.

  /** The flags that are set. Above the register, the boot logic only ever
      tests, sets and clears whole flags, so this is all it sees. */
  type Flags = set<Flag>

  const ALL_FLAGS: Flags := {Initialized, NewFwAvailable, NewFwUpdateInProgress, FwStartFailStrikeOne,
                             FwStartFailStrikeTwo, RecoveryLoadFailStrikeOne, RecoveryLoadFailStrikeTwo,
                             RecoveryStartInProgress, SoftwareFailureOccurred, ResetLoopDetectOne,
                             ResetLoopDetectTwo, ResetLoopDetectThree, FwStable, NewFwInstalled,
                             ForcePrf, NewPrfAvailable}

  /** The flags the memory holds under a reading. */
  function View(r: Reading, m: Mem): (s: Flags)
    ensures forall f :: f in s <==> Test(r, m, f)
  {
    set f | f in ALL_FLAGS && Test(r, m, f)
  }

  /** Setting a flag's bit adds exactly that flag. */
  lemma ViewSet(r: Reading, m: Mem, f: Flag)
    ensures View(r, SetFlag(r, m, f)) == View(r, m) + {f}
  {
  }

  /** Clearing a flag's bit removes exactly that flag. */
  lemma ViewClr(r: Reading, m: Mem, f: Flag)
    ensures View(r, ClrFlag(r, m, f)) == View(r, m) - {f}
  {
  }

  /** With masks read as masks, init makes `tst(INITIALIZED)` hold, so a second
      init is a no-op and the register survives every later warm reset. */
  lemma InitIdempotentAsMask(m: Mem)
    ensures Test(EnumAsMask, InitMem(EnumAsMask, m), Initialized)
    ensures InitMem(EnumAsMask, InitMem(EnumAsMask, m)) == InitMem(EnumAsMask, m)
  {
  }

  /** As written, init writes bit 0 of word 0 but tst(INITIALIZED) looks at bit 1.
      An uninitialized register therefore stays uninitialized after init, and each
      later init wipes word 0 again: the firmware strike counter and the other
      word-0 flags are lost every time. */
  lemma InitNeverSticksAsIndex(m: Mem)
    requires !Test(EnumAsIndex, m, Initialized)
    ensures !Test(EnumAsIndex, InitMem(EnumAsIndex, m), Initialized)
    ensures FwFailCnt(View(EnumAsIndex, InitMem(EnumAsIndex, m))) == 0
  {
  }

  /** The same init clears every flag that the as-written addressing puts in word 0. */
  lemma InitWipesWordZeroAsIndex(m: Mem)
    requires !Test(EnumAsIndex, m, Initialized)
    ensures forall f :: LocOf(EnumAsIndex, f).word == 0 ==> !Test(EnumAsIndex, InitMem(EnumAsIndex, m), f)
  {
    var m' := InitMem(EnumAsIndex, m);
    forall f | LocOf(EnumAsIndex, f).word == 0 ensures !Test(EnumAsIndex, m', f) {
      assert LocOf(EnumAsIndex, f).bit != 0;
    }
  }

  /** Two boots in a row, the first recording two firmware strikes into the
      register `m1`. With masks read as masks the second init keeps the count. */
  lemma StrikesSurviveReinitAsMask(m: Mem, m1: Mem)
    requires View(EnumAsMask, m1) == SetFwFailCnt(View(EnumAsMask, InitMem(EnumAsMask, m)), 2)
    ensures FwFailCnt(View(EnumAsMask, InitMem(EnumAsMask, m1))) == 2
  {
    InitIdempotentAsMask(m);
    assert Initialized in View(EnumAsMask, m1);
  }

  /** The same two boots as written: starting from a register that is not
      initialized (after power loss every word reads zero), the second init
      drops the two strikes. */
  lemma StrikesLostOnReinitAsIndex(m: Mem, m1: Mem)
    requires !Test(EnumAsIndex, m, Initialized)
    requires View(EnumAsIndex, m1) == SetFwFailCnt(View(EnumAsIndex, InitMem(EnumAsIndex, m)), 2)
    ensures FwFailCnt(View(EnumAsIndex, m1)) == 2
    ensures FwFailCnt(View(EnumAsIndex, InitMem(EnumAsIndex, m1))) == 0
  {
    InitNeverSticksAsIndex(m);
    var s0 := View(EnumAsIndex, InitMem(EnumAsIndex, m));
    var s1 := SetFwFailCnt(s0, 2);
    assert FwFailCnt(s1) == 2 % 4 == 2;
    assert Initialized !in s0;
    assert !FwFailFlag(Initialized);
    assert Initialized !in s1;
    assert Initialized !in View(EnumAsIndex, m1);
    assert !Test(EnumAsIndex, m1, Initialized);
    InitNeverSticksAsIndex(m1);
  }

  // ---------------------------------------------------------------------------
  // Counters and one-shot flags, on the set of flags.

  /** `!!pb_bootbit_tst(f)`: 1 when the flag is set, 0 otherwise. */
  function Val(s: Flags, f: Flag): (v: nat)
    ensures v <= 1
  {
    if f in s then 1 else 0
  }

  /** Sets the flag when `on`, clears it otherwise. */
  function Put(s: Flags, f: Flag, on: bool): (s': Flags)
    ensures (f in s') == on
    ensures forall g :: g != f ==> (g in s' <==> g in s)
  {
    if on then s + {f} else s - {f}
  }

  /** `cnt & BIT(0)`, `cnt & BIT(1)` and `cnt & BIT(2)` put back together are
      the three low bits of the count. */
  lemma LowBits(cnt: nat)
    ensures cnt % 2 + 2 * ((cnt / 2) % 2) == cnt % 4
    ensures cnt % 2 + 2 * ((cnt / 2) % 2) + 4 * ((cnt / 4) % 2) == cnt % 8
  {
    var q, r := cnt / 8, cnt % 8;
    assert cnt == 8 * q + r;
    assert cnt / 2 == 4 * q + r / 2;
    assert cnt / 4 == 2 * q + r / 4;
    assert cnt % 4 == r % 4;
  }

  /** `pb_bootbit_fw_fail_cnt_get`. */
  function FwFailCnt(s: Flags): (c: nat)
    ensures c <= FW_FAIL_CNT_MAX
  {
    Val(s, FwStartFailStrikeOne) + 2 * Val(s, FwStartFailStrikeTwo)
  }

  /** `pb_bootbit_prf_fail_cnt_get`. */
  function PrfFailCnt(s: Flags): (c: nat)
    ensures c <= PRF_FAIL_CNT_MAX
  {
    Val(s, RecoveryLoadFailStrikeOne) + 2 * Val(s, RecoveryLoadFailStrikeTwo)
  }

  /** `pb_bootbit_reset_loop_cnt_get`. */
  function ResetLoopCnt(s: Flags): (c: nat)
    ensures c <= RESET_LOOP_CNT_MAX
  {
    Val(s, ResetLoopDetectOne) + 2 * Val(s, ResetLoopDetectTwo) + 4 * Val(s, ResetLoopDetectThree)
  }

  /** The MAX constants are the largest values the counters can hold: a counter
      is at its maximum exactly when all of its flags are set. */
  lemma MaxIffAllSet(s: Flags)
    ensures FwFailCnt(s) == FW_FAIL_CNT_MAX <==> forall g :: FwFailFlag(g) ==> g in s
    ensures PrfFailCnt(s) == PRF_FAIL_CNT_MAX <==> forall g :: PrfFailFlag(g) ==> g in s
    ensures ResetLoopCnt(s) == RESET_LOOP_CNT_MAX <==> forall g :: ResetLoopFlag(g) ==> g in s
  {
    if FwFailCnt(s) != FW_FAIL_CNT_MAX {
      if FwStartFailStrikeOne !in s { assert FwFailFlag(FwStartFailStrikeOne); }
      else { assert FwFailFlag(FwStartFailStrikeTwo); }
    }
    if PrfFailCnt(s) != PRF_FAIL_CNT_MAX {
      if RecoveryLoadFailStrikeOne !in s { assert PrfFailFlag(RecoveryLoadFailStrikeOne); }
      else { assert PrfFailFlag(RecoveryLoadFailStrikeTwo); }
    }
    if ResetLoopCnt(s) != RESET_LOOP_CNT_MAX {
      if ResetLoopDetectOne !in s { assert ResetLoopFlag(ResetLoopDetectOne); }
      else if ResetLoopDetectTwo !in s { assert ResetLoopFlag(ResetLoopDetectTwo); }
      else { assert ResetLoopFlag(ResetLoopDetectThree); }
    }
  }

  /** `pb_bootbit_fw_fail_cnt_set`: bit 0 of the count into strike one, bit 1
      into strike two. The counter then reads the count modulo 4, and every
      flag outside it, so both other counters, are as they were. */
  function SetFwFailCnt(s: Flags, cnt: nat): (s': Flags)
    ensures FwFailCnt(s') == cnt % 4
    ensures forall g :: !FwFailFlag(g) ==> (g in s' <==> g in s)
    ensures PrfFailCnt(s') == PrfFailCnt(s) && ResetLoopCnt(s') == ResetLoopCnt(s)
  {
    LowBits(cnt);
    Put(Put(s, FwStartFailStrikeOne, cnt % 2 == 1), FwStartFailStrikeTwo, (cnt / 2) % 2 == 1)
  }

  /** `pb_bootbit_prf_fail_cnt_set`, likewise for the recovery strikes. */
  function SetPrfFailCnt(s: Flags, cnt: nat): (s': Flags)
    ensures PrfFailCnt(s') == cnt % 4
    ensures forall g :: !PrfFailFlag(g) ==> (g in s' <==> g in s)
    ensures FwFailCnt(s') == FwFailCnt(s) && ResetLoopCnt(s') == ResetLoopCnt(s)
  {
    LowBits(cnt);
    Put(Put(s, RecoveryLoadFailStrikeOne, cnt % 2 == 1), RecoveryLoadFailStrikeTwo, (cnt / 2) % 2 == 1)
  }

  /** `pb_bootbit_reset_loop_cnt_set`: bits 0 to 2 of the count into the three
      reset-loop flags; the counter then reads the count modulo 8. */
  function SetResetLoopCnt(s: Flags, cnt: nat): (s': Flags)
    ensures ResetLoopCnt(s') == cnt % 8
    ensures forall g :: !ResetLoopFlag(g) ==> (g in s' <==> g in s)
    ensures FwFailCnt(s') == FwFailCnt(s) && PrfFailCnt(s') == PrfFailCnt(s)
  {
    LowBits(cnt);
    Put(Put(Put(s, ResetLoopDetectOne, cnt % 2 == 1), ResetLoopDetectTwo, (cnt / 2) % 2 == 1),
        ResetLoopDetectThree, (cnt / 4) % 2 == 1)
  }

  /** The test-and-clear helpers: the prior value, and the flag cleared. */
  function TestAndClear(s: Flags, f: Flag): (res: (bool, Flags))
    ensures res.0 <==> f in s
    ensures f !in res.1 && res.1 + {f} == s + {f}
  {
    (f in s, s - {f})
  }

  /** A second test-and-clear right after the first reports false and changes nothing. */
  lemma TestAndClearTwice(s: Flags, f: Flag)
    ensures TestAndClear(TestAndClear(s, f).1, f) == (false, TestAndClear(s, f).1)
  {
    assert (s - {f}) - {f} == s - {f};
  }

  // ---------------------------------------------------------------------------
  // The register object.

  /** The backup register and the memory the backend's bit helpers can reach
      from it. `reading` fixes how enumerators become bit positions. */
  class BootBits {
    const reading: Reading
    var mem: Mem

    constructor (reading: Reading, mem: Mem)
      ensures this.reading == reading && this.mem == mem
    {
      this.reading := reading;
      this.mem := mem;
    }

    /** The flags the register holds. */
    function Flags(): Flags
      reads this
    {
      View(reading, mem)
    }

    /** pb_bootbit_tst */
    function Tst(f: Flag): (b: bool)
      reads this
      ensures b <==> f in Flags()
    {
      TestBit(mem, LocOf(reading, f))
    }

    /** pb_bootbit_set */
    method Set(f: Flag)
      modifies this
      ensures mem == SetFlag(reading, old(mem), f)
      ensures Flags() == old(Flags()) + {f}
    {
      ViewSet(reading, mem, f);
      mem := SetBit(mem, LocOf(reading, f));
    }

    /** pb_bootbit_clr */
    method Clr(f: Flag)
      modifies this
      ensures mem == ClrFlag(reading, old(mem), f)
      ensures Flags() == old(Flags()) - {f}
    {
      ViewClr(reading, mem, f);
      mem := ClrBit(mem, LocOf(reading, f));
    }

    /** pb_bootbit_init */
    method Init()
      modifies this
      ensures mem == InitMem(reading, old(mem))
    {
      if !Tst(Initialized) {
        mem := WriteWord(mem, 0, EnumValue(Initialized));
      }
    }

    /** Sets or clears one counter flag from one bit of the count. */
    method PutCounterBit(f: Flag, on: bool)
      modifies this
      ensures Flags() == Put(old(Flags()), f, on)
      ensures SameExcept(old(mem), mem, {LocOf(reading, f)})
    {
      if on {
        Set(f);
      } else {
        Clr(f);
      }
    }

    /** pb_bootbit_fw_fail_cnt_set */
    method FwFailCntSet(cnt: nat)
      requires cnt < 256
      modifies this
      ensures Flags() == SetFwFailCnt(old(Flags()), cnt)
      ensures SameExcept(old(mem), mem, {LocOf(reading, FwStartFailStrikeOne), LocOf(reading, FwStartFailStrikeTwo)})
    {
      PutCounterBit(FwStartFailStrikeOne, cnt % 2 == 1);
      PutCounterBit(FwStartFailStrikeTwo, (cnt / 2) % 2 == 1);
    }

    /** pb_bootbit_prf_fail_cnt_set */
    method PrfFailCntSet(cnt: nat)
      requires cnt < 256
      modifies this
      ensures Flags() == SetPrfFailCnt(old(Flags()), cnt)
      ensures SameExcept(old(mem), mem, {LocOf(reading, RecoveryLoadFailStrikeOne), LocOf(reading, RecoveryLoadFailStrikeTwo)})
    {
      PutCounterBit(RecoveryLoadFailStrikeOne, cnt % 2 == 1);
      PutCounterBit(RecoveryLoadFailStrikeTwo, (cnt / 2) % 2 == 1);
    }

    /** pb_bootbit_reset_loop_cnt_set */
    method ResetLoopCntSet(cnt: nat)
      requires cnt < 256
      modifies this
      ensures Flags() == SetResetLoopCnt(old(Flags()), cnt)
      ensures SameExcept(old(mem), mem, {LocOf(reading, ResetLoopDetectOne), LocOf(reading, ResetLoopDetectTwo),
                                         LocOf(reading, ResetLoopDetectThree)})
    {
      PutCounterBit(ResetLoopDetectOne, cnt % 2 == 1);
      PutCounterBit(ResetLoopDetectTwo, (cnt / 2) % 2 == 1);
      PutCounterBit(ResetLoopDetectThree, (cnt / 4) % 2 == 1);
    }

    /** The shared body of the four `*_tst_and_clr` helpers. */
    method TstAndClr(f: Flag) returns (ret: bool)
      modifies this
      ensures (ret, Flags()) == TestAndClear(old(Flags()), f)
      ensures mem == if ret then ClrFlag(reading, old(mem), f) else old(mem)
    {
      ret := Tst(f);
      if ret {
        Clr(f);
      } else {
        assert Flags() - {f} == Flags();
      }
    }

    /** pb_bootbit_prf_starting_tst_and_clr */
    method PrfStartingTstAndClr() returns (ret: bool)
      modifies this
      ensures (ret, Flags()) == TestAndClear(old(Flags()), RecoveryStartInProgress)
      ensures mem == if ret then ClrFlag(reading, old(mem), RecoveryStartInProgress) else old(mem)
    {
      ret := TstAndClr(RecoveryStartInProgress);
    }

    /** pb_bootbit_prf_starting_set */
    method PrfStartingSet()
      modifies this
      ensures Flags() == old(Flags()) + {RecoveryStartInProgress}
      ensures mem == SetFlag(reading, old(mem), RecoveryStartInProgress)
    {
      Set(RecoveryStartInProgress);
    }

    /** pb_bootbit_fw_fail_tst_and_clr */
    method FwFailTstAndClr() returns (ret: bool)
      modifies this
      ensures (ret, Flags()) == TestAndClear(old(Flags()), SoftwareFailureOccurred)
      ensures mem == if ret then ClrFlag(reading, old(mem), SoftwareFailureOccurred) else old(mem)
    {
      ret := TstAndClr(SoftwareFailureOccurred);
    }

    /** pb_bootbit_fw_stable_tst_and_clr */
    method FwStableTstAndClr() returns (ret: bool)
      modifies this
      ensures (ret, Flags()) == TestAndClear(old(Flags()), FwStable)
      ensures mem == if ret then ClrFlag(reading, old(mem), FwStable) else old(mem)
    {
      ret := TstAndClr(FwStable);
    }

    /** pb_bootbit_force_prf_tst_and_clr */
    method ForcePrfTstAndClr() returns (ret: bool)
      modifies this
      ensures (ret, Flags()) == TestAndClear(old(Flags()), ForcePrf)
      ensures mem == if ret then ClrFlag(reading, old(mem), ForcePrf) else old(mem)
    {
      ret := TstAndClr(ForcePrf);
    }
  }
}
