/** The once-per-boot decision of `boot/src/main.c`: initialise the buttons
    and the flash, account for the previous boot's failure, resolve a recovery
    request, count warm resets and load an image. Every path ends in a jump,
    a panic or, when the buttons cannot be set up, a plain return. */
module Boot {
  import opened BootBit
  import opened Firmware
  import Buttons
  import Panic

  /** How a boot ends. `pb_fwjump` and `pb_panic` do not return. */
  datatype Outcome = Jump(addr: bv32) | Halt(reason: Panic.Reason) | Return(code: int)

  /** The hardware the decision reads, other than the boot-bit register and the
      flash: the button pins, which `pb_buttons_init` checks and configures
      and whose later samples the hold check takes, and whether the flash
      device is ready. */
  datatype Board = Board(pinsReady: Buttons.Button -> bool, configure: Buttons.Button -> int,
                         pins: nat -> Buttons.Sample, holdMs: nat, flashReady: bool)

  // ---------------------------------------------------------------- phases

  /** Where the strike accounting leaves the boot. */
  datatype Strikes = Proceed(prfRequested: bool) | PrfUnstable

  /** Lines 41-75: a stable previous boot clears both strike counters; a
      software failure counts a strike against the recovery image when it was
      starting and against the firmware otherwise. Three recovery strikes
      panic; three firmware strikes request recovery. */
  function StrikeSpec(s: Flags): (Strikes, Flags)
  {
    var (stable, s1) := TestAndClear(s, FwStable);
    if stable then StableSpec(s1) else FailureSpec(s1)
  }

  /** Lines 42-44: both strike counters are zeroed. */
  function StableSpec(s: Flags): (Strikes, Flags)
  {
    (Proceed(false), SetPrfFailCnt(SetFwFailCnt(s, 0), 0))
  }

  /** Lines 45-74: without a failure flag nothing is counted. */
  function FailureSpec(s: Flags): (Strikes, Flags)
  {
    var (failed, s1) := TestAndClear(s, SoftwareFailureOccurred);
    if !failed then (Proceed(false), s1)
    else
      var (starting, s2) := TestAndClear(s1, RecoveryStartInProgress);
      if starting then PrfStrikeSpec(s2) else FwStrikeSpec(s2)
  }

  /** Lines 47-61: a recovery strike; the fourth one panics. */
  function PrfStrikeSpec(s: Flags): (Strikes, Flags)
  {
    var cnt := PrfFailCnt(s);
    if cnt == PRF_FAIL_CNT_MAX then (PrfUnstable, SetPrfFailCnt(s, 0))
    else (Proceed(true), SetPrfFailCnt(s, cnt + 1))
  }

  /** Lines 62-72: a firmware strike; the fourth one requests recovery. */
  function FwStrikeSpec(s: Flags): (Strikes, Flags)
  {
    var cnt := FwFailCnt(s);
    if cnt == FW_FAIL_CNT_MAX then (Proceed(true), SetFwFailCnt(s, 0))
    else (Proceed(false), SetFwFailCnt(s, cnt + 1))
  }

  /** Lines 78-85, reached only without a request: the forced-recovery flag is
      consumed first, and only when it is clear are the buttons sampled.
      Also says whether the buttons were sampled. */
  function ManualSpec(s: Flags, b: Board): (bool, Flags, bool)
  {
    var (forced, s1) := TestAndClear(s, ForcePrf);
    if forced then (true, s1, false)
    else (Buttons.Held(b.pins, b.holdMs), s1, true)
  }

  /** Lines 96-104: the reset-loop counter counts up to its maximum, and at the
      maximum is cleared and the boot panics. */
  function ResetLoopSpec(s: Flags): (bool, Flags)
  {
    var cnt := ResetLoopCnt(s);
    if cnt == RESET_LOOP_CNT_MAX then (true, SetResetLoopCnt(s, 0))
    else (false, SetResetLoopCnt(s, cnt + 1))
  }

  /** Lines 87-93: the recovery load; it jumps or panics, never returns. */
  function RecoverySpec(s: Flags, flash: Flash, lay: Layout, bs: nat): (Outcome, Flags)
    requires WellFormed(flash) && bs >= 1
  {
    var (res, s', _) := LoadPrfSpec(s, flash, 0, lay, bs);
    match res
    case Jumped(a) => (Jump(a), s')
    case Failed(e) => (Halt(Panic.PrfLoadFail(e)), s')
  }

  /** Lines 96-111: the reset-loop check and then the slot load. */
  function NormalSpec(s: Flags, flash: Flash, lay: Layout, bs: nat): (Outcome, Flags)
    requires WellFormed(flash) && bs >= 1
  {
    var (loop, s1) := ResetLoopSpec(s);
    if loop then (Halt(Panic.RESET_LOOP), s1)
    else
      var (res, s2, _) := LoadSpec(s1, flash, 0, lay, bs);
      match res
      case Jumped(a) => (Jump(a), s2)
      case Failed(e) => (Halt(Panic.FwLoadFail(e)), s2)
  }

  /** `main`, from the flags `s` set at boot entry. */
  function BootSpec(s: Flags, b: Board, flash: Flash, lay: Layout, bs: nat): (Outcome, Flags)
    requires WellFormed(flash) && bs >= 1
  {
    if Buttons.Init(b.pinsReady, b.configure).0 < 0 then (Return(0), s)
    else if FirmwareInit(b.flashReady) < 0 then (Halt(Panic.INIT_FAIL), s)
    else
      var (st, s1) := StrikeSpec(s);
      if st.PrfUnstable? then (Halt(Panic.PRF_UNSTABLE), s1)
      else
        var (requested, s2, _) :=
          if st.prfRequested then (true, s1, false) else ManualSpec(s1, b);
        if requested then RecoverySpec(s2, flash, lay, bs)
        else NormalSpec(s2, flash, lay, bs)
  }

  // ---------------------------------------------------------------- properties

  /** A failed button setup returns 0 and touches nothing; a missing flash
      device panics with INIT_FAIL, also before any boot bit is read. */
  lemma InitFailures(s: Flags, b: Board, flash: Flash, lay: Layout, bs: nat)
    requires WellFormed(flash) && bs >= 1
    ensures Buttons.Init(b.pinsReady, b.configure).0 < 0 ==> BootSpec(s, b, flash, lay, bs) == (Return(0), s)
    ensures Buttons.Init(b.pinsReady, b.configure).0 == 0 && !b.flashReady
            ==> BootSpec(s, b, flash, lay, bs) == (Halt(Panic.INIT_FAIL), s)
  {
  }

  /** Only a failed button setup returns; every other boot jumps or panics. */
  lemma ReturnsOnlyWithoutButtons(s: Flags, b: Board, flash: Flash, lay: Layout, bs: nat)
    requires WellFormed(flash) && bs >= 1
    ensures BootSpec(s, b, flash, lay, bs).0.Return? <==> Buttons.Init(b.pinsReady, b.configure).0 < 0
  {
    var (st, s1) := StrikeSpec(s);
    if st.Proceed? {
      var (requested, s2, _) := if st.prfRequested then (true, s1, false) else ManualSpec(s1, b);
      if requested {
        assert !RecoverySpec(s2, flash, lay, bs).0.Return?;
      } else {
        assert !NormalSpec(s2, flash, lay, bs).0.Return?;
      }
    }
  }

  /** A stable previous boot: the flag is cleared and both strike counters are
      zeroed, while every other flag (the failure and recovery-starting flags
      and the reset-loop counter among them) is left for a later boot. */
  lemma StableBoot(s: Flags)
    requires FwStable in s
    ensures StrikeSpec(s).0 == Proceed(false)
    ensures FwStable !in StrikeSpec(s).1
    ensures FwFailCnt(StrikeSpec(s).1) == 0 && PrfFailCnt(StrikeSpec(s).1) == 0
    ensures forall g :: g != FwStable && !FwFailFlag(g) && !PrfFailFlag(g) ==> (g in StrikeSpec(s).1 <==> g in s)
    ensures ResetLoopCnt(StrikeSpec(s).1) == ResetLoopCnt(s)
  {
  }

  /** A firmware strike (a failure that was not a recovery start, see
      `StrikeTarget`): a count of three wraps to zero and requests recovery, a
      smaller count goes up by one, and no flag outside the counter changes. */
  lemma FirmwareStrike(s: Flags)
    ensures var cnt := FwFailCnt(s);
            && FwStrikeSpec(s).0 == Proceed(cnt == FW_FAIL_CNT_MAX)
            && FwFailCnt(FwStrikeSpec(s).1) == (if cnt == FW_FAIL_CNT_MAX then 0 else cnt + 1)
    ensures forall g :: !FwFailFlag(g) ==> (g in FwStrikeSpec(s).1 <==> g in s)
    ensures PrfFailCnt(FwStrikeSpec(s).1) == PrfFailCnt(s) && ResetLoopCnt(FwStrikeSpec(s).1) == ResetLoopCnt(s)
  {
  }

  /** A recovery strike (a failure while the recovery image was starting, see
      `StrikeTarget`): a count of three is cleared and the boot panics with
      PRF_UNSTABLE; a smaller count goes up by one and recovery is requested
      again. No flag outside the counter changes. */
  lemma RecoveryStrike(s: Flags)
    ensures var cnt := PrfFailCnt(s);
            && (PrfStrikeSpec(s).0 == if cnt == PRF_FAIL_CNT_MAX then PrfUnstable else Proceed(true))
            && PrfFailCnt(PrfStrikeSpec(s).1) == (if cnt == PRF_FAIL_CNT_MAX then 0 else cnt + 1)
    ensures forall g :: !PrfFailFlag(g) ==> (g in PrfStrikeSpec(s).1 <==> g in s)
    ensures FwFailCnt(PrfStrikeSpec(s).1) == FwFailCnt(s) && ResetLoopCnt(PrfStrikeSpec(s).1) == ResetLoopCnt(s)
  {
  }

  /** With a failure flag and no stable flag, the strike goes to the image the
      recovery-starting flag names, once the flags tested are cleared. */
  lemma StrikeTarget(s: Flags)
    requires FwStable !in s && SoftwareFailureOccurred in s
    ensures RecoveryStartInProgress in s ==>
              StrikeSpec(s) == PrfStrikeSpec(s - {SoftwareFailureOccurred, RecoveryStartInProgress})
    ensures RecoveryStartInProgress !in s ==> StrikeSpec(s) == FwStrikeSpec(s - {SoftwareFailureOccurred})
  {
    assert s - {FwStable} == s;
    assert s - {SoftwareFailureOccurred} - {RecoveryStartInProgress} == s - {SoftwareFailureOccurred, RecoveryStartInProgress};
    if RecoveryStartInProgress !in s {
      assert s - {SoftwareFailureOccurred} - {RecoveryStartInProgress} == s - {SoftwareFailureOccurred};
    }
  }

  /** Without a failure flag the strike accounting changes nothing. */
  lemma NoStrike(s: Flags)
    requires FwStable !in s && SoftwareFailureOccurred !in s
    ensures StrikeSpec(s) == (Proceed(false), s)
  {
    assert s - {FwStable} == s;
    assert s - {SoftwareFailureOccurred} == s;
  }

  /** The strike accounting never touches the reset-loop counter. */
  lemma StrikesKeepResetLoop(s: Flags)
    ensures ResetLoopCnt(StrikeSpec(s).1) == ResetLoopCnt(s)
  {
    if FwStable in s {
      StableBoot(s);
    } else if SoftwareFailureOccurred !in s {
      NoStrike(s);
    } else {
      StrikeTarget(s);
      RecoveryStrike(s - {SoftwareFailureOccurred, RecoveryStartInProgress});
      FirmwareStrike(s - {SoftwareFailureOccurred});
    }
  }

  /** The forced-recovery flag is consumed, and then the buttons are not
      sampled; when it is clear, the buttons decide and no flag changes. */
  lemma ManualRequest(s: Flags, b: Board)
    ensures ForcePrf in s ==> ManualSpec(s, b) == (true, s - {ForcePrf}, false)
    ensures ForcePrf !in s ==> ManualSpec(s, b) == (Buttons.Held(b.pins, b.holdMs), s, true)
  {
    if ForcePrf !in s {
      assert s - {ForcePrf} == s;
    }
  }

  /** The reset-loop counter: at seven it is cleared and the boot panics with
      RESET_LOOP, below it goes up by one; no other flag changes. */
  lemma ResetLoopCount(s: Flags)
    ensures var cnt := ResetLoopCnt(s);
            && ResetLoopSpec(s).0 == (cnt == RESET_LOOP_CNT_MAX)
            && ResetLoopCnt(ResetLoopSpec(s).1) == (if cnt == RESET_LOOP_CNT_MAX then 0 else cnt + 1)
    ensures forall g :: !ResetLoopFlag(g) ==> (g in ResetLoopSpec(s).1 <==> g in s)
    ensures FwFailCnt(ResetLoopSpec(s).1) == FwFailCnt(s) && PrfFailCnt(ResetLoopSpec(s).1) == PrfFailCnt(s)
  {
  }

  /** The recovery path jumps to the recovery image or panics with its error
      as PRF_LOAD_FAIL; it never touches the reset-loop counter. */
  lemma RecoveryPath(s: Flags, flash: Flash, lay: Layout, bs: nat)
    requires WellFormed(flash) && bs >= 1
    ensures var res := LoadPrfSpec(s, flash, 0, lay, bs).0;
            && (res.Failed? ==> RecoverySpec(s, flash, lay, bs) == (Halt(Panic.PrfLoadFail(res.err)), s))
            && (res.Jumped? ==> RecoverySpec(s, flash, lay, bs) == (Jump(res.addr), s + {RecoveryStartInProgress}))
    ensures ResetLoopCnt(RecoverySpec(s, flash, lay, bs).1) == ResetLoopCnt(s)
  {
    LoadPrfBits(s, flash, 0, lay, bs);
  }

  /** The normal path panics on a reset loop before any image is read, and
      otherwise jumps or panics with the load error as FW_LOAD_FAIL. */
  lemma NormalPath(s: Flags, flash: Flash, lay: Layout, bs: nat)
    requires WellFormed(flash) && bs >= 1
    ensures var s1 := ResetLoopSpec(s).1;
            var res := LoadSpec(s1, flash, 0, lay, bs).0;
            && (ResetLoopSpec(s).0 ==> NormalSpec(s, flash, lay, bs) == (Halt(Panic.RESET_LOOP), s1))
            && (!ResetLoopSpec(s).0 && res.Failed? ==> NormalSpec(s, flash, lay, bs).0 == Halt(Panic.FwLoadFail(res.err)))
            && (!ResetLoopSpec(s).0 && res.Jumped? ==> NormalSpec(s, flash, lay, bs).0 == Jump(res.addr))
  {
  }

  /** The button and flash setup of lines 28-38 succeeds. */
  predicate SetupSucceeds(b: Board)
  {
    Buttons.Init(b.pinsReady, b.configure).0 >= 0 && FirmwareInit(b.flashReady) >= 0
  }

  /** The boot reaches the reset-loop check of line 96: the setup succeeds,
      the strike accounting asks for no recovery and no manual request is made. */
  predicate NormalPathTaken(s: Flags, b: Board)
  {
    SetupSucceeds(b) && StrikeSpec(s).0 == Proceed(false) && !ManualSpec(StrikeSpec(s).1, b).0
  }

  /** The strike accounting never touches the forced-recovery flag. */
  lemma StrikesKeepForcePrf(s: Flags)
    ensures ForcePrf in StrikeSpec(s).1 <==> ForcePrf in s
  {
    assert !FwFailFlag(ForcePrf) && !PrfFailFlag(ForcePrf);
    if FwStable in s {
      StableBoot(s);
    } else if SoftwareFailureOccurred !in s {
      NoStrike(s);
    } else if RecoveryStartInProgress in s {
      StrikeTarget(s);
      var t := s - {SoftwareFailureOccurred, RecoveryStartInProgress};
      assert ForcePrf in t <==> ForcePrf in s;
      RecoveryStrike(t);
    } else {
      StrikeTarget(s);
      var t := s - {SoftwareFailureOccurred};
      assert ForcePrf in t <==> ForcePrf in s;
      FirmwareStrike(t);
    }
  }

  /** The normal path changes the reset-loop flags and, when it falls back to
      the recovery image, the recovery-starting flag; nothing else. */
  lemma NormalBits(s: Flags, flash: Flash, lay: Layout, bs: nat)
    requires WellFormed(flash) && bs >= 1
    ensures var t := ResetLoopSpec(s).1;
            NormalSpec(s, flash, lay, bs).1 == t || NormalSpec(s, flash, lay, bs).1 == t + {RecoveryStartInProgress}
  {
    if !ResetLoopSpec(s).0 {
      LoadBits(ResetLoopSpec(s).1, flash, 0, lay, bs);
    }
  }

  /** Line 78: `FORCE_PRF` is consumed only when the strike accounting asked for
      no recovery. When recovery is already requested, or the boot panics with
      PRF_UNSTABLE, the flag stays set for a later boot. */
  lemma ForcePrfConsumedOnlyWithoutRequest(s: Flags, b: Board, flash: Flash, lay: Layout, bs: nat)
    requires WellFormed(flash) && bs >= 1 && SetupSucceeds(b)
    ensures ForcePrf in BootSpec(s, b, flash, lay, bs).1 <==> ForcePrf in s && StrikeSpec(s).0 != Proceed(false)
  {
    var (st, s1) := StrikeSpec(s);
    StrikesKeepForcePrf(s);
    if st.Proceed? {
      if st.prfRequested {
        RecoveryPath(s1, flash, lay, bs);
      } else {
        ManualRequest(s1, b);
        var (requested, s2, _) := ManualSpec(s1, b);
        assert ForcePrf !in s2;
        if requested {
          RecoveryPath(s2, flash, lay, bs);
        } else {
          NormalBits(s2, flash, lay, bs);
          ResetLoopCount(s2);
        }
      }
    }
  }

  /** The reset-loop counter reads only its own three flags. */
  lemma ResetLoopCntOther(t: Flags, g: Flag)
    requires !ResetLoopFlag(g)
    ensures ResetLoopCnt(t + {g}) == ResetLoopCnt(t) && ResetLoopCnt(t - {g}) == ResetLoopCnt(t)
  {
    assert Val(t + {g}, ResetLoopDetectOne) == Val(t, ResetLoopDetectOne);
    assert Val(t + {g}, ResetLoopDetectTwo) == Val(t, ResetLoopDetectTwo);
    assert Val(t + {g}, ResetLoopDetectThree) == Val(t, ResetLoopDetectThree);
    assert Val(t - {g}, ResetLoopDetectOne) == Val(t, ResetLoopDetectOne);
    assert Val(t - {g}, ResetLoopDetectTwo) == Val(t, ResetLoopDetectTwo);
    assert Val(t - {g}, ResetLoopDetectThree) == Val(t, ResetLoopDetectThree);
  }

  /** The normal path always moves the reset-loop counter. */
  lemma NormalMovesResetLoop(s: Flags, flash: Flash, lay: Layout, bs: nat)
    requires WellFormed(flash) && bs >= 1
    ensures ResetLoopCnt(NormalSpec(s, flash, lay, bs).1) != ResetLoopCnt(s)
  {
    NormalBits(s, flash, lay, bs);
    ResetLoopCount(s);
    ResetLoopCntOther(ResetLoopSpec(s).1, RecoveryStartInProgress);
  }

  /** Only the normal path moves the reset-loop counter, and it always does:
      every other way through `main` leaves the count it found. */
  lemma ResetLoopMovesOnlyOnNormalPath(s: Flags, b: Board, flash: Flash, lay: Layout, bs: nat)
    requires WellFormed(flash) && bs >= 1
    ensures ResetLoopCnt(BootSpec(s, b, flash, lay, bs).1) != ResetLoopCnt(s) <==> NormalPathTaken(s, b)
  {
    if SetupSucceeds(b) {
      var (st, s1) := StrikeSpec(s);
      StrikesKeepResetLoop(s);
      if st.Proceed? && !st.prfRequested {
        ManualRequest(s1, b);
        var (requested, s2, _) := ManualSpec(s1, b);
        ResetLoopCntOther(s1, ForcePrf);
        assert ResetLoopCnt(s2) == ResetLoopCnt(s1);
        if requested {
          RecoveryPath(s2, flash, lay, bs);
          assert BootSpec(s, b, flash, lay, bs) == RecoverySpec(s2, flash, lay, bs);
        } else {
          NormalMovesResetLoop(s2, flash, lay, bs);
          assert BootSpec(s, b, flash, lay, bs) == NormalSpec(s2, flash, lay, bs);
        }
      } else if st.Proceed? {
        RecoveryPath(s1, flash, lay, bs);
        assert BootSpec(s, b, flash, lay, bs) == RecoverySpec(s1, flash, lay, bs);
      }
    }
  }

  // ---------------------------------------------------------------- main

  /** Lines 41-75 on the register `bits`. */
  method CountStrikes(bits: BootBits) returns (st: Strikes)
    modifies bits
    ensures (st, bits.Flags()) == StrikeSpec(old(bits.Flags()))
  {
    var stable := bits.FwStableTstAndClr();
    if stable {
      bits.FwFailCntSet(0);
      bits.PrfFailCntSet(0);
      return Proceed(false);
    }
    var failed := bits.FwFailTstAndClr();
    if !failed {
      return Proceed(false);
    }
    var starting := bits.PrfStartingTstAndClr();
    if starting {
      st := CountPrfStrike(bits);
    } else {
      st := CountFwStrike(bits);
    }
  }

  /** Lines 47-61 on the register `bits`. */
  method CountPrfStrike(bits: BootBits) returns (st: Strikes)
    modifies bits
    ensures (st, bits.Flags()) == PrfStrikeSpec(old(bits.Flags()))
  {
    var cnt := PrfFailCnt(bits.Flags());
    if cnt == PRF_FAIL_CNT_MAX {
      bits.PrfFailCntSet(0);
      return PrfUnstable;
    }
    cnt := cnt + 1;
    bits.PrfFailCntSet(cnt);
    return Proceed(true);
  }

  /** Lines 62-72 on the register `bits`. */
  method CountFwStrike(bits: BootBits) returns (st: Strikes)
    modifies bits
    ensures (st, bits.Flags()) == FwStrikeSpec(old(bits.Flags()))
  {
    var cnt := FwFailCnt(bits.Flags());
    if cnt == FW_FAIL_CNT_MAX {
      bits.FwFailCntSet(0);
      return Proceed(true);
    }
    cnt := cnt + 1;
    bits.FwFailCntSet(cnt);
    return Proceed(false);
  }

  /** Lines 78-85 on the register `bits`. */
  method ManualCheck(bits: BootBits, b: Board) returns (requested: bool, ghost sampled: bool)
    modifies bits
    ensures (requested, bits.Flags(), sampled) == ManualSpec(old(bits.Flags()), b)
  {
    var forced := bits.ForcePrfTstAndClr();
    if forced {
      return true, false;
    }
    var held, _ := Buttons.PrfRequested(b.pins, b.holdMs);
    return held, true;
  }

  /** Lines 96-111 on the register `bits`. */
  method BootNormal(bits: BootBits, flash: Flash, lay: Layout, buf: array<bv8>) returns (out: Outcome)
    requires WellFormed(flash) && buf.Length >= 1
    modifies bits, buf
    ensures (out, bits.Flags()) == NormalSpec(old(bits.Flags()), flash, lay, buf.Length)
  {
    var rstLoopCnt := ResetLoopCnt(bits.Flags());
    if rstLoopCnt == RESET_LOOP_CNT_MAX {
      bits.ResetLoopCntSet(0);
      return Halt(Panic.RESET_LOOP);
    }
    rstLoopCnt := rstLoopCnt + 1;
    bits.ResetLoopCntSet(rstLoopCnt);
    var res, _ := LoadFirmware(bits, flash, 0, lay, buf);
    match res
    case Jumped(a) => return Jump(a);
    case Failed(e) => return Halt(Panic.FwLoadFail(e));
  }

  /** Lines 87-93 on the register `bits`. */
  method BootRecovery(bits: BootBits, flash: Flash, lay: Layout, buf: array<bv8>) returns (out: Outcome)
    requires WellFormed(flash) && buf.Length >= 1
    modifies bits, buf
    ensures (out, bits.Flags()) == RecoverySpec(old(bits.Flags()), flash, lay, buf.Length)
  {
    var res, _ := LoadPrf(bits, flash, 0, lay, buf);
    match res
    case Jumped(a) => return Jump(a);
    case Failed(e) => return Halt(Panic.PrfLoadFail(e));
  }

  /** `main` on the boot-bit register `bits`, with the flash read buffer `buf`. */
  method Run(bits: BootBits, b: Board, flash: Flash, lay: Layout, buf: array<bv8>) returns (out: Outcome)
    requires WellFormed(flash) && buf.Length >= 1
    modifies bits, buf
    ensures (out, bits.Flags()) == BootSpec(old(bits.Flags()), b, flash, lay, buf.Length)
  {
    var ret := Buttons.Init(b.pinsReady, b.configure).0;
    if ret < 0 {
      return Return(0);
    }
    ret := FirmwareInit(b.flashReady);
    if ret < 0 {
      return Halt(Panic.INIT_FAIL);
    }
    var st := CountStrikes(bits);
    if st.PrfUnstable? {
      return Halt(Panic.PRF_UNSTABLE);
    }
    var prfRequested := st.prfRequested;
    if !prfRequested {
      ghost var sampled;
      prfRequested, sampled := ManualCheck(bits, b);
    }
    if prfRequested {
      out := BootRecovery(bits, flash, lay, buf);
    } else {
      out := BootNormal(bits, flash, lay, buf);
    }
  }
}
