# pblboot boot decision, in Dafny

A model of the second-stage bootloader of a wearable device (pblboot) and of
the small codecs beside it, with the properties its code promises proved by
the Dafny verifier.

- `bootbit.dfy` (`BootBit`): the persistent boot bits. They live in an RTC
  backup register that survives a warm reset. The model has the single-bit
  primitives `set`/`clr`/`tst`/`init` on a bit-addressed memory
  (`BootBits`, a class whose `mem` field the methods update). It also has
  the 2-bit firmware and recovery (PRF) strike counters, the 3-bit
  reset-loop counter and the one-shot test-and-clear flags. The enumerators
  are masks (`BIT(n)`). The backend passes them to Zephyr's bitfield helpers,
  which read them as bit numbers. `Reading` keeps both interpretations
  (`EnumAsIndex`, as written; `EnumAsMask`, as intended), and the lemmas
  show where they disagree.
- `crc32.dfy` (`Crc32`): the CRC-32 of the frame check sequence of section
  3.2.9 of IEEE 802.3. It uses the reflected polynomial 0xEDB88320, a preset
  of all ones and a final complement, defined bit by bit, with the
  chunked-update law and the standard check value.
- `bytes.dfy` (`Bytes`): little-endian 32/64-bit and big-endian 16-bit byte
  layouts.
- `firmware.dfy` (`Firmware`): the packed image header, the 5-try header
  fetch, the chunked CRC check of the payload, the A/B slot choice by
  timestamp and the fallback to the recovery image. Flash is an oracle:
  read number `k` of request `rq` answers `flash(k, rq)`. Jumps are a
  terminal `Jumped(addr)`.
- `boot.dfy` (`Boot`): `main`, the once-per-boot state machine. It is a
  specification function `BootSpec` and a method `Run` on a `BootBits`
  register, proved equal. Outcomes are `Jump(addr)`, `Halt(reason)` (a
  panic) or `Return(code)`.
- `panic.dfy` (`Panic`): the 32-bit panic reason codes.
- `cobs.dfy` (`Cobs`): the COBS encoder `pb_cobs_encode`, in place over
  arrays, both as written and with its full-block split working. It also
  has the buffer-size macros and a standard decoder for the round trip.
- `console.dfy` (`Console`): the log console, a class over the static
  256-byte `msg_buf` and `msg_len`. The UART output is a sequence of bytes.
- `buttons.dfy` (`Buttons`) and `charger.dfy` (`Charger`): the recovery
  button combination, its hold check, the button setup chain and the
  fail-open battery gate. Pin samples and sensor results are inputs.

Points where the code's behaviour is easy to misread:

- `sizeof(struct firmware_header)` with `__packed` is 4+4+8+4+4+4 = 28
  bytes, so the fetch accepts `header_length == 28`, the `sizeof` of the
  packed struct.
- `main` tests `FW_STABLE` first. Only when it is clear does it test
  `SOFTWARE_FAILURE_OCCURRED`, and only inside that branch does it test
  `RECOVERY_START_IN_PROGRESS`. A recovery start that crashed without
  setting the failure flag is therefore not counted.
- Below three strikes, a recovery strike requests recovery again; it does not
  fall through to a normal boot.
- The reset-loop counter is not cleared when `FW_STABLE` is seen. It is
  changed only by the reset-loop step, which wraps at 7 and panics.

## Model

| member | source | states |
|---|---|---|
| `BootBit.EnumValue` | include/pb/bootbit.h:26-59 | each enumerator's value is the mask `2^n` of its `BIT(n)` |
| `BootBit.EnumValuesDistinct` | include/pb/bootbit.h:26-59 | the enumerators are pairwise-distinct single-bit masks |
| `BootBit.MaxIffAllSet` | include/pb/bootbit.h:13-18 | each MAX constant is the largest value its counter can hold: the counter reads MAX exactly when all of its flags are set |
| `BootBit.IndexLoc` | lib/pb/bootbit/bootbit_sf32lb.c:22-35 | an enumerator taken as a bit number addresses word `v / 32`, bit `v % 32` |
| `BootBit.LocInjective` | lib/pb/bootbit/bootbit_sf32lb.c:22-35 | under either reading, distinct flags occupy distinct bits |
| `BootBit.AsIndexWordZero` | lib/pb/bootbit/bootbit_sf32lb.c:24 | as written, only the five smallest masks address the backup word itself; the others address words 1 to 8192 past it |
| `BootBit.SetBit` | lib/pb/bootbit/bootbit_sf32lb.c:24 | after setting a bit it reads 1 and every other bit is unchanged |
| `BootBit.ClrBit` | lib/pb/bootbit/bootbit_sf32lb.c:29 | after clearing a bit it reads 0 and every other bit is unchanged |
| `BootBit.WriteWord` | lib/pb/bootbit/bootbit_sf32lb.c:18 | a word write replaces all 32 bits of that word by the value's bits and leaves every other word unchanged |
| `BootBit.SetFlag` | lib/pb/bootbit/bootbit_sf32lb.c:22-25 | after `set(f)`, `tst(f)` holds and `tst(g)` is unchanged for every other flag `g` |
| `BootBit.ClrFlag` | lib/pb/bootbit/bootbit_sf32lb.c:27-30 | after `clr(f)`, `tst(f)` fails and `tst(g)` is unchanged for every other flag `g` |
| `BootBit.InitMem` | lib/pb/bootbit/bootbit_sf32lb.c:15-20 | with `tst(INITIALIZED)` the memory is unchanged; otherwise word 0 becomes exactly the value 1 (bit 0 alone), dropping its other bits, and no other word changes |
| `BootBit.InitIdempotentAsMask` | lib/pb/bootbit/bootbit_sf32lb.c:17-18 | reading masks as masks, `tst(INITIALIZED)` holds after init, so a second init changes nothing |
| `BootBit.InitNeverSticksAsIndex` | lib/pb/bootbit/bootbit_sf32lb.c:17-18 | as written, init on an uninitialized register leaves `tst(INITIALIZED)` false and the firmware strike count at 0 |
| `BootBit.InitWipesWordZeroAsIndex` | lib/pb/bootbit/bootbit_sf32lb.c:18 | as written, such an init clears every flag that lives in word 0 |
| `BootBit.StrikesSurviveReinitAsMask` | lib/pb/bootbit/bootbit_sf32lb.c:15-20 | reading masks as masks, two firmware strikes recorded after one init survive the next init |
| `BootBit.StrikesLostOnReinitAsIndex` | lib/pb/bootbit/bootbit_sf32lb.c:15-20 | as written, and taking `sys_write32` to store the mask into the backup word, starting from a register that is not initialized the same two strikes are lost at the next init |
| `BootBit.ViewSet` | lib/pb/bootbit/bootbit_sf32lb.c:22-25 | setting a flag's bit adds exactly that flag to the set of flags held |
| `BootBit.ViewClr` | lib/pb/bootbit/bootbit_sf32lb.c:27-30 | clearing a flag's bit removes exactly that flag |
| `BootBit.FwFailCnt` | include/pb/bootbit.h:95-103 | `pb_bootbit_fw_fail_cnt_get` is in 0..3 |
| `BootBit.PrfFailCnt` | include/pb/bootbit.h:130-138 | `pb_bootbit_prf_fail_cnt_get` is in 0..3 |
| `BootBit.ResetLoopCnt` | include/pb/bootbit.h:209-218 | `pb_bootbit_reset_loop_cnt_get` is in 0..7 |
| `BootBit.LowBits` | include/pb/bootbit.h:112-122 | the bits `cnt & BIT(0)`, `cnt & BIT(1)` (and `BIT(2)`) put back together are `cnt mod 4` (`cnt mod 8`) |
| `BootBit.SetFwFailCnt` | include/pb/bootbit.h:110-123 | setting then getting the firmware count yields `cnt & 3`; no flag outside the counter changes, and both other counters keep their values |
| `BootBit.SetPrfFailCnt` | include/pb/bootbit.h:145-158 | setting then getting the recovery count yields `cnt & 3`; no other flag or counter changes |
| `BootBit.SetResetLoopCnt` | include/pb/bootbit.h:225-242 | setting then getting the reset-loop count yields `cnt & 7`; no other flag or counter changes |
| `BootBit.TestAndClear` | include/pb/bootbit.h:166-176 | a test-and-clear returns the flag's prior value and leaves it clear, with every other flag unchanged |
| `BootBit.TestAndClearTwice` | include/pb/bootbit.h:192-202 | an immediate second test-and-clear returns false and changes nothing |
| `BootBit.BootBits.Tst` | lib/pb/bootbit/bootbit_sf32lb.c:32-35 | `tst(f)` holds exactly when `f` is among the flags the register holds |
| `BootBit.BootBits.Set` | lib/pb/bootbit/bootbit_sf32lb.c:22-25 | the register's memory becomes `SetFlag` of the old one: the flags held gain exactly `f` |
| `BootBit.BootBits.Clr` | lib/pb/bootbit/bootbit_sf32lb.c:27-30 | the flags held lose exactly `f` |
| `BootBit.BootBits.Init` | lib/pb/bootbit/bootbit_sf32lb.c:15-20 | the memory becomes `InitMem` of the old one |
| `BootBit.BootBits.FwFailCntSet` | include/pb/bootbit.h:110-123 | the flags become `SetFwFailCnt` of the old ones, and only the counter's two bits of memory change |
| `BootBit.BootBits.PrfFailCntSet` | include/pb/bootbit.h:145-158 | the flags become `SetPrfFailCnt` of the old ones, and only the counter's two bits change |
| `BootBit.BootBits.ResetLoopCntSet` | include/pb/bootbit.h:225-242 | the flags become `SetResetLoopCnt` of the old ones, and only the counter's three bits change |
| `BootBit.BootBits.TstAndClr` | include/pb/bootbit.h:166-176 | returns the prior value; the bit is cleared only when it was set, otherwise the memory is untouched |
| `BootBit.BootBits.PrfStartingTstAndClr` | include/pb/bootbit.h:166-176 | test-and-clear of `RECOVERY_START_IN_PROGRESS`; the memory changes only by clearing that flag's bit, and only when it was set |
| `BootBit.BootBits.PrfStartingSet` | include/pb/bootbit.h:181-184 | adds `RECOVERY_START_IN_PROGRESS`, so a following `PrfStartingTstAndClr` returns true; the memory changes only by setting that flag's bit |
| `BootBit.BootBits.FwFailTstAndClr` | include/pb/bootbit.h:192-202 | test-and-clear of `SOFTWARE_FAILURE_OCCURRED`; the memory changes only by clearing that flag's bit, and only when it was set |
| `BootBit.BootBits.FwStableTstAndClr` | include/pb/bootbit.h:250-260 | test-and-clear of `FW_STABLE`; the memory changes only by clearing that flag's bit, and only when it was set |
| `BootBit.BootBits.ForcePrfTstAndClr` | include/pb/bootbit.h:268-278 | test-and-clear of `FORCE_PRF`; the memory changes only by clearing that flag's bit, and only when it was set |
| `Crc32.UpdateAppend` | boot/src/firmware.c:86-97 | updating the CRC with `a` and then `b` equals updating with `a + b`, whatever the split |
| `Crc32.UpdateEmpty` | boot/src/firmware.c:86 | `crc32_ieee(NULL, 0)` is 0 and an empty update is the identity |
| `Crc32Check.CheckValue` | boot/src/firmware.c:97 | the CRC of "123456789" is the IEEE 802.3 check value 0xCBF43926 |
| `Firmware.ParseSerialize` | boot/src/firmware.c:30-37 | parsing the packed little-endian 28-byte layout of a header gives the header back |
| `Firmware.SerializeParse` | boot/src/firmware.c:30-37 | every 28-byte image is the layout of the header parsed from it |
| `Firmware.AcceptedImageIff` | boot/src/firmware.c:59-67 | a header is accepted exactly when its first eight bytes encode 0x96f3b83d and 28 |
| `Firmware.FetchCode` | boot/src/firmware.c:42-77 | the fetch returns 0 exactly for a found header, a failed read's error unchanged, and `-EINVAL` when nothing was found |
| `Firmware.GiveUpLooksLikeReadError` | boot/src/firmware.c:49-76 | a fetch that gives up returns the same value as a `flash_read` that fails with `-EINVAL`, so the two cannot be told apart |
| `Firmware.FetchFromFault` | boot/src/firmware.c:49-53 | a failing read ends the fetch at once with its error, with no further try |
| `Firmware.FetchFromData` | boot/src/firmware.c:59-73 | an accepted header ends the fetch; a rejected one moves on to the next try |
| `Firmware.FetchBounds` | boot/src/firmware.c:44 | the fetch makes at least one and at most five reads, and gives up only after the fifth |
| `Firmware.FetchRejected` | boot/src/firmware.c:59-67 | every read before the last, and every read of a fetch that gives up, returned a rejected image |
| `Firmware.FetchFoundLast` | boot/src/firmware.c:59-73 | a found header is accepted and is exactly what the last read returned |
| `Firmware.FetchFailedLast` | boot/src/firmware.c:49-53 | a read error is the error of the last read |
| `Firmware.FetchGivesUp` | boot/src/firmware.c:44-76 | the fetch yields `-EINVAL` exactly when all five reads returned rejected images |
| `Firmware.FetchHeader` | boot/src/firmware.c:42-77 | the retry loop returns what `FetchFrom` specifies, with the number of reads made |
| `Firmware.PlanTotal` | boot/src/firmware.c:87-101 | the chunked reads cover exactly `hdr.length` bytes |
| `Firmware.PlanChunks` | boot/src/firmware.c:88-100 | the reads start at `address + start_offset` and are contiguous chunks of `min(bufsize, pending)`, never empty |
| `Firmware.ChunkedPlan` | boot/src/firmware.c:89-101 | the loop makes exactly the reads of the plan, in order |
| `Firmware.ReadChunksOutcome` | boot/src/firmware.c:91-95 | the reads either all succeed and deliver `hdr.length` bytes, or stop at the first failure and return its error |
| `Firmware.ValidateSpec` | boot/src/firmware.c:79-110 | validation never returns a positive value: 0 is the only non-negative answer |
| `Firmware.ReadChunksStatic` | boot/src/firmware.c:89-101 | on unchanging flash the chunked reads deliver exactly the payload bytes, for every buffer size |
| `Firmware.ValidateStatic` | boot/src/firmware.c:103-109 | on unchanging flash validation returns 0 exactly when the CRC-32 of the whole payload equals `hdr.crc`, and `-EIO` otherwise |
| `Firmware.ValidateBufferIndependent` | boot/src/firmware.c:90 | on unchanging flash the verdict is the same for any two buffer sizes |
| `Firmware.Validate` | boot/src/firmware.c:79-110 | the while loop, which updates the CRC chunk by chunk, returns exactly `ValidateSpec`: the CRC it accumulates is the CRC of the bytes read |
| `Firmware.FlashRead` | boot/src/firmware.c:91 | a read returns the oracle's reply and, on success, fills the first `len` bytes of `buf` |
| `Firmware.FetchSame` | boot/src/firmware.c:44-76 | when every try reads the same image, the fetch finds it at the next try or gives up after the fifth |
| `Firmware.FetchStatic` | boot/src/firmware.c:44-76 | on unchanging flash the first read decides: found, or `-EINVAL` after five reads |
| `Firmware.ProbeSpec` | boot/src/firmware.c:160-170 | an image judged valid has an accepted header |
| `Firmware.ProbeSteps` | boot/src/firmware.c:128-138 | a header not found gives `-EINVAL`; a found header is then validated, and its verdict decides |
| `Firmware.ProbeStatic` | boot/src/firmware.c:128-138 | on unchanging flash an image is valid exactly when its header is accepted and its payload CRC matches; otherwise `-EINVAL` or `-EIO` |
| `Firmware.ChooseSlot` | boot/src/firmware.c:185-204 | a chosen slot is a valid one |
| `Firmware.ChooseSlotCases` | boot/src/firmware.c:185-204 | with both slots valid, slot1 wins exactly when `ts1 > ts0` (ties go to slot0); with one valid, that one; with none, the recovery fallback |
| `Firmware.ChooseSlotNewest` | boot/src/firmware.c:185-204 | the chosen slot holds the newest valid image, and an invalid slot's timestamp never matters |
| `Firmware.SlotLoadOutcome` | boot/src/firmware.c:165-204 | a slot jump goes to `FLASH_BASE + slot + start_offset` of the newest valid slot and keeps the boot bits; with no valid slot the recovery load decides |
| `Firmware.LoadPrfBits` | boot/src/firmware.c:128-146 | the recovery load jumps exactly when the recovery image is valid, setting only `RECOVERY_START_IN_PROGRESS` and jumping to `FLASH_BASE + PRF_ADDR + start_offset`; on failure it returns the error and changes no boot bit |
| `Firmware.LoadFailure` | boot/src/firmware.c:149-204 | a failing load found neither slot valid, returns the recovery image's error and changes no boot bit |
| `Firmware.LoadBits` | boot/src/firmware.c:149-204 | the only boot bit a load can change is `RECOVERY_START_IN_PROGRESS`, set when it falls back to the recovery image and jumps there |
| `Firmware.FirmwareInit` | boot/src/firmware.c:112-120 | `pb_firmware_init` returns 0 exactly when the flash is ready, and `-ENODEV` otherwise |
| `Firmware.ProbeImage` | boot/src/firmware.c:160-170 | the fetch-then-validate sequence returns exactly `ProbeSpec` |
| `Firmware.LoadPrf` | boot/src/firmware.c:122-147 | `pb_firmware_load_prf` on the register returns, and sets, exactly what `LoadPrfSpec` says |
| `Firmware.LoadFirmware` | boot/src/firmware.c:149-205 | `pb_firmware_load` on the register returns, and sets, exactly what `LoadSpec` says |
| `Boot.InitFailures` | boot/src/main.c:28-38 | a failed button setup returns 0 with no boot bit changed; a flash not ready panics with `INIT_FAIL` before any boot bit is touched |
| `Boot.ReturnsOnlyWithoutButtons` | boot/src/main.c:28-111 | `main` returns only after a failed button setup; every other boot jumps or panics |
| `Boot.StableBoot` | boot/src/main.c:41-45 | a stable previous boot clears `FW_STABLE` and zeroes both strike counters; `SOFTWARE_FAILURE_OCCURRED`, `RECOVERY_START_IN_PROGRESS` and the reset-loop counter are left as they were |
| `Boot.FirmwareStrike` | boot/src/main.c:62-74 | a firmware count of 3 becomes 0 and requests recovery, a smaller one goes up by one; nothing outside the counter changes |
| `Boot.RecoveryStrike` | boot/src/main.c:49-61 | a recovery count of 3 becomes 0 and panics with `PRF_UNSTABLE`, a smaller one goes up by one and requests recovery; nothing outside the counter changes |
| `Boot.StrikeTarget` | boot/src/main.c:46-49 | with a failure and no stable flag, the strike counts against recovery exactly when `RECOVERY_START_IN_PROGRESS` was set |
| `Boot.NoStrike` | boot/src/main.c:41-46 | without a stable or failure flag the strike step changes nothing |
| `Boot.StrikesKeepResetLoop` | boot/src/main.c:40-75 | the strike step never changes the reset-loop counter |
| `Boot.ManualRequest` | boot/src/main.c:78-85 | `FORCE_PRF` is consumed and then the buttons are not sampled; when it is clear, the button hold check decides and no flag changes |
| `Boot.ResetLoopCount` | boot/src/main.c:96-104 | a reset-loop count of 7 becomes 0 and panics with `RESET_LOOP`, a smaller one goes up by one; no other flag changes |
| `Boot.RecoveryPath` | boot/src/main.c:87-93 | the recovery path jumps to the recovery image, or panics with `PRF_LOAD_FAIL(ret)` and no boot bit changed; the reset-loop counter is never touched |
| `Boot.NormalPath` | boot/src/main.c:96-111 | a reset loop panics before any image is read; otherwise the load jumps or panics with `FW_LOAD_FAIL(ret)` |
| `Boot.StrikesKeepForcePrf` | boot/src/main.c:40-75 | the strike step never changes `FORCE_PRF` |
| `Boot.NormalBits` | boot/src/main.c:96-111 | besides the reset-loop flags, the normal path can only set `RECOVERY_START_IN_PROGRESS`, when the load falls back to the recovery image |
| `Boot.ForcePrfConsumedOnlyWithoutRequest` | boot/src/main.c:78-79 | after a successful setup, `main` leaves `FORCE_PRF` set exactly when it was set and the strike step asked for recovery or panicked with `PRF_UNSTABLE`; it is consumed only when no recovery was already requested |
| `Boot.ResetLoopCntOther` | include/pb/bootbit.h:209-218 | the reset-loop counter reads only its own three flags |
| `Boot.NormalMovesResetLoop` | boot/src/main.c:96-104 | the normal path always changes the reset-loop counter |
| `Boot.ResetLoopMovesOnlyOnNormalPath` | boot/src/main.c:78-104 | `main` leaves the reset-loop counter with a different value exactly when it takes the normal path (setup succeeded, no recovery requested by strikes, `FORCE_PRF` or the buttons) |
| `Boot.CountStrikes` | boot/src/main.c:40-75 | the strike step on the register returns, and sets, exactly `StrikeSpec` |
| `Boot.CountPrfStrike` | boot/src/main.c:49-61 | the recovery strike on the register is exactly `PrfStrikeSpec` |
| `Boot.CountFwStrike` | boot/src/main.c:62-74 | the firmware strike on the register is exactly `FwStrikeSpec` |
| `Boot.ManualCheck` | boot/src/main.c:77-85 | the manual request on the register is exactly `ManualSpec` |
| `Boot.BootNormal` | boot/src/main.c:95-111 | the reset-loop step and slot load on the register are exactly `NormalSpec` |
| `Boot.BootRecovery` | boot/src/main.c:87-93 | the recovery load on the register is exactly `RecoverySpec` |
| `Boot.Run` | boot/src/main.c:20-114 | `main` on the register returns the outcome and the final flags of `BootSpec` |
| `Panic.Low16` | boot/src/panic.h:28 | `(uint16_t)(-(err))` is below 2^16 and equals `-err` for -65535 <= err <= -1 |
| `Panic.FwLoadFailBits` | boot/src/panic.h:28 | `FW_LOAD_FAIL(err)` has bit 16 set and bits 17 and 27 clear, and its low 16 bits give `err` back for -65535 <= err <= -1 |
| `Panic.PrfLoadFailBits` | boot/src/panic.h:33 | `PRF_LOAD_FAIL(err)` has bit 17 set and bits 16 and 27 clear, with the same low half |
| `Panic.SystemBits` | boot/src/panic.h:39 | `SYSTEM(code)` has bit 27 set, keeps bits 0-26 of `code` and has no higher bit |
| `Panic.FamiliesDisjoint` | boot/src/panic.h:19-39 | no `FW_LOAD_FAIL` code is a `PRF_LOAD_FAIL` code or one of 1-3, and no `SYSTEM` code is any of those |
| `Panic.LoadFailInjective` | boot/src/panic.h:28-33 | within each load-failure family the code determines the error |
| `Panic.LoadFailWraps` | boot/src/panic.h:28 | errors that agree modulo 2^16 collide: -65536 gives the same code as 0 |
| `Cobs.OverheadIsCeiling` | include/pb/cobs.h:12-15 | `PB_COBS_OVERHEAD(n)` is the ceiling of n/254, and `PB_COBS_MAX_ENC_SIZE(n) >= n` |
| `Cobs.AsWrittenLength` | lib/pb/cobs/cobs.c:15-35 | the encoder as written outputs one byte per input byte and one code byte besides |
| `Cobs.AsWrittenRun` | lib/pb/cobs/cobs.c:22-24 | non-zero input bytes are copied in order into the current block |
| `Cobs.AsWrittenZeroFree` | lib/pb/cobs/cobs.c:18-33 | while every run is at most 254 long, the output as written has no zero byte |
| `Cobs.AsWrittenAgrees` | lib/pb/cobs/cobs.c:17-33 | while every run is at most 253 long, the output as written is the standard encoding |
| `Cobs.EncodeAsWrittenCorrect` | lib/pb/cobs/cobs.c:9-36 | as written the length is `len + 1`; the output is zero-free for runs up to 254 and decodes back to the input for runs up to 253 |
| `Cobs.FullRunLosesZero` | lib/pb/cobs/cobs.c:24-25 | as written, 254 non-zero bytes and a zero encode with code 0xFF and decode without the zero |
| `Cobs.FullRunExample` | lib/pb/cobs/cobs.c:24-25 | a concrete input for the previous row: 254 bytes of 0x01 and a zero |
| `Cobs.LongRunWraps` | lib/pb/cobs/cobs.c:13-24 | as written, a run of 255 non-zero bytes wraps the `uint8_t` code to 0 and the output does not decode |
| `Cobs.BlocksLonger` | lib/pb/cobs/cobs.c:15-35 | the encoding is at least one byte longer than the input |
| `Cobs.BlocksShort` | include/pb/cobs.h:15 | the encoding of n >= 1 bytes has at most `n + 1 + (n - 1) / 254` bytes |
| `Cobs.BlocksZeroFree` | lib/pb/cobs/cobs.c:18-33 | the encoding with the full-block split has no zero byte |
| `Cobs.BlocksDecode` | lib/pb/cobs/cobs.c:17-33 | decoding the encoding with the full-block split gives the input back |
| `Cobs.EncodeCorrect` | include/pb/cobs.h:12-15 | the standard encoding round-trips, is zero-free, has at least `len + 1` bytes and fits `PB_COBS_MAX_ENC_SIZE(len)` from `len >= 1` on |
| `Cobs.EmptyInputOverflows` | include/pb/cobs.h:15 | `PB_COBS_MAX_ENC_SIZE(0)` is 0, yet the encoder writes one byte for the empty input |
| `Cobs.CloseBlock` | lib/pb/cobs/cobs.c:19-21 | writing the code byte closes the current block and opens the next one |
| `Cobs.CopyByte` | lib/pb/cobs/cobs.c:23-24 | copying a non-zero byte extends the current run and advances the code |
| `Cobs.CloseLast` | lib/pb/cobs/cobs.c:33 | the final code write completes the output |
| `Cobs.EncodeToAsWritten` | lib/pb/cobs/cobs.c:9-36 | the loop as written returns `len + 1`, writes the as-written encoding into `dst[0..len]` and nothing beyond it; its split test never holds |
| `Cobs.EncodeTo` | lib/pb/cobs/cobs.c:9-36 | the loop with a working split writes the standard encoding and nothing beyond it, and returns its length |
| `Console.FrameCorrect` | drivers/console/pulse_uart_console.c:93-102 | a frame starts and ends with 0x55, has no 0x55 in between, and a receiver gets the packet back |
| `Console.UnescapeEscape` | drivers/console/pulse_uart_console.c:96-100 | the 0x55-to-0x00 substitution is undone on any zero-free encoding |
| `Console.PacketCrc` | drivers/console/pulse_uart_console.c:86-88 | the four bytes after the message are its CRC-32, little-endian |
| `Console.MessageLayout` | drivers/console/pulse_uart_console.c:28-72 | header bytes 0-3 and 6-34 keep their initial values, bytes 4-5 hold `msg_len - 2` big-endian, and the text follows |
| `Console.PacketEncodingAgrees` | drivers/console/pulse_uart_console.c:91 | for every packet the console sends, the encoder as written and the one with the split produce the same bytes |
| `Console.NextLenAsWrittenBounded` | drivers/console/pulse_uart_console.c:104-108 | as written, `msg_len` stays in 35..256; a newline resets it to 35 and `'\r'` is never stored |
| `Console.FillAsWritten` | drivers/console/pulse_uart_console.c:106-107 | as written, n ordinary characters (no newline, no `'\r'`) take `msg_len` to `min(msg_len + n, 256)` |
| `Console.CrcOverrunsAsWritten` | drivers/console/pulse_uart_console.c:87-88 | as written, 221 or more ordinary characters bring `msg_len` to 256, and the CRC store then writes past the buffer |
| `Console.NextLenBounded` | drivers/console/pulse_uart_console.c:104-108 | with the limit lowered to 252, `msg_len` stays in 35..252 and the CRC always fits |
| `Console.Console.Out` | drivers/console/pulse_uart_console.c:76-111 | returns `c`; a newline sends `0x55 · escaped COBS(message + CRC) · 0x55` and resets `msg_len` to 35; `'\r'` changes nothing; another character is stored as `(uint8_t)c` while there is room |
| `Console.Console.SendLine` | drivers/console/pulse_uart_console.c:78-105 | the newline branch writes the packet into `msg_buf`, appends its frame to the UART output and resets `msg_len` |
| `Console.Console.EncodePacket` | drivers/console/pulse_uart_console.c:80-91 | the as-written encoder, run on a console packet in the buffer and into a `PB_COBS_MAX_ENC_SIZE(n)` buffer, produces exactly the packet's standard COBS encoding |
| `Console.Console.Transmit` | drivers/console/pulse_uart_console.c:80-102 | encoding the packet in the first `n` buffer bytes and sending it puts exactly its frame on the UART |
| `Console.Console.FillHeader` | drivers/console/pulse_uart_console.c:84 | the length store turns the buffer's first `msg_len` bytes into the message |
| `Console.Console.AppendCrc` | drivers/console/pulse_uart_console.c:87-88 | the CRC store turns the first `msg_len + 4` bytes into the packet |
| `Console.Console.SendFrame` | drivers/console/pulse_uart_console.c:93-102 | the send loop emits the delimiter, the escaped encoding and the delimiter |
| `Buttons.AnyPressedIff` | boot/src/buttons.c:85-89 | any-pressed holds exactly when some button reads 1, and the combination counts as a press |
| `Buttons.PrfRequested` | boot/src/buttons.c:65-83 | true exactly when the first and all N later samples show back, up and center pressed with down released; false at the first sample that does not; at most N + 1 samples |
| `Buttons.ConfigureChain` | boot/src/buttons.c:38-62 | pins are configured in order up to and including the first failure, whose error is returned |
| `Buttons.Init` | boot/src/buttons.c:28-63 | `-ENODEV` before any pin is configured when a pin is not ready; otherwise back, up, center, down in that order, returning the first error |
| `Buttons.InitSucceeds` | boot/src/buttons.c:28-63 | setup succeeds exactly when every pin is ready and configures, and then all four are configured |
| `Charger.CDiv` | boot/src/charger.c:50 | C's `/` truncates toward zero |
| `Charger.Init` | boot/src/charger.c:21-29 | `pb_charger_init` returns `-ENODEV` exactly when the device is not ready, and 0 otherwise |
| `Charger.RefusedIff` | boot/src/charger.c:31-77 | boot is refused exactly when every read succeeded, the voltage is below the minimum, the VBUS check is built in and VBUS reads 0 |
| `Charger.AllowBootMonotonic` | boot/src/charger.c:50-51 | more whole volts never turn an allowed boot into a refused one |
| `Charger.TruncatesTowardZero` | boot/src/charger.c:50 | the millionths are divided with truncation: 3 V and -999 µV is 3000 mV |
| `Charger.MilliVoltsFitsInt32` | boot/src/charger.c:50 | for a proper sensor value with `abs(val1) <= 2147482` the `int32_t` millivolt sum does not overflow |

## Findings

| source | as written | input that shows it | evidently intended | confidence | as-written member | corrected member |
|---|---|---|---|---|---|---|
| lib/pb/bootbit/bootbit_sf32lb.c:17-18 | the `BIT(n)` masks go to `sys_bitfield_*` as bit numbers, so `tst(INITIALIZED)` reads bit 1, while `init` writes the mask, whose set bit is bit 0 | any register whose word 0 has bit 1 clear, such as all zeros after power loss: after `init`, `tst(INITIALIZED)` still fails, so every later `init` writes the word again | `init` sets the bit that `tst(INITIALIZED)` reads, so a second init is a no-op | high (not executed) | `BootBit.InitNeverSticksAsIndex` | `BootBit.InitIdempotentAsMask` |
| lib/pb/bootbit/bootbit_sf32lb.c:18 | each repeated `init` rewrites word 0, which holds the firmware strike flags under the as-index reading | two firmware strikes recorded after one `init`; a second `init` leaves a count of 0. This holds only if `sys_write32` stores its second argument at the address given first, the reading the model takes; with Zephyr's declared (value, address) order the call writes elsewhere (see "## Left out") | strikes survive a second init | medium (not executed; depends on the argument order) | `BootBit.StrikesLostOnReinitAsIndex` | `BootBit.StrikesSurviveReinitAsMask` |
| lib/pb/cobs/cobs.c:25 | the split test `src_idx > len - 1` never holds inside the loop, so a full block is never closed | 254 bytes of 0x01 and then 0x00: code 0xFF, and a standard decoder drops the zero | split when `src_idx < len - 1` | high (not executed) | `Cobs.FullRunLosesZero` | `Cobs.EncodeCorrect` |
| lib/pb/cobs/cobs.c:24 | the `uint8_t` code wraps after 255 non-zero bytes | 255 bytes of 0x01: the first output byte is 0 | the split bounds every code at 0xFF | high (not executed) | `Cobs.LongRunWraps` | `Cobs.EncodeCorrect` |
| include/pb/cobs.h:15 | `PB_COBS_MAX_ENC_SIZE(0)` is 0 | the empty input, for which the encoder writes one code byte | a bound that also covers `n = 0` | medium (not executed) | `Cobs.EmptyInputOverflows` | `Cobs.EncodeCorrect` |
| drivers/console/pulse_uart_console.c:106 | characters are stored while `msg_len < 256`, but the CRC goes to `msg_buf[msg_len..msg_len + 4)` | a line of 221 ordinary characters and then `'\n'`: the CRC is written to bytes 256-259 of the 256-byte buffer | stop storing at 252, so the CRC always fits | high (not executed) | `Console.CrcOverrunsAsWritten` | `Console.NextLenBounded` |

The orchestrator (`Boot`) holds for either reading of the boot bits, since it
relies only on distinct flags having distinct bits. Under the as-written
reading this needs an assumption: the words that 11 of the 16 flags address
(1 to 8192 words past the backup register) keep exactly what the bootloader
writes there and are written by nothing else. Those words are other RTC or
peripheral registers, or unmapped space, so this may not hold (see
"## Left out").

The console (`Console`) uses the corrected length limit and the encoder as
written. `Console.PacketEncodingAgrees` shows that the missing split never
matters for its packets, so what it puts on the UART is the standard
encoding.

## Left out

- `BootBit.BootBits.Init`: models `sys_write32(RTC_BASE + RTC_BKP2R, PB_BOOTBIT_INITIALIZED)` as writing the mask into the backup word. Zephyr's `sys_write32` is declared as taking the value first and the address second, so the call as written may instead write the register's address to address 1. Zephyr's I/O helpers are not part of this model.
- `Boot.Run`: `pb_bootbit_init` is not called from `main` in the files modelled, so `Run` starts from whatever register state the boot finds. The application's writes of `FW_STABLE` and `SOFTWARE_FAILURE_OCCURRED` between boots are therefore an arbitrary initial state, not concurrency.
- `BootBit.SetFlag`, `BootBit.ClrFlag` and `BootBit.TestBit` under the as-index reading (`EnumAsIndex`): every word past word 0 is treated as private RAM, which keeps exactly what was written and has no other writer. On the hardware those words belong to other RTC or peripheral registers or to unmapped space, so a write may have side effects, may not stick, or may fault. The model does not capture any of this, and the `Boot` results rely on this assumption for the as-index reading.
- `Cobs.EncodeToAsWritten` and `Cobs.EncodeTo`: both require separate source and destination arrays. include/pb/cobs.h:11 documents `PB_COBS_OVERHEAD` as the offset the source needs inside the destination when encoding in place; that aliased use, where the encoder overwrites input it has already read, is not modelled. `Cobs.OverheadIsCeiling` states only the arithmetic of that offset. The console, the encoder's only caller here, encodes from `msg_buf` into the separate `msg_enc`.
- Warm-reset retention versus power-loss clearing of the backup register is not modelled. Each boot starts from an arbitrary register.
- `pb_fwjump` (NVIC, cache, MPU and stack-limit teardown, then the control transfer) is hardware-only. It becomes the terminal outcome `Jump(addr)`.
- `pb_panic` and the panic loop (watchdog feeding, button polling, cold reset) become the terminal outcome `Halt(reason)`. The loop is an infinite sleep/poll/reboot cycle with no decision beyond the reason. Its definition `pb_panic(void)` in boot/src/panic.c disagrees with the declaration `pb_panic(pb_panic_reason_t)` in boot/src/panic.h and with the calls in boot/src/main.c; the model follows the declaration.
- The watchdog driver (boot/src/watchdog.c) has no decision logic.
- `LOG_*` calls are not modelled, including the hex dump of each fetched header.
- Zephyr's `crc32_ieee`/`crc32_ieee_update` implementations cannot be seen. `Crc32` is the bitwise definition they compute.
- `flash_read`, `device_is_ready`, the GPIO and sensor APIs and `uart_poll_out` are input oracles or output sequences. Flash content may change between reads; `Static` names the case where it does not.
- `k_msleep(1)` is not modelled: time is the index of a button sample.
- `Buttons.PrfRequested`: one sample gives all four pins at once. The C reads the pins one after another and stops at the first that fails the test, so a pin changing between those reads is not captured.
- `Charger.AllowBoot`: computes the millivolts over unbounded integers. `Charger.MilliVoltsFitsInt32` gives the range where this matches the `int32_t` computation; outside it the C overflows, which is undefined behaviour.
- `Console.Console.Out`: stores characters only while `msg_len < 252`, the corrected limit. The limit as written (256) is modelled by `Console.NextLenAsWritten`, and its overrun by `Console.CrcOverrunsAsWritten`.
- `pulse_uart_console_init` (device check and hook installation) is not modelled. It makes no decision beyond `-ENODEV`.
- Boot bits the bootloader never reads (`NEW_FW_*`, `NEW_PRF_AVAILABLE`) are modelled only as distinct flags.
