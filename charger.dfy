/** The battery gate of `boot/src/charger.c`: boot is allowed unless every
    charger read succeeded, the battery is below the minimum voltage and no
    external supply (VBUS) is present. Every failed read allows boot. */
module Charger {
  import opened Errno

  /** A Zephyr `struct sensor_value`: whole units and millionths. */
  datatype SensorValue = SensorValue(val1: int, val2: int)

  /** What a sensor call returns: its status and, when it is not negative,
      the value it filled in. */
  datatype Read = Read(ret: int, val: SensorValue)

  /** C's `/` on `int`, which truncates toward zero. */
  function CDiv(a: int, b: int): (q: int)
    requires b > 0
    ensures a >= 0 ==> q == a / b
    ensures a < 0 ==> q == -((-a) / b)
  {
    if a >= 0 then a / b else -((-a) / b)
  }

  /** `val.val1 * 1000 + val.val2 / 1000`: the voltage in millivolts. */
  function MilliVolts(v: SensorValue): int
  {
    v.val1 * 1000 + CDiv(v.val2, 1000)
  }

  /** `pb_charger_init`. */
  function Init(ready: bool): (ret: int)
    ensures ret == 0 || ret == -ENODEV
    ensures ret == -ENODEV <==> !ready
  {
    if !ready then -ENODEV else 0
  }

  /** `pb_charger_allow_boot`, with the sample fetch, the battery voltage read
      and the VBUS status read as inputs, the minimum boot voltage as
      `minMv`, and whether the nPM13xx charger driver is built in as `npm`. */
  function AllowBoot(fetch: int, voltage: Read, minMv: int, npm: bool, vbus: Read): bool
  {
    if fetch < 0 then true
    else if voltage.ret < 0 then true
    else if MilliVolts(voltage.val) >= minMv then true
    else if !npm then true
    else if vbus.ret < 0 then true
    else vbus.val.val1 != 0
  }

  /** Boot is refused only when every read succeeded, the battery is below the
      minimum, the VBUS check is built in and reports no supply. */
  lemma RefusedIff(fetch: int, voltage: Read, minMv: int, npm: bool, vbus: Read)
    ensures !AllowBoot(fetch, voltage, minMv, npm, vbus) <==>
              && fetch >= 0 && voltage.ret >= 0 && MilliVolts(voltage.val) < minMv
              && npm && vbus.ret >= 0 && vbus.val.val1 == 0
  {
  }

  /** The voltage is monotonic in the whole-volts field: more volts with the same
      fraction never turn an allowed boot into a refused one. */
  lemma {:induction false} AllowBootMonotonic(fetch: int, v: SensorValue, w: SensorValue, ret: int,
                                              minMv: int, npm: bool, vbus: Read)
    requires v.val2 == w.val2 && v.val1 <= w.val1
    ensures AllowBoot(fetch, Read(ret, v), minMv, npm, vbus) ==> AllowBoot(fetch, Read(ret, w), minMv, npm, vbus)
  {
    assert MilliVolts(v) <= MilliVolts(w);
  }

  /** The truncating division rounds the millionths toward zero, so a negative
      fraction of less than a millivolt is dropped, not rounded down. */
  lemma TruncatesTowardZero()
    ensures MilliVolts(SensorValue(3, -999)) == 3000
    ensures MilliVolts(SensorValue(3, 999_999)) == 3999
    ensures MilliVolts(SensorValue(-3, -1500)) == -3001
  {
  }

  /** The `int32_t` result cannot overflow when the reading is a proper sensor
      value (a fraction of less than one unit) of at most 2147482 V. */
  lemma {:induction false} MilliVoltsFitsInt32(v: SensorValue)
    requires -2147482 <= v.val1 <= 2147482 && -1_000_000 < v.val2 < 1_000_000
    ensures -0x8000_0000 <= MilliVolts(v) < 0x8000_0000
  {
    var f := CDiv(v.val2, 1000);
    assert -1000 < f < 1000;
  }
}
