// Model of Interview/Company/intuitive/fan_hw.c: the variant of the general
// fan driver whose set-speed callback takes a uint8_t duty cycle and
// produces a 28-bit PWM count in a uint32_t.
module FanHw28 {

  const U8: nat := 0x100
  const U32: nat := 0x1_0000_0000
  const FullScale: nat := 0x0fff_ffff

  /** `step = 0xfffffff / 100`, held in a uint32_t. */
  function Step(): (s: nat)
    ensures s == 2684354
  {
    FullScale / 100
  }

  /** `value = (uint32_t)duty_cycle * step` in uint32_t arithmetic. */
  function PwmCounts(duty: nat): (value: nat)
    requires duty < U8
    ensures value == duty * 2684354
    ensures value <= 684510270 < U32
    ensures duty <= 100 ==> value <= FullScale
  {
    (duty * Step()) % U32
  }

  /** Full duty lands just under the 28-bit full scale. */
  lemma FullDuty()
    ensures PwmCounts(100) == 268435400
    ensures PwmCounts(0) == 0
  {
  }

  /** The conversion is strictly increasing over the whole uint8_t range. */
  lemma PwmCountsStrictlyIncreasing(d1: nat, d2: nat)
    requires d1 < d2 < U8
    ensures PwmCounts(d1) < PwmCounts(d2)
  {
  }

  /** A `Fan_hw` as far as this driver uses it: its register addresses. */
  datatype FanHw = FanHw(wrtReg: nat, rdReg: nat)

  datatype SetOutcome = SetOutcome(status: int, register: nat, written: nat)

  /** `general_set_speed`: the count for the write register and status 0. */
  function SetSpeed(duty: nat, fan: FanHw): (r: SetOutcome)
    requires duty < U8
    ensures r.status == 0
    ensures r.register == fan.wrtReg
    ensures r.written == duty * 2684354
  {
    SetOutcome(0, fan.wrtReg, PwmCounts(duty))
  }

  /** `general_read_speed`: READW prints only, so `*value` is untouched and
      the status is success. */
  function ReadSpeed(value: nat, fan: FanHw): (r: (int, nat))
    ensures r.0 == 0 && r.1 == value
  {
    (0, value)
  }
}
