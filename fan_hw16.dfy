// Model of Interview/Company/intuitive/fan_hw.h: the "general" fan driver
// whose set-speed callback turns a duty cycle into a 16-bit PWM count, and
// the constant table of twenty fans wired to that driver. The MMAP / READW /
// WRITEW macros expand to nothing there, so a callback's only effects are
// the value it would write and its status code.
module FanHw16 {

  const MaxFanNum: nat := 20
  const U16: nat := 0x1_0000
  const U32: nat := 0x1_0000_0000

  /** `step = 0xffff / 100`, held in a uint16_t. */
  function Step(): (s: nat)
    ensures s == 655
  {
    0xffff / 100
  }

  /** `value = (uint16_t)duty_cycle * step`, stored in a uint16_t: the operand
      is truncated to 16 bits and so is the product. */
  function PwmCounts(duty: nat): (value: nat)
    requires duty < U32
    ensures value < U16
    ensures duty <= 100 ==> value == duty * 655 && value <= 65500
  {
    var operand := duty % U16;
    assert duty <= 100 ==> operand == duty && operand * Step() <= 65500;
    (operand * Step()) % U16
  }

  /** Duties above 100 wrap: 101 gives 619 rather than 66155. */
  lemma PwmCountsWraps()
    ensures PwmCounts(101) == 619
    ensures PwmCounts(0x1_0000) == 0
  {
  }

  /** On the meaningful range the count is 0 at 0 and never decreases. */
  lemma PwmCountsMonotone(d1: nat, d2: nat)
    requires d1 <= d2 <= 100
    ensures PwmCounts(0) == 0
    ensures PwmCounts(d1) <= PwmCounts(d2)
  {
  }

  datatype ReadCallback = GeneralReadSpeed
  datatype SetCallback = GeneralSetSpeed

  /** One `struct fan_hw`. */
  datatype FanHw = FanHw(vendor: string, model: string, wrtReg: nat, rdReg: nat,
                         readSpd: ReadCallback, setSpd: SetCallback)

  /** What a call of `general_set_speed` does: the count it would write to
      the fan's write register, and its status. */
  datatype SetOutcome = SetOutcome(status: int, register: nat, written: nat)

  function SetSpeed(duty: nat, fan: FanHw): (r: SetOutcome)
    requires duty < U32
    ensures r.status == 0
    ensures r.register == fan.wrtReg
    ensures duty <= 100 ==> r.written == duty * 655
    ensures r.written < U16
  {
    SetOutcome(0, fan.wrtReg, PwmCounts(duty))
  }

  /** `general_read_speed`: the register read is a no-op, so `*value` keeps
      what the caller had there and the status is success. */
  function ReadSpeed(value: nat, fan: FanHw): (r: (int, nat))
    ensures r.0 == 0 && r.1 == value
  {
    (0, value)
  }

  function Entry(model: string, wrt: nat, rd: nat): FanHw
  {
    FanHw("General_vendor", model, wrt, rd, GeneralReadSpeed, GeneralSetSpeed)
  }

  /** `general_fan_list`: five register pairs, each used by two consecutive
      fans, the ten-entry pattern written out twice. */
  function GeneralFanList(): (list: seq<FanHw>)
    ensures |list| == MaxFanNum
    ensures forall i :: 0 <= i < |list| ==> list[i].readSpd == GeneralReadSpeed && list[i].setSpd == GeneralSetSpeed
    ensures forall i :: 0 <= i < |list| ==> list[i].vendor == "General_vendor"
    ensures forall i :: 0 <= i < 10 ==> list[i] == list[i + 10]
  {
    var half := [Entry("0xa1", 0xffff8000, 0xffff4000), Entry("0xa1", 0xffff8000, 0xffff4000),
                 Entry("0xb2", 0xffffa000, 0xffff2000), Entry("0xb2", 0xffffa000, 0xffff2000),
                 Entry("0xc3", 0xffffe000, 0xffff6000), Entry("0xc3", 0xffffe000, 0xffff6000),
                 Entry("0xd4", 0xffff8020, 0xffff4020), Entry("0xd4", 0xffff8020, 0xffff4020),
                 Entry("0xe5", 0xffff8040, 0xffff1000), Entry("0xe5", 0xffff8040, 0xffff1000)];
    half + half
  }
}
