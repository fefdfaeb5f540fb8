// Model of Interview/Company/intuitive/fan_control_server.c together with the
// types of fan_control.h: a fixed table of ten fan slots, a temperature to
// duty mapping, the per-message slot update of the receive loop, and the
// timer handler that folds every slot's speed into a group maximum and
// commands every slot with it. The message queue, POSIX timer and signal
// plumbing around this logic are not modelled.
module FanControl {

  const MaxFanNum: nat := 10
  const MaxModuleNum: nat := MaxFanNum

  /** Storing an int into a uint8_t keeps it modulo 256. */
  function ToU8(x: int): (r: int)
    ensures 0 <= r < 256
    ensures 0 <= x < 256 ==> r == x
  {
    x % 256
  }

  /** What `module_id = -1` leaves in a uint8_t field. */
  const StoredSentinel: int := ToU8(-1)

  // ---------------------------------------------------------------------
  // temp2speed

  /** `temp2speed`: 0 up to 20 degrees, 100 from 70 on, and in between the
      whole degrees above 20 doubled (the `(int)` cast applies to
      `temp_val - 20` before the multiplication, so it truncates first). */
  function Temp2Speed(t: real): (speed: int)
    ensures 0 <= speed <= 100
  {
    if t <= 20.0 then 0
    else if t >= 70.0 then 100
    else (t - 20.0).Floor * 2
  }

  lemma Temp2SpeedCold(t: real)
    requires t <= 20.0
    ensures Temp2Speed(t) == 0
  {
  }

  lemma Temp2SpeedHot(t: real)
    requires t >= 70.0
    ensures Temp2Speed(t) == 100
  {
  }

  /** Between the two thresholds the duty is twice the truncated excess:
      always even and at most 98. */
  lemma Temp2SpeedRamp(t: real)
    requires 20.0 < t < 70.0
    ensures Temp2Speed(t) == 2 * (t - 20.0).Floor
    ensures Temp2Speed(t) % 2 == 0 && 0 <= Temp2Speed(t) <= 98
  {
  }

  lemma {:induction false} Temp2SpeedExamples()
    ensures Temp2Speed(45.0) == 50
    ensures Temp2Speed(45.9) == 50
    ensures Temp2Speed(20.0) == 0 && Temp2Speed(70.0) == 100
    ensures Temp2Speed(69.99) == 98
  {
    assert (45.9 - 20.0).Floor == 25;
    assert (69.99 - 20.0).Floor == 49;
  }

  /** A hotter reading never asks for less cooling. */
  lemma {:induction false} Temp2SpeedMonotone(t1: real, t2: real)
    requires t1 <= t2
    ensures Temp2Speed(t1) <= Temp2Speed(t2)
  {
    if 20.0 < t1 && t2 < 70.0 {
      assert (t1 - 20.0).Floor <= (t2 - 20.0).Floor;
    }
  }

  // ---------------------------------------------------------------------
  // The fan table

  /** The two kinds of callback pointer a slot can hold. */
  datatype Callback = GeneralCallback | NullCallback

  /** One `Fan` entry; `moduleId` and `currentSpd` are uint8_t values. */
  datatype Fan = Fan(moduleId: int, currentSpd: int, rdReg: nat, wtReg: nat,
                     readSpeed: Callback, setSpeed: Callback)

  /** One `set_speed(PWM_counts, wt_reg)` call issued by the timer handler. */
  datatype Command = Command(slot: nat, pwmCounts: int, wtReg: nat)

  /** The value the first loop of the timer handler folds up. */
  function MaxSpeed(current: int, fans: seq<Fan>): (m: int)
    ensures m >= current
    ensures forall i :: 0 <= i < |fans| ==> m >= fans[i].currentSpd
    ensures m == current || exists i :: 0 <= i < |fans| && m == fans[i].currentSpd
    decreases |fans|
  {
    if fans == [] then current
    else
      var m := MaxSpeed(current, fans[..|fans| - 1]);
      var last := fans[|fans| - 1].currentSpd;
      if m > last then m else last
  }

  /** Slots the shipped handler commands: `-1 != module_id` compares an int
      with a promoted uint8_t, which is never -1. */
  function CommandedAsWritten(fans: seq<Fan>): (slots: seq<nat>)
    decreases |fans|
  {
    if fans == [] then []
    else CommandedAsWritten(fans[..|fans| - 1]) + (if -1 != fans[|fans| - 1].moduleId then [|fans| - 1] else [])
  }

  /** Slots the handler is meant to command: those whose stored id is not
      the sentinel byte. */
  function Commanded(fans: seq<Fan>): (slots: seq<nat>)
    decreases |fans|
  {
    if fans == [] then []
    else Commanded(fans[..|fans| - 1]) + (if fans[|fans| - 1].moduleId != StoredSentinel then [|fans| - 1] else [])
  }

  /** The slots a command list addresses, in order. */
  function SlotsOf(cmds: seq<Command>): (slots: seq<nat>)
    ensures |slots| == |cmds|
    ensures forall k :: 0 <= k < |cmds| ==> slots[k] == cmds[k].slot
  {
    seq(|cmds|, k requires 0 <= k < |cmds| => cmds[k].slot)
  }

  lemma SlotsOfAppend(cmds: seq<Command>, c: Command)
    ensures SlotsOf(cmds + [c]) == SlotsOf(cmds) + [c.slot]
  {
  }

  function Broadcast(slots: seq<nat>, fans: seq<Fan>, pwm: int): (cmds: seq<Command>)
    requires forall k :: 0 <= k < |slots| ==> slots[k] < |fans|
    ensures |cmds| == |slots|
    ensures forall k :: 0 <= k < |slots| ==> cmds[k] == Command(slots[k], pwm, fans[slots[k]].wtReg)
  {
    seq(|slots|, k requires 0 <= k < |slots| => Command(slots[k], pwm, fans[slots[k]].wtReg))
  }

  /** Slots as stored by the shipped code: every stored id is a byte, so every
      slot is commanded, also the ones whose `set_speed` pointer is NULL. */
  lemma {:induction false} CommandedAsWrittenIsEverySlot(fans: seq<Fan>)
    requires forall i :: 0 <= i < |fans| ==> 0 <= fans[i].moduleId < 256
    ensures CommandedAsWritten(fans) == seq(|fans|, i => i)
    decreases |fans|
  {
    if fans != [] {
      CommandedAsWrittenIsEverySlot(fans[..|fans| - 1]);
    }
  }

  /** The intended filter picks exactly the slots that are not the sentinel,
      in slot order. */
  lemma {:induction false} CommandedExactly(fans: seq<Fan>)
    ensures forall k :: 0 <= k < |Commanded(fans)| ==> Commanded(fans)[k] < |fans|
    ensures forall i :: 0 <= i < |fans| ==> (i in Commanded(fans) <==> fans[i].moduleId != StoredSentinel)
    ensures forall k, l :: 0 <= k < l < |Commanded(fans)| ==> Commanded(fans)[k] < Commanded(fans)[l]
    decreases |fans|
  {
    if fans != [] {
      CommandedExactly(fans[..|fans| - 1]);
    }
  }

  /** The slot table `FAN_init` builds for `fan_num` known modules. */
  function InitialFan(i: int, fanNum: int): Fan
  {
    if i < fanNum then Fan(ToU8(i), 0, 0, 0, GeneralCallback, GeneralCallback)
    else Fan(StoredSentinel, 0, 0, 0, NullCallback, NullCallback)
  }

  /** The shipped handler dereferences a NULL `set_speed`: right after
      `FAN_init(3)` slot 3 is commanded although its callback is NULL. */
  lemma {:induction false} AsWrittenCallsNullCallback()
    ensures var fans := seq(MaxFanNum, i => InitialFan(i, 3));
            3 in CommandedAsWritten(fans) && fans[3].setSpeed == NullCallback
  {
    var fans := seq(MaxFanNum, i => InitialFan(i, 3));
    CommandedAsWrittenIsEverySlot(fans);
    assert CommandedAsWritten(fans)[3] == 3;
  }

  /** Commands whose slots are the intended filter's reach every slot that
      has callbacks, in a table where the sentinel marks exactly the slots
      without them. */
  lemma {:induction false} CommandsCoverCallbacks(fans: seq<Fan>, cmds: seq<Command>)
    requires forall i :: 0 <= i < |fans| ==> (fans[i].moduleId == StoredSentinel <==> fans[i].setSpeed == NullCallback)
    requires Commanded(fans) == SlotsOf(cmds)
    ensures forall i :: 0 <= i < |fans| && fans[i].setSpeed == GeneralCallback ==>
              exists k :: 0 <= k < |cmds| && cmds[k].slot == i
  {
    forall i | 0 <= i < |fans| && fans[i].setSpeed == GeneralCallback
      ensures exists k :: 0 <= k < |cmds| && cmds[k].slot == i
    {
      CommandCovers(fans, cmds, i);
    }
  }

  lemma {:induction false} CommandCovers(fans: seq<Fan>, cmds: seq<Command>, i: nat)
    requires i < |fans| && fans[i].moduleId != StoredSentinel
    requires Commanded(fans) == SlotsOf(cmds)
    ensures exists k :: 0 <= k < |cmds| && cmds[k].slot == i
  {
    CommandedExactly(fans);
    assert i in Commanded(fans);
    var k :| 0 <= k < |Commanded(fans)| && Commanded(fans)[k] == i;
    assert cmds[k].slot == i;
  }

  /** The second loop of `timer_handler`, with the sentinel compared as the
      byte actually stored: in slot order, one command per slot that is not
      the sentinel, each carrying `pwm` and that slot's write register. */
  method SendCommands(fans: seq<Fan>, pwm: int) returns (cmds: seq<Command>)
    ensures Commanded(fans) == SlotsOf(cmds)
    ensures forall k :: 0 <= k < |cmds| ==> cmds[k].slot < |fans| && fans[cmds[k].slot].moduleId != StoredSentinel
    ensures forall k :: 0 <= k < |cmds| ==> cmds[k].pwmCounts == pwm && cmds[k].wtReg == fans[cmds[k].slot].wtReg
  {
    cmds := [];
    var i := 0;
    while i < |fans|
      invariant 0 <= i <= |fans|
      invariant Commanded(fans[..i]) == SlotsOf(cmds)
      invariant forall k :: 0 <= k < |cmds| ==> cmds[k].slot < i && fans[cmds[k].slot].moduleId != StoredSentinel
      invariant forall k :: 0 <= k < |cmds| ==> cmds[k].pwmCounts == pwm && cmds[k].wtReg == fans[cmds[k].slot].wtReg
    {
      assert fans[..i + 1][..i] == fans[..i];
      if fans[i].moduleId != StoredSentinel {
        var c := Command(i, pwm, fans[i].wtReg);
        SlotsOfAppend(cmds, c);
        cmds := cmds + [c];
      }
      i := i + 1;
    }
    assert fans[..|fans|] == fans;
  }

  class FanGroup {
    var fanNum: int
    var maxSpeed: int
    var fans: array<Fan>

    /** Slot ids are bytes; the sentinel byte marks exactly the slots without
        callbacks; speeds come from temp2speed; the maximum is a duty. */
    ghost predicate Valid()
      reads this, fans
    {
      && fans.Length == MaxFanNum
      && 0 <= maxSpeed <= 100
      && forall i :: 0 <= i < fans.Length ==>
           && 0 <= fans[i].moduleId < 256
           && 0 <= fans[i].currentSpd <= 100
           && (fans[i].moduleId == StoredSentinel <==> fans[i].setSpeed == NullCallback)
    }

    /** The global `general_group`, zero-initialised as C does for static
        storage: every field 0 and every callback NULL. Slot 0 then holds
        id 0 with no callback, so the group is not `Valid()` until
        `FAN_init` has run. */
    constructor ()
      ensures fresh(fans) && fans.Length == MaxFanNum
      ensures fanNum == 0 && maxSpeed == 0
      ensures forall i :: 0 <= i < MaxFanNum ==> fans[i] == Fan(0, 0, 0, 0, NullCallback, NullCallback)
    {
      fanNum := 0;
      maxSpeed := 0;
      fans := new Fan[MaxFanNum](i => Fan(0, 0, 0, 0, NullCallback, NullCallback));
    }

    /** `FAN_init`: slots below `fan_num` get their own index as module id
        and the general callbacks, the rest the sentinel and NULL. */
    method FanInit(num: int)
      requires fans.Length == MaxFanNum
      modifies this`fanNum, this`maxSpeed, fans
      ensures Valid() && fans == old(fans)
      ensures fanNum == num && maxSpeed == 0
      ensures forall i :: 0 <= i < MaxFanNum ==> fans[i] == InitialFan(i, num)
      ensures forall i :: 0 <= i < MaxFanNum ==> fans[i].currentSpd == 0
      ensures forall i :: 0 <= i < MaxFanNum ==> (i < num <==> fans[i].moduleId == i)
    {
      fanNum := num;
      maxSpeed := 0;
      var i := 0;
      while i < MaxFanNum
        invariant 0 <= i <= MaxFanNum
        invariant fanNum == num && maxSpeed == 0
        invariant forall j :: 0 <= j < i ==> fans[j] == InitialFan(j, num)
      {
        if i < num {
          fans[i] := Fan(ToU8(i), 0, 0, 0, GeneralCallback, GeneralCallback);
        } else {
          fans[i] := Fan(StoredSentinel, 0, 0, 0, NullCallback, NullCallback);
        }
        i := i + 1;
      }
    }

    /** One received message of the receive loop: only ids 1 .. 9 are
        accepted, and only that slot's speed changes. */
    method ReceiveTemperature(moduleId: int, temp: real) returns (accepted: bool)
      requires Valid()
      modifies fans
      ensures Valid()
      ensures accepted <==> 0 < moduleId < MaxModuleNum
      ensures accepted ==> fans[..] == old(fans[..])[moduleId := old(fans[moduleId]).(currentSpd := Temp2Speed(temp))]
      ensures !accepted ==> fans[..] == old(fans[..])
    {
      accepted := moduleId > 0 && moduleId < MaxModuleNum;
      if accepted {
        fans[moduleId] := fans[moduleId].(currentSpd := Temp2Speed(temp));
      }
    }

    /** The first loop of `timer_handler`: max_speed absorbs every slot's
        speed; it is never reset. */
    method AggregateMax()
      requires Valid()
      modifies this`maxSpeed
      ensures Valid()
      ensures maxSpeed == MaxSpeed(old(maxSpeed), fans[..])
      ensures maxSpeed >= old(maxSpeed)
    {
      var i := 0;
      while i < MaxFanNum
        invariant 0 <= i <= MaxFanNum
        invariant maxSpeed == MaxSpeed(old(maxSpeed), fans[..i])
        invariant 0 <= maxSpeed <= 100
      {
        assert fans[..i + 1][..i] == fans[..i];
        maxSpeed := if maxSpeed > fans[i].currentSpd then maxSpeed else fans[i].currentSpd;
        i := i + 1;
      }
      assert fans[..MaxFanNum] == fans[..];
    }

    /** `timer_handler` as shipped: the sentinel test never fires, so all
        ten slots are sent the maximum. */
    method TimerHandlerAsWritten() returns (cmds: seq<Command>)
      requires Valid()
      modifies this`maxSpeed
      ensures Valid()
      ensures maxSpeed == MaxSpeed(old(maxSpeed), fans[..])
      ensures CommandedAsWritten(fans[..]) == seq(MaxFanNum, i => i)
      ensures cmds == Broadcast(seq(MaxFanNum, i => i), fans[..], maxSpeed)
    {
      AggregateMax();
      cmds := [];
      var i := 0;
      while i < MaxFanNum
        invariant 0 <= i <= MaxFanNum
        invariant cmds == Broadcast(seq(i, k => k), fans[..], maxSpeed)
      {
        if -1 != fans[i].moduleId {
          cmds := cmds + [Command(i, ToU8(maxSpeed), fans[i].wtReg)];
        }
        i := i + 1;
      }
      CommandedAsWrittenIsEverySlot(fans[..]);
    }

    /** `timer_handler` with the sentinel compared as the byte actually
        stored: every slot with callbacks, and only those, gets the same
        command carrying the group maximum. */
    method TimerHandler() returns (cmds: seq<Command>)
      requires Valid()
      modifies this`maxSpeed
      ensures Valid()
      ensures maxSpeed == MaxSpeed(old(maxSpeed), fans[..])
      ensures forall i :: 0 <= i < MaxFanNum ==> maxSpeed >= fans[i].currentSpd
      ensures Commanded(fans[..]) == SlotsOf(cmds)
      ensures forall k :: 0 <= k < |cmds| ==> cmds[k].slot < MaxFanNum
      ensures forall k :: 0 <= k < |cmds| ==> cmds[k].pwmCounts == maxSpeed && cmds[k].wtReg == fans[cmds[k].slot].wtReg
      ensures forall k :: 0 <= k < |cmds| ==> fans[cmds[k].slot].setSpeed == GeneralCallback
      ensures forall i :: 0 <= i < MaxFanNum && fans[i].setSpeed == GeneralCallback ==>
                exists k :: 0 <= k < |cmds| && cmds[k].slot == i
    {
      AggregateMax();
      cmds := SendCommands(fans[..], ToU8(maxSpeed));
      CommandsCoverCallbacks(fans[..], cmds);
    }
  }
}
