// Model of Data_Struct_Implementation/timerWheel/timer.c: a timing wheel of
// ten bins, each a linked list of handlers (modelled as the sequence of its
// nodes, head first), a current slot that advances by one on every tick,
// and a granularity that turns a deadline into a number of bins ahead.
module TimerWheel {

  import opened Division

  const WheelBinNumber: nat := 10

  /** A queued handler: its deadline and an opaque name for its callback. */
  datatype Handler = Handler(timestamp: int, cb: int)

  /** C's `/` on `int`, which truncates toward zero: a negative deadline
      never counts as bins ahead. */
  function CDiv(a: int, b: nat): (q: int)
    requires b > 0
    ensures a >= 0 ==> q == a / b
    ensures a < 0 ==> q <= 0
  {
    if a >= 0 then a / b else -((-a) / b)
  }

  /** A deadline less than one granularity away from 0, on either side,
      is 0 bins ahead: it lands in the current bin. */
  lemma {:induction false} CDivSmall(a: int, b: nat)
    requires b > 0 && -(b as int) < a < b
    ensures CDiv(a, b) == 0
  {
    if a >= 0 {
      SmallQuot(a, b);
    } else {
      SmallQuot(-a, b);
    }
  }

  /** The bin a deadline lands in, seen from slot `cur`: `cur` plus the
      bins ahead, modulo the wheel. While that sum is not negative, C's `%`
      and Dafny's agree. */
  function BinFor(cur: nat, granularity: nat, deadline: int): (b: nat)
    requires granularity > 0 && CDiv(deadline, granularity) < WheelBinNumber
    requires cur + CDiv(deadline, granularity) >= 0
    ensures b < WheelBinNumber
  {
    (cur + CDiv(deadline, granularity)) % WheelBinNumber
  }

  /** A deadline within one granularity of 0, negative ones included,
      passes the full-turn test and lands in the current bin, so it fires
      on the next tick. */
  lemma {:induction false} SmallDeadlineCurrentBin(cur: nat, granularity: nat, deadline: int)
    requires cur < WheelBinNumber && granularity > 0
    requires -(granularity as int) < deadline < granularity
    ensures CDiv(deadline, granularity) < WheelBinNumber && cur + CDiv(deadline, granularity) >= 0
    ensures BinFor(cur, granularity, deadline) == cur
  {
    CDivSmall(deadline, granularity);
  }

  /** The bin the j-th tick after slot `cur` empties (ticks count from 1). */
  function BinOfTick(cur: nat, j: nat): (b: nat)
    requires j >= 1
    ensures b < WheelBinNumber
  {
    (cur + j - 1) % WheelBinNumber
  }

  /** A handler `k` bins ahead of `cur` is reached by the (k+1)-th tick and
      by none before it. */
  lemma {:induction false} FiresOnTick(cur: nat, k: nat)
    requires cur < WheelBinNumber && k < WheelBinNumber
    ensures BinOfTick(cur, k + 1) == (cur + k) % WheelBinNumber
    ensures forall j :: 1 <= j <= k ==> BinOfTick(cur, j) != (cur + k) % WheelBinNumber
  {
    forall j | 1 <= j <= k
      ensures BinOfTick(cur, j) != (cur + k) % WheelBinNumber
    {
      var d := k - (j - 1);
      assert 0 < d < WheelBinNumber;
      if (cur + j - 1) % WheelBinNumber == (cur + k) % WheelBinNumber {
        assert (cur + k) - (cur + j - 1) == d;
        ModDiff(cur + j - 1, d);
      }
    }
  }

  /** Adding less than a full turn always moves to another bin. */
  lemma {:induction false} ModDiff(x: nat, d: nat)
    requires 0 < d < WheelBinNumber
    ensures (x + d) % WheelBinNumber != x % WheelBinNumber
  {
    var q := x / WheelBinNumber;
    var r := x % WheelBinNumber;
    assert x == q * WheelBinNumber + r;
    if r + d < WheelBinNumber {
      assert x + d == q * WheelBinNumber + (r + d);
    } else {
      assert x + d == (q + 1) * WheelBinNumber + (r + d - WheelBinNumber);
    }
  }

  class TWheel {
    var curSlot: nat
    var granularity: nat
    var nodes: array<seq<Handler>>

    ghost predicate Valid()
      reads this
    {
      nodes.Length == WheelBinNumber && curSlot < WheelBinNumber && granularity > 0
    }

    /** `init_time_wheel`: slot 0 and every bin empty. The source's loop
        index is left uninitialised; the model takes the evident intent of
        clearing all ten bins. A granularity of zero would make every later
        division fail, so it is excluded. */
    constructor (gran: nat)
      requires gran > 0
      ensures Valid() && fresh(nodes) && granularity == gran && curSlot == 0
      ensures forall b :: 0 <= b < WheelBinNumber ==> nodes[b] == []
    {
      granularity := gran;
      curSlot := 0;
      nodes := new seq<Handler>[WheelBinNumber](_ => []);
    }

    /** `install_handler`: -1 and no change when the deadline lies a full
        turn or more ahead; otherwise the handler is appended at the tail of
        its bin. A negative deadline passes the test; it is excluded only
        where it would take the bin index below 0, which in C indexes before
        the bin array. */
    method InstallHandler(deadline: int, newCb: int) returns (ret: int)
      requires Valid() && curSlot + CDiv(deadline, granularity) >= 0
      modifies nodes
      ensures CDiv(deadline, granularity) >= WheelBinNumber ==> ret == -1 && nodes[..] == old(nodes[..])
      ensures CDiv(deadline, granularity) < WheelBinNumber ==>
                && ret == 0
                && var b := BinFor(curSlot, granularity, deadline);
                   nodes[..] == old(nodes[..])[b := old(nodes[b]) + [Handler(deadline, newCb)]]
    {
      var ahead := CDiv(deadline, granularity);
      if ahead >= WheelBinNumber {
        return -1;
      }
      var index := (curSlot + ahead) % WheelBinNumber;
      var chain := nodes[index];
      // The walk only reaches the tail: after `i` steps the nodes passed
      // are `chain[..i]`, and it changes nothing.
      var i := 0;
      while i < |chain|
        invariant 0 <= i <= |chain|
        modifies {}
      {
        i := i + 1;
      }
      assert chain[..i] == chain;
      nodes[index] := chain[..i] + [Handler(deadline, newCb)];
      ret := 0;
    }

    /** `tick`: run every handler of the current bin in install order,
        unlinking each, then advance the slot. `fired` lists the handlers
        run, in order. */
    method Tick() returns (fired: seq<Handler>)
      requires Valid()
      modifies this`curSlot, nodes
      ensures Valid()
      ensures fired == old(nodes[curSlot])
      ensures nodes[..] == old(nodes[..])[old(curSlot) := []]
      ensures curSlot == (old(curSlot) + 1) % WheelBinNumber
    {
      var bin := nodes[curSlot];
      fired := [];
      while bin != []
        invariant fired + bin == old(nodes[curSlot])
        modifies {}
      {
        fired := fired + [bin[0]];
        bin := bin[1..];
      }
      nodes[curSlot] := [];
      curSlot := (curSlot + 1) % WheelBinNumber;
    }
  }

  /** Part of the driver: three handlers 4 bins ahead (4, 4.25 and 4.9
      periods, truncated to ints) and one 12 bins ahead, which is refused.
      The fifth tick runs the three in install order, and no tick before it
      runs anything. */
  method DriverScenario() returns (r12: int, early: seq<Handler>, fifth: seq<Handler>)
    ensures r12 == -1
    ensures early == []
    ensures fifth == [Handler(4000000, 1), Handler(4250000, 1), Handler(4900000, 1)]
  {
    var w := new TWheel(1000000);
    assert CDiv(4000000, 1000000) == 4 && CDiv(4250000, 1000000) == 4 && CDiv(4900000, 1000000) == 4;
    assert CDiv(12000000, 1000000) == 12;
    var _ := w.InstallHandler(4000000, 1);
    var _ := w.InstallHandler(4250000, 1);
    var _ := w.InstallHandler(4900000, 1);
    r12 := w.InstallHandler(12000000, 3);
    assert w.nodes[4] == [Handler(4000000, 1), Handler(4250000, 1), Handler(4900000, 1)];
    assert w.curSlot == 0 && w.nodes[0] == [] && w.nodes[1] == [] && w.nodes[2] == [] && w.nodes[3] == [];
    var t1 := w.Tick();
    assert t1 == [] && w.curSlot == 1;
    var t2 := w.Tick();
    assert t2 == [] && w.curSlot == 2;
    var t3 := w.Tick();
    assert t3 == [] && w.curSlot == 3;
    var t4 := w.Tick();
    assert w.curSlot == 4 && w.nodes[4] == [Handler(4000000, 1), Handler(4250000, 1), Handler(4900000, 1)];
    early := t1 + t2 + t3 + t4;
    fifth := w.Tick();
  }
}
