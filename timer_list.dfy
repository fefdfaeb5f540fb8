// Model of Data_Struct_Implementation/timerList/timer_framework.c: a fixed
// pool of ten timer nodes, a free list used as a LIFO stack and an active
// list kept in order of fire time, driven by a tick counter. Nodes are
// named by their index in the pool; each TAILQ becomes a sequence of node
// indices, head first. A callback is an opaque code: what it returns when
// run is a parameter of `ClockTick`.
module TimerList {

  const NumTimers: nat := 10

  /** uint64_t arithmetic wraps modulo 2^64. */
  const U64: nat := 0x1_0000_0000_0000_0000

  // enum timer_callback_retval
  const CbReturnNormal: int := 0
  const CbReturnFreeTimer: int := 1

  // enum timer_type
  const TtRelative: int := 0
  const TtAbsolute: int := 1

  datatype Timer = Timer(fire: nat, cb: int, userData: int)

  /** Every node named in a list is a node of the pool. */
  ghost predicate InPool(a: seq<nat>)
  {
    forall i :: 0 <= i < |a| ==> a[i] < NumTimers
  }

  ghost predicate NoDups(a: seq<nat>)
  {
    forall i, j :: 0 <= i < j < |a| ==> a[i] != a[j]
  }

  /** The active list is ordered by non-decreasing fire time. */
  ghost predicate SortedByFire(a: seq<nat>, ns: seq<Timer>)
    requires forall i :: 0 <= i < |a| ==> a[i] < |ns|
  {
    forall i, j :: 0 <= i < j < |a| ==> ns[a[i]].fire <= ns[a[j]].fire
  }

  /** The number of leading nodes of `a` that fire no later than `f`: where
      `arm_timer` puts a timer firing at `f`, and how many timers
      `clock_tick` fires at time `f`. */
  function CountUpTo(a: seq<nat>, ns: seq<Timer>, f: nat): (k: nat)
    requires forall i :: 0 <= i < |a| ==> a[i] < |ns|
    ensures k <= |a|
  {
    if a == [] || ns[a[0]].fire > f then 0
    else 1 + CountUpTo(a[1..], ns, f)
  }

  /** The counted nodes all fire no later than `f`, and the first node past
      them fires later. */
  lemma {:induction false} CountUpToBounds(a: seq<nat>, ns: seq<Timer>, f: nat)
    requires forall i :: 0 <= i < |a| ==> a[i] < |ns|
    ensures forall i :: 0 <= i < CountUpTo(a, ns, f) ==> ns[a[i]].fire <= f
    ensures CountUpTo(a, ns, f) < |a| ==> ns[a[CountUpTo(a, ns, f)]].fire > f
  {
    if a != [] && ns[a[0]].fire <= f {
      CountUpToBounds(a[1..], ns, f);
      forall i | 0 < i < CountUpTo(a, ns, f)
        ensures ns[a[i]].fire <= f
      {
        assert a[i] == a[1..][i - 1];
      }
    }
  }

  /** In a sorted list every node past that count fires later than `f`. */
  lemma {:induction false} LaterPastCount(a: seq<nat>, ns: seq<Timer>, f: nat)
    requires forall i :: 0 <= i < |a| ==> a[i] < |ns|
    requires SortedByFire(a, ns)
    ensures forall i :: CountUpTo(a, ns, f) <= i < |a| ==> ns[a[i]].fire > f
  {
    var k := CountUpTo(a, ns, f);
    CountUpToBounds(a, ns, f);
    forall i | k <= i < |a|
      ensures ns[a[i]].fire > f
    {
      assert ns[a[k]].fire <= ns[a[i]].fire;
    }
  }

  /** The active list after `arm_timer(t)`. */
  function Arm(a: seq<nat>, ns: seq<Timer>, t: nat): (r: seq<nat>)
    requires t < |ns| && forall i :: 0 <= i < |a| ==> a[i] < |ns|
  {
    var k := CountUpTo(a, ns, ns[t].fire);
    a[..k] + [t] + a[k..]
  }

  /** Where the cells of `a` land once `t` is put in at index `k`. */
  lemma InsertAt(a: seq<nat>, k: nat, t: nat)
    requires k <= |a|
    ensures var r := a[..k] + [t] + a[k..];
            && |r| == |a| + 1 && r[k] == t
            && (forall i :: 0 <= i < k ==> r[i] == a[i])
            && (forall i :: k < i < |r| ==> r[i] == a[i - 1])
  {
  }

  /** Putting a node not yet in a list into it keeps it free of duplicates
      and adds just that node. */
  lemma {:induction false} InsertAtNoDups(a: seq<nat>, k: nat, t: nat)
    requires k <= |a| && NoDups(a) && t !in a
    ensures NoDups(a[..k] + [t] + a[k..])
    ensures forall x :: x in a[..k] + [t] + a[k..] <==> x in a || x == t
  {
    var r := a[..k] + [t] + a[k..];
    InsertAt(a, k, t);
    forall i, j | 0 <= i < j < |r|
      ensures r[i] != r[j]
    {
      var i' := if i < k then i else i - 1;
      var j' := if j < k then j else j - 1;
      if i != k && j != k {
        assert r[i] == a[i'] && r[j] == a[j'];
      } else if i == k {
        assert r[j] == a[j'];
      } else {
        assert r[i] == a[i'];
      }
    }
    assert a == a[..k] + a[k..];
  }

  /** Arming adds exactly the one node to the active list. */
  lemma {:induction false} ArmAddsOne(a: seq<nat>, ns: seq<Timer>, t: nat)
    requires t < |ns| && forall i :: 0 <= i < |a| ==> a[i] < |ns|
    ensures multiset(Arm(a, ns, t)) == multiset(a) + multiset{t}
  {
    var k := CountUpTo(a, ns, ns[t].fire);
    assert a == a[..k] + a[k..];
  }

  /** An armed node goes after every node that fires no later and before
      every node that fires later: a tie is placed behind the timers it
      ties with. */
  lemma {:induction false} ArmPlacement(a: seq<nat>, ns: seq<Timer>, t: nat)
    requires t < |ns| && forall i :: 0 <= i < |a| ==> a[i] < |ns|
    requires SortedByFire(a, ns)
    ensures var k := CountUpTo(a, ns, ns[t].fire);
            && Arm(a, ns, t)[k] == t
            && (forall i :: 0 <= i < k ==> ns[a[i]].fire <= ns[t].fire)
            && (forall i :: k <= i < |a| ==> ns[a[i]].fire > ns[t].fire)
  {
    CountUpToBounds(a, ns, ns[t].fire);
    LaterPastCount(a, ns, ns[t].fire);
  }

  /** Arming keeps the active list in fire order. */
  lemma {:induction false} ArmSorted(a: seq<nat>, ns: seq<Timer>, t: nat)
    requires t < |ns| && forall i :: 0 <= i < |a| ==> a[i] < |ns|
    requires SortedByFire(a, ns)
    ensures SortedByFire(Arm(a, ns, t), ns)
  {
    var k := CountUpTo(a, ns, ns[t].fire);
    CountUpToBounds(a, ns, ns[t].fire);
    LaterPastCount(a, ns, ns[t].fire);
    InsertAt(a, k, t);
    var r := Arm(a, ns, t);
    forall i, j | 0 <= i < j < |r|
      ensures ns[r[i]].fire <= ns[r[j]].fire
    {
      if j < k || i > k {
        var i' := if i < k then i else i - 1;
        var j' := if j < k then j else j - 1;
        assert r[i] == a[i'] && r[j] == a[j'];
      } else if i == k {
        assert r[j] == a[j - 1];
      } else if j == k {
        assert r[i] == a[i];
      } else {
        assert r[i] == a[i] && r[j] == a[j - 1];
      }
    }
  }

  /** The list with the one occurrence of `t` cut out. */
  function Remove(a: seq<nat>, t: nat): (r: seq<nat>)
    requires t in a
    ensures |r| == |a| - 1
  {
    if a[0] == t then a[1..] else [a[0]] + Remove(a[1..], t)
  }

  /** Removing a node keeps the others in their order: when no earlier
      cell holds it, the result is the list with its first index cut out. */
  lemma {:induction false} RemoveCutsOut(a: seq<nat>, t: nat, i: nat)
    requires i < |a| && a[i] == t && forall j :: 0 <= j < i ==> a[j] != t
    ensures Remove(a, t) == a[..i] + a[i + 1..]
  {
    if i > 0 {
      assert a[0] != t;
      forall j | 0 <= j < i - 1
        ensures a[1..][j] != t
      {
        assert a[1..][j] == a[j + 1];
      }
      RemoveCutsOut(a[1..], t, i - 1);
      assert a[1..][..i - 1] == a[1..i];
      assert a[1..][i..] == a[i + 1..];
      assert a[..i] == [a[0]] + a[1..i];
    } else {
      assert a[..0] + a[1..] == a[1..];
    }
  }

  /** What taking a node out of a sorted list without duplicates keeps. */
  lemma {:induction false} CutOutKeeps(a: seq<nat>, ns: seq<Timer>, i: nat)
    requires i < |a| && forall p :: 0 <= p < |a| ==> a[p] < |ns|
    requires NoDups(a) && SortedByFire(a, ns)
    ensures var r := a[..i] + a[i + 1..];
            && NoDups(r) && SortedByFire(r, ns)
            && multiset(r) == multiset(a) - multiset{a[i]}
            && a[i] !in r
  {
    var r := a[..i] + a[i + 1..];
    assert NoDups(r) && SortedByFire(r, ns) by {
      forall p, q | 0 <= p < q < |r|
        ensures r[p] != r[q] && ns[r[p]].fire <= ns[r[q]].fire
      {
        var p' := if p < i then p else p + 1;
        var q' := if q < i then q else q + 1;
        assert r[p] == a[p'] && r[q] == a[q'];
      }
    }
    assert a[i] !in r by {
      forall p | 0 <= p < |r|
        ensures r[p] != a[i]
      {
        var p' := if p < i then p else p + 1;
        assert r[p] == a[p'];
      }
    }
    CutOutMultiset(a, i);
  }

  lemma {:induction false} CutOutMultiset(a: seq<nat>, i: nat)
    requires i < |a|
    ensures multiset(a[..i] + a[i + 1..]) == multiset(a) - multiset{a[i]}
  {
    assert a == a[..i] + [a[i]] + a[i + 1..];
  }

  /** What a callback run on a node returns. */
  type CallbackResults = (int, int) -> int

  /** The free list after the nodes of `fired` have run in order, each
      pushed back onto the free list when its callback asks for that. */
  function FreeAfter(fired: seq<nat>, ns: seq<Timer>, results: CallbackResults, free: seq<nat>): (r: seq<nat>)
    requires forall i :: 0 <= i < |fired| ==> fired[i] < |ns|
    ensures |r| <= |free| + |fired|
  {
    if fired == [] then free
    else
      var last := fired[|fired| - 1];
      var before := FreeAfter(fired[..|fired| - 1], ns, results, free);
      if results(ns[last].cb, ns[last].userData) == CbReturnFreeTimer then [last] + before else before
  }

  /** The nodes a tick puts back on the free list are exactly the fired
      ones whose callback asked for it, each once, ahead of the old free
      list. */
  lemma {:induction false} FreeAfterElements(fired: seq<nat>, ns: seq<Timer>, results: CallbackResults, free: seq<nat>)
    requires forall i :: 0 <= i < |fired| ==> fired[i] < |ns|
    ensures multiset(FreeAfter(fired, ns, results, free)) ==
            multiset(free) + multiset(Freed(fired, ns, results))
  {
    if fired != [] {
      FreeAfterElements(fired[..|fired| - 1], ns, results, free);
    }
  }

  /** The fired nodes whose callback returned CB_RETURN_FREE_TIMER. */
  function Freed(fired: seq<nat>, ns: seq<Timer>, results: CallbackResults): (r: seq<nat>)
    requires forall i :: 0 <= i < |fired| ==> fired[i] < |ns|
    ensures forall x :: x in r ==> x in fired && x < |ns| && results(ns[x].cb, ns[x].userData) == CbReturnFreeTimer
    ensures forall i :: 0 <= i < |fired| ==>
              (fired[i] in r <==> results(ns[fired[i]].cb, ns[fired[i]].userData) == CbReturnFreeTimer)
  {
    if fired == [] then []
    else
      var last := fired[|fired| - 1];
      var before := Freed(fired[..|fired| - 1], ns, results);
      assert forall i :: 0 <= i < |fired| - 1 ==> fired[..|fired| - 1][i] == fired[i];
      if results(ns[last].cb, ns[last].userData) == CbReturnFreeTimer then before + [last] else before
  }

  /** The shape both lists keep: they name pool nodes, each at most once
      and never on both lists, and the active list is in fire order. */
  ghost predicate ListsOk(active: seq<nat>, free: seq<nat>, ns: seq<Timer>)
  {
    && |ns| == NumTimers
    && InPool(active) && InPool(free)
    && NoDups(active) && NoDups(free)
    && (forall x :: x in active ==> x !in free)
    && SortedByFire(active, ns)
  }

  /** Arming a node that is on neither list keeps the shape. */
  lemma {:induction false} ArmKeepsOk(a: seq<nat>, f: seq<nat>, ns: seq<Timer>, t: nat)
    requires ListsOk(a, f, ns) && t < NumTimers && t !in a && t !in f
    ensures ListsOk(Arm(a, ns, t), f, ns)
  {
    var k := CountUpTo(a, ns, ns[t].fire);
    ArmSorted(a, ns, t);
    InsertAt(a, k, t);
    InsertAtNoDups(a, k, t);
  }

  /** Unlinking an active node keeps the shape. */
  lemma {:induction false} CutOutKeepsOk(a: seq<nat>, f: seq<nat>, ns: seq<Timer>, i: nat)
    requires ListsOk(a, f, ns) && i < |a|
    ensures ListsOk(a[..i] + a[i + 1..], f, ns) && a[i] !in a[..i] + a[i + 1..]
  {
    CutOutKeeps(a, ns, i);
    var r := a[..i] + a[i + 1..];
    assert forall x :: x in r ==> x in multiset(a);
  }

  /** Pushing a node that is on neither list onto the free list keeps the
      shape, and so does popping the free list, whose head is then on
      neither list. */
  lemma {:induction false} PushFreeKeepsOk(a: seq<nat>, f: seq<nat>, ns: seq<Timer>, t: nat)
    requires ListsOk(a, f, ns) && t < NumTimers && t !in a && t !in f
    ensures ListsOk(a, [t] + f, ns)
  {
    var f' := [t] + f;
    forall i, j | 0 <= i < j < |f'|
      ensures f'[i] != f'[j]
    {
      assert f'[j] == f[j - 1];
      if i > 0 {
        assert f'[i] == f[i - 1];
      }
    }
  }

  lemma {:induction false} PopFreeKeepsOk(a: seq<nat>, f: seq<nat>, ns: seq<Timer>)
    requires ListsOk(a, f, ns) && f != []
    ensures ListsOk(a, f[1..], ns) && f[0] !in a && f[0] !in f[1..] && f[0] < NumTimers
  {
    forall j | 0 <= j < |f[1..]|
      ensures f[1..][j] != f[0]
    {
      assert f[1..][j] == f[j + 1];
    }
  }

  /** Rewriting a node that is not active keeps the shape. */
  lemma {:induction false} SetKeepsOk(a: seq<nat>, f: seq<nat>, ns: seq<Timer>, t: nat, v: Timer)
    requires ListsOk(a, f, ns) && t < |ns| && t !in a
    ensures ListsOk(a, f, ns[t := v])
  {
    assert forall i :: 0 <= i < |a| ==> ns[t := v][a[i]] == ns[a[i]];
  }

  /** Firing the first `i` active timers, each freed or not by its
      callback, keeps the shape of the two lists. */
  lemma {:induction false} TickKeepsOk(a: seq<nat>, f: seq<nat>, ns: seq<Timer>, results: CallbackResults, i: nat)
    requires ListsOk(a, f, ns) && i <= |a|
    ensures ListsOk(a[i..], FreeAfter(a[..i], ns, results, f), ns)
  {
    if i > 0 {
      var before := FreeAfter(a[..i - 1], ns, results, f);
      var np := a[i - 1];
      assert ListsOk(a[i - 1..], before, ns) by {
        TickKeepsOk(a, f, ns, results, i - 1);
      }
      assert ListsOk(a[i..], before, ns) && np !in a[i..] by {
        assert a[i - 1..][1..] == a[i..];
        CutOutKeepsOk(a[i - 1..], before, ns, 0);
      }
      assert np !in before by {
        assert np in a[i - 1..];
      }
      assert a[..i][..i - 1] == a[..i - 1];
      if results(ns[np].cb, ns[np].userData) == CbReturnFreeTimer {
        PushFreeKeepsOk(a[i..], before, ns, np);
      }
    }
  }

  class TimerSystem {
    var tickCnt: nat
    var timerMemory: array<Timer>
    var active: seq<nat>
    var free: seq<nat>

    /** Both lists name pool nodes, each at most once and never on both
        lists; the active list is in fire order. */
    ghost predicate Valid()
      reads this, timerMemory
    {
      && timerMemory.Length == NumTimers
      && tickCnt < U64
      && ListsOk(active, free, timerMemory[..])
    }

    /** `init_timers`: both lists empty, then every pool node freed in
        index order, so the free list holds 9, 8, ..., 0. The pool's
        initial contents are not specified by the source; the model starts
        them at zero. */
    constructor ()
      ensures Valid() && fresh(timerMemory) && tickCnt == 0
      ensures active == []
      ensures |free| == NumTimers && forall j :: 0 <= j < NumTimers ==> free[j] == NumTimers - 1 - j
    {
      tickCnt := 0;
      timerMemory := new Timer[NumTimers](_ => Timer(0, 0, 0));
      active := [];
      free := [];
      new;
      var i := 0;
      while i < NumTimers
        invariant 0 <= i <= NumTimers
        invariant Valid() && fresh(timerMemory) && active == [] && tickCnt == 0
        invariant |free| == i && forall j :: 0 <= j < i ==> free[j] == i - 1 - j
      {
        FreeTimer(i);
        i := i + 1;
      }
    }

    /** `free_timer`: push the node on the head of the free list. */
    method FreeTimer(t: nat)
      requires Valid() && t < NumTimers && t !in free && t !in active
      modifies this`free
      ensures Valid() && free == [t] + old(free)
    {
      PushFreeKeepsOk(active, free, timerMemory[..], t);
      free := [t] + free;
    }

    /** `alloc_timer`: NULL when the free list is empty, otherwise its head,
        which is taken off it. */
    method AllocTimer() returns (r: Option<nat>)
      requires Valid()
      modifies this`free
      ensures Valid()
      ensures old(free) == [] ==> r == None && free == []
      ensures old(free) != [] ==> r == Some(old(free)[0]) && free == old(free)[1..]
      ensures r.Some? ==> r.value < NumTimers && r.value !in free && r.value !in active
    {
      if free == [] {
        return None;
      }
      PopFreeKeepsOk(active, free, timerMemory[..]);
      r := Some(free[0]);
      free := free[1..];
    }

    /** `set_timer`: a relative fire time is taken from the current tick
        (with uint64_t wrap-around), an absolute one as given; any other
        timer type is refused with -1 and the node left alone. The node
        must not be on the active list, whose order rests on its fire
        time. */
    method SetTimer(t: nat, tt: int, fire: nat, cb: int, userData: int) returns (r: int)
      requires Valid() && t < NumTimers && t !in active && fire < U64
      modifies timerMemory
      ensures Valid()
      ensures tt != TtRelative && tt != TtAbsolute ==> r == -1 && timerMemory[..] == old(timerMemory[..])
      ensures tt == TtRelative || tt == TtAbsolute ==>
                r == 0 &&
                timerMemory[..] == old(timerMemory[..])[t := Timer(if tt == TtRelative then (fire + tickCnt) % U64 else fire, cb, userData)]
    {
      var f := fire;
      if tt == TtRelative {
        f := (fire + tickCnt) % U64;
      } else if tt != TtAbsolute {
        return -1;
      }
      SetKeepsOk(active, free, timerMemory[..], t, Timer(f, cb, userData));
      timerMemory[t] := Timer(f, cb, userData);
      r := 0;
    }

    /** `arm_timer`: the node is linked in before the first active timer
        that fires strictly later, or at the tail. */
    method ArmTimer(t: nat)
      requires Valid() && t < NumTimers && t !in active && t !in free
      modifies this`active
      ensures Valid()
      ensures active == Arm(old(active), timerMemory[..], t)
    {
      var ns := timerMemory[..];
      var a := active;
      ArmKeepsOk(a, free, ns, t);
      if a == [] {
        active := [t];
        return;
      }
      var i := 0;
      while i < |a| && ns[t].fire >= ns[a[i]].fire
        invariant 0 <= i <= |a| && InPool(a) && |ns| == NumTimers
        invariant CountUpTo(a, ns, ns[t].fire) == i + CountUpTo(a[i..], ns, ns[t].fire)
      {
        assert a[i..][1..] == a[i + 1..];
        i := i + 1;
      }
      // before the first later node, or at the tail when there is none
      active := a[..i] + [t] + a[i..];
    }

    /** `disarm_timer`: unlink the node from the active list. */
    method DisarmTimer(t: nat)
      requires Valid() && t in active
      modifies this`active
      ensures Valid()
      ensures active == Remove(old(active), t)
      ensures multiset(active) == multiset(old(active)) - multiset{t} && t !in active
    {
      var i :| 0 <= i < |active| && active[i] == t;
      var r := active[..i] + active[i + 1..];
      assert r == Remove(active, t) by {
        RemoveCutsOut(active, t, i);
      }
      assert multiset(r) == multiset(active) - multiset{t} && t !in r by {
        CutOutKeeps(active, timerMemory[..], i);
      }
      assert ListsOk(r, free, timerMemory[..]) by {
        CutOutKeepsOk(active, free, timerMemory[..], i);
      }
      active := r;
    }

    /** `clock_tick`: advance the tick counter (uint64_t) and fire, in list
        order, every front timer whose fire time has come. Each fired node
        is disarmed and goes back to the free list when its callback returns
        CB_RETURN_FREE_TIMER. `fired` lists the callbacks run, in order. */
    method ClockTick(results: CallbackResults) returns (fired: seq<nat>)
      requires Valid()
      modifies this`tickCnt, this`active, this`free
      ensures Valid()
      ensures tickCnt == (old(tickCnt) + 1) % U64
      ensures var k := CountUpTo(old(active), timerMemory[..], tickCnt);
              fired == old(active)[..k] && active == old(active)[k..]
      ensures free == FreeAfter(fired, timerMemory[..], results, old(free))
      ensures forall i :: 0 <= i < |active| ==> timerMemory[active[i]].fire > tickCnt
    {
      tickCnt := (tickCnt + 1) % U64;
      var ns := timerMemory[..];
      var k, fr := FireDue(active, ns, tickCnt, results, free);
      LaterPastCount(active, ns, tickCnt);
      TickKeepsOk(active, free, ns, results, k);
      fired := active[..k];
      active := active[k..];
      free := fr;
    }
  }

  /** The loop of `clock_tick` over the active list `a` at time `now`: while
      the front timer is due it is disarmed and its callback run, and it is
      pushed back on the free list when the callback says so. Returns how
      many timers fired and the resulting free list. */
  method FireDue(a: seq<nat>, ns: seq<Timer>, now: nat, results: CallbackResults, free: seq<nat>)
    returns (k: nat, fr: seq<nat>)
    requires forall i :: 0 <= i < |a| ==> a[i] < |ns|
    ensures k == CountUpTo(a, ns, now)
    ensures fr == FreeAfter(a[..k], ns, results, free)
  {
    k := 0;
    fr := free;
    while k < |a| && ns[a[k]].fire <= now
      invariant 0 <= k <= |a|
      invariant CountUpTo(a, ns, now) == k + CountUpTo(a[k..], ns, now)
      invariant fr == FreeAfter(a[..k], ns, results, free)
    {
      var np := a[k];
      assert a[k..][1..] == a[k + 1..];
      if results(ns[np].cb, ns[np].userData) == CbReturnFreeTimer {
        fr := [np] + fr;
      }
      assert a[..k + 1][..k] == a[..k];
      k := k + 1;
    }
  }

  datatype Option<T> = None | Some(value: T)

  /** The free list is a stack: a node freed and then allocated again is
      the same node, and the free list is back as it was. */
  method FreeThenAlloc(s: TimerSystem, t: nat) returns (r: Option<nat>)
    requires s.Valid() && t < NumTimers && t !in s.free && t !in s.active
    modifies s`free
    ensures s.Valid() && r == Some(t) && s.free == old(s.free)
  {
    s.FreeTimer(t);
    r := s.AllocTimer();
  }
}
