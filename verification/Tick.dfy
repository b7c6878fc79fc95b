// The software timer service: eight slots, deadlines on the low word of the cycle
// counter, and a dispatcher run by the timer interrupt.
module Tick {
  import opened Words

  const TICK_MAX_TIMERS: nat := 8
  const TICKS_PER_US: nat := 50

  // cb stands for the callback and its argument.
  datatype Slot = Slot(next: word, periodUs: word, cb: nat, used: bool, oneShot: bool)

  // A slot dispatched, and by how much its deadline had passed.
  datatype Dispatch = Dispatch(slot: nat, late: word)

  // The service's statics, and the dispatches so far, in order; a dispatched slot runs
  // its callback if it has one.
  datatype Table = Table(slots: seq<Slot>, fires: word, late: word, maxLate: word,
                         tickUs: word, baseUs: word, lastLo: word, log: seq<Dispatch>)

  // What a callback may do to the table while it runs.
  datatype Act =
    | AddTimer(now: word, periodUs: word, oneShot: bool, cb: nat)
    | CancelTimer(id: int)

  // For each slot, what its callback does if it runs in this interrupt.
  type Calls = seq<seq<Act>>

  predicate Whole(t: Table) { |t.slots| == TICK_MAX_TIMERS }

  // ------------------------------------------------------ 32-bit time --

  function Low(t: nat): word { t % TWO32 }

  function Sub(a: word, b: word): word { (a - b) % TWO32 }

  function Elapsed(t0: word, t1: word): word { Sub(t1, t0) }

  function Cycles(us: word): word { (us * TICKS_PER_US) % TWO32 }

  function AddCycles(t: word, us: word): word { (t + Cycles(us)) % TWO32 }

  predicate Due(s: Slot, now: word) { s.used && AsSigned(Sub(now, s.next)) >= 0 }

  // ------------------------------------------------------ the dispatcher --

  // A slot whose deadline has passed: it is re-armed one period on, or freed.
  function Expire(s: Slot): Slot {
    if s.oneShot then s.(used := false) else s.(next := AddCycles(s.next, s.periodUs))
  }

  function Lateness(t: Table, l: word): Table {
    if l == 0 then t else t.(late := Inc(t.late), maxLate := if l > t.maxLate then l else t.maxLate)
  }

  function Fire(t: Table, i: nat, now: word): (r: Table)
    requires i < |t.slots|
    ensures |r.slots| == |t.slots|
  {
    var l := Elapsed(t.slots[i].next, now);
    var u := Lateness(t, l);
    u.(fires := Inc(t.fires), slots := t.slots[i := Expire(t.slots[i])], log := t.log + [Dispatch(i, l)])
  }

  function Perform(t: Table, a: Act): (r: Table)
    ensures |r.slots| == |t.slots|
  {
    match a
    case AddTimer(now, us, one, cb) => Add(t, now, us, one, cb).0
    case CancelTimer(id) => Cancel(t, id).0
  }

  function PerformAll(t: Table, acts: seq<Act>): (r: Table)
    ensures |r.slots| == |t.slots|
    decreases |acts|
  {
    if acts == [] then t else PerformAll(Perform(t, acts[0]), acts[1..])
  }

  function ActsOf(calls: Calls, i: nat): seq<Act> { if i < |calls| then calls[i] else [] }

  function FireAndCall(t: Table, i: nat, now: word, calls: Calls): (r: Table)
    requires i < |t.slots|
    ensures |r.slots| == |t.slots|
  {
    PerformAll(Fire(t, i, now), ActsOf(calls, i))
  }

  // Slots i to the last, in order.
  function Scan(t: Table, now: word, i: nat, calls: Calls): (r: Table)
    requires i <= |t.slots|
    ensures |r.slots| == |t.slots|
    decreases |t.slots| - i
  {
    if i == |t.slots| then t
    else Scan(if Due(t.slots[i], now) then FireAndCall(t, i, now, calls) else t, now, i + 1, calls)
  }

  // The interrupt: one tick of wall time has passed, and due timers run.
  function Isr(t: Table, now: word, calls: Calls): (r: Table)
    ensures |r.slots| == |t.slots|
  {
    Scan(t.(baseUs := (t.baseUs + t.tickUs) % TWO32, lastLo := now), now, 0, calls)
  }

  function UsNow(t: Table, now: word): word { (t.baseUs + Sub(now, t.lastLo) / TICKS_PER_US) % TWO32 }

  // ------------------------------------------------------ adding, cancelling --

  function FirstFree(s: seq<Slot>, i: nat): (r: int)
    requires i <= |s|
    ensures -1 <= r < |s| && (r >= 0 ==> i <= r && !s[r].used)
    ensures r < 0 ==> forall k :: i <= k < |s| ==> s[k].used
    ensures forall k :: i <= k < r ==> s[k].used
    decreases |s| - i
  {
    if i == |s| then -1 else if !s[i].used then i else FirstFree(s, i + 1)
  }

  function Add(t: Table, now: word, periodUs: word, oneShot: bool, cb: nat): (Table, int) {
    var i := FirstFree(t.slots, 0);
    if i < 0 then (t, -1)
    else (t.(slots := t.slots[i := Slot(AddCycles(now, periodUs), periodUs, cb, true, oneShot)]), i)
  }

  function Cancel(t: Table, id: int): (Table, int) {
    if id < 0 || id >= |t.slots| || !t.slots[id].used then (t, 0)
    else (t.(slots := t.slots[id := t.slots[id].(used := false)]), 1)
  }

  // ------------------------------------------------------ as it runs --

  class Service {
    const timers: array<Slot>
    var fires: word
    var late: word
    var maxLate: word
    var tickUs: word
    var baseUs: word
    var lastLo: word
    var log: seq<Dispatch>

    ghost function View(): Table
      reads this, timers
    {
      Table(timers[..], fires, late, maxLate, tickUs, baseUs, lastLo, log)
    }

    ghost predicate Valid() { timers.Length == TICK_MAX_TIMERS }

    // tick_init; the low word of the counter is read once.
    constructor (periodUs: word, now: word)
      ensures Valid() && Whole(View()) && (forall i :: 0 <= i < TICK_MAX_TIMERS ==> !View().slots[i].used)
      ensures fires == 0 && late == 0 && maxLate == 0 && baseUs == 0 && lastLo == now && log == []
      ensures tickUs == if periodUs == 0 then 1000 else periodUs
    {
      timers := new Slot[TICK_MAX_TIMERS](_ => Slot(0, 0, 0, false, false));
      tickUs := if periodUs == 0 then 1000 else periodUs;
      fires, late, maxLate, baseUs, lastLo, log := 0, 0, 0, 0, now, [];
    }

    method TimerAdd(now: word, periodUs: word, oneShot: bool, cb: nat) returns (id: int)
      requires Valid()
      modifies timers
      ensures (View(), id) == Add(old(View()), now, periodUs, oneShot, cb)
    {
      hide AddCycles;
      for i := 0 to TICK_MAX_TIMERS
        invariant timers[..] == old(timers[..])
        invariant FirstFree(timers[..], 0) == FirstFree(timers[..], i)
      {
        if timers[i].used { continue; }
        timers[i] := Slot(AddCycles(now, periodUs), periodUs, cb, true, oneShot);
        return i;
      }
      return -1;
    }

    method TimerCancel(id: int) returns (ok: int)
      requires Valid()
      modifies timers
      ensures (View(), ok) == Cancel(old(View()), id)
    {
      if id < 0 || id >= TICK_MAX_TIMERS || !timers[id].used { return 0; }
      timers[id] := timers[id].(used := false);
      return 1;
    }

    method FireSlot(i: nat, now: word)
      requires Valid() && i < TICK_MAX_TIMERS
      modifies this, timers
      ensures View() == Fire(old(View()), i, now)
    {
      hide AddCycles, Sub;
      var t := timers[i];
      var l := Elapsed(t.next, now);
      if l != 0 {
        late := Inc(late);
        if l > maxLate { maxLate := l; }
      }
      fires := Inc(fires);
      if t.oneShot {
        timers[i] := t.(used := false);
      } else {
        timers[i] := t.(next := AddCycles(t.next, t.periodUs));
      }
      log := log + [Dispatch(i, l)];
    }

    // A callback at work.
    method RunActs(acts: seq<Act>)
      requires Valid()
      modifies timers
      ensures View() == PerformAll(old(View()), acts)
    {
      hide Add, Cancel;
      assert acts[0..] == acts;
      for k := 0 to |acts|
        invariant PerformAll(View(), acts[k..]) == PerformAll(old(View()), acts)
      {
        assert acts[k..][0] == acts[k] && acts[k..][1..] == acts[k + 1..];
        match acts[k] {
          case AddTimer(now, us, one, cb) => var _ := TimerAdd(now, us, one, cb);
          case CancelTimer(id) => var _ := TimerCancel(id);
        }
      }
    }

    method TickIsr(now: word, calls: Calls)
      requires Valid()
      modifies this, timers
      ensures View() == Isr(old(View()), now, calls)
    {
      hide Fire, Sub, PerformAll;
      baseUs := (baseUs + tickUs) % TWO32;
      lastLo := now;
      for i := 0 to TICK_MAX_TIMERS
        invariant Scan(View(), now, i, calls) == Isr(old(View()), now, calls)
      {
        if !timers[i].used { continue; }
        if AsSigned(Sub(now, timers[i].next)) < 0 { continue; }
        FireSlot(i, now);
        RunActs(ActsOf(calls, i));
      }
    }
  }
}
