// The dispatcher against true time: how often a timer fires across any number of
// 32-bit rollovers.
module TickLaws {
  import opened Words
  import opened Seqs
  import opened Tick

  // ------------------------------------------------------ rollover --

  lemma ModShift(a: int, k: int)
    ensures (a + k * TWO32) % TWO32 == a % TWO32
  {
  }

  lemma SubLow(t0: nat, t1: nat)
    ensures Sub(Low(t1), Low(t0)) == (t1 - t0) % TWO32
  {
    var (q0, q1) := (t0 / TWO32, t1 / TWO32);
    assert t0 == Low(t0) + q0 * TWO32 && t1 == Low(t1) + q1 * TWO32;
    var a: int := Low(t1);
    var b: int := Low(t0);
    ModShift(a - b, q1 - q0);
    assert (q1 - q0) * TWO32 == q1 * TWO32 - q0 * TWO32;
  }

  // An unsigned difference is the elapsed time, across a rollover too.
  lemma ElapsedIsTrue(t0: nat, t1: nat)
    requires t0 <= t1 < t0 + TWO32
    ensures Elapsed(Low(t0), Low(t1)) == t1 - t0
  {
    hide Sub, Low;
    SubLow(t0, t1);
  }

  // The signed difference of two low words is the true one while it fits 32 bits.
  lemma SignedIsTrue(t: nat, deadline: nat)
    requires -0x8000_0000 <= t - deadline < 0x8000_0000
    ensures AsSigned(Sub(Low(t), Low(deadline))) == t - deadline
  {
    hide Sub, Low;
    SubLow(deadline, t);
    if t < deadline { ModShift(t - deadline, 1); }
  }

  lemma AddLow(t: nat, us: word)
    requires us * TICKS_PER_US < TWO32
    ensures AddCycles(Low(t), us) == Low(t + us * TICKS_PER_US)
  {
    ModAdd(t, us * TICKS_PER_US);
  }

  // ------------------------------------------------------ the scan, slot by slot --

  // The latenesses of one slot's dispatches, in order.
  function Entries(log: seq<Dispatch>, j: nat): seq<word>
    decreases |log|
  {
    if log == [] then []
    else Entries(log[..|log| - 1], j) + if log[|log| - 1].slot == j then [log[|log| - 1].late] else []
  }

  function Count(log: seq<Dispatch>, j: nat): nat { |Entries(log, j)| }

  lemma EntriesSnoc(log: seq<Dispatch>, d: Dispatch, j: nat)
    ensures Entries(log + [d], j) == Entries(log, j) + if d.slot == j then [d.late] else []
  {
    assert (log + [d])[..|log|] == log;
  }

  function SlotAfter(s: Slot, now: word): Slot { if Due(s, now) then Expire(s) else s }

  predicate NoCancel(acts: seq<Act>, j: nat) { forall a <- acts :: a.CancelTimer? ==> a.id != j }
  predicate NoAdd(acts: seq<Act>) { forall a <- acts :: !a.AddTimer? }

  predicate CallsNoCancel(calls: Calls, j: nat) { forall acts <- calls :: NoCancel(acts, j) }
  predicate CallsNoAdd(calls: Calls) { forall acts <- calls :: NoAdd(acts) }

  // The callbacks of an interrupt leave a slot alone: they do not cancel it while it
  // is in use, and add nothing while it is free.
  predicate Spared(used: bool, calls: Calls, j: nat) {
    if used then CallsNoCancel(calls, j) else CallsNoAdd(calls)
  }

  lemma {:induction false} PerformKeeps(t: Table, acts: seq<Act>, j: nat)
    requires j < |t.slots| && if t.slots[j].used then NoCancel(acts, j) else NoAdd(acts)
    ensures PerformAll(t, acts).slots[j] == t.slots[j]
    decreases |acts|
  {
    hide AddCycles;
    if acts != [] {
      assert acts[0] in acts;
      assert Perform(t, acts[0]).slots[j] == t.slots[j];
      PerformKeeps(Perform(t, acts[0]), acts[1..], j);
    }
  }

  lemma {:induction false} PerformCounts(t: Table, acts: seq<Act>)
    ensures var r := PerformAll(t, acts);
            && r.log == t.log && r.fires == t.fires && r.late == t.late && r.maxLate == t.maxLate
            && r.baseUs == t.baseUs && r.lastLo == t.lastLo && r.tickUs == t.tickUs
    decreases |acts|
  {
    hide AddCycles;
    if acts != [] { PerformCounts(Perform(t, acts[0]), acts[1..]); }
  }

  lemma FireSlot(t: Table, i: nat, now: word, j: nat)
    requires i < |t.slots| && j < |t.slots|
    ensures var r := Fire(t, i, now);
            && r.slots[j] == (if i == j then Expire(t.slots[j]) else t.slots[j])
            && Entries(r.log, j) == Entries(t.log, j) + if i == j then [Elapsed(t.slots[j].next, now)] else []
  {
    hide Entries, Expire, Elapsed;
    EntriesSnoc(t.log, Dispatch(i, Elapsed(t.slots[i].next, now)), j);
  }

  lemma FireCalls(t: Table, i: nat, now: word, calls: Calls, j: nat)
    requires i < |t.slots| && j < |t.slots|
    requires Spared(if i == j then Expire(t.slots[j]).used else t.slots[j].used, calls, j)
    ensures var r := FireAndCall(t, i, now, calls);
            && r.slots[j] == (if i == j then Expire(t.slots[j]) else t.slots[j])
            && Entries(r.log, j) == Entries(t.log, j) + if i == j then [Elapsed(t.slots[j].next, now)] else []
  {
    hide Entries, Expire, Elapsed, Fire, PerformAll;
    FireSlot(t, i, now, j);
    if i < |calls| { assert calls[i] in calls; }
    PerformKeeps(Fire(t, i, now), ActsOf(calls, i), j);
    PerformCounts(Fire(t, i, now), ActsOf(calls, i));
  }

  // Each slot is looked at once, on its own deadline alone, whatever the callbacks of
  // the others do, as long as they spare it.
  lemma {:induction false} ScanSlot(t: Table, now: word, i: nat, calls: Calls, j: nat)
    requires i <= |t.slots| && j < |t.slots|
    requires Spared(t.slots[j].used, calls, j)
    requires i <= j ==> Spared(SlotAfter(t.slots[j], now).used, calls, j)
    ensures var r := Scan(t, now, i, calls);
            && r.slots[j] == (if i <= j then SlotAfter(t.slots[j], now) else t.slots[j])
            && Entries(r.log, j) == Entries(t.log, j)
                                    + if i <= j && Due(t.slots[j], now) then [Elapsed(t.slots[j].next, now)] else []
    decreases |t.slots| - i
  {
    hide Due, Expire, Elapsed, Entries, FireAndCall, Spared;
    if i < |t.slots| {
      if Due(t.slots[i], now) {
        FireCalls(t, i, now, calls, j);
        ScanSlot(FireAndCall(t, i, now, calls), now, i + 1, calls, j);
      } else {
        ScanSlot(t, now, i + 1, calls, j);
      }
    }
    Empty(Entries(t.log, j));
  }

  lemma IsrSlot(t: Table, now: word, calls: Calls, j: nat)
    requires j < |t.slots|
    requires Spared(t.slots[j].used, calls, j) && Spared(SlotAfter(t.slots[j], now).used, calls, j)
    ensures Isr(t, now, calls).slots[j] == SlotAfter(t.slots[j], now)
    ensures Entries(Isr(t, now, calls).log, j) ==
            Entries(t.log, j) + if Due(t.slots[j], now) then [Elapsed(t.slots[j].next, now)] else []
  {
    hide SlotAfter, Due, Entries, Elapsed, Spared;
    ScanSlot(t.(baseUs := (t.baseUs + t.tickUs) % TWO32, lastLo := now), now, 0, calls, j);
  }

  // ------------------------------------------------------ the statistics --

  function LateOnes(log: seq<Dispatch>): nat
    decreases |log|
  {
    if log == [] then 0 else LateOnes(log[..|log| - 1]) + if log[|log| - 1].late != 0 then 1 else 0
  }

  function Worst(log: seq<Dispatch>): word
    decreases |log|
  {
    if log == [] then 0
    else
      var w := Worst(log[..|log| - 1]);
      if log[|log| - 1].late > w then log[|log| - 1].late else w
  }

  // The three statistics are those of the dispatches made.
  predicate Accounted(t: Table) {
    t.fires == |t.log| % TWO32 && t.late == LateOnes(t.log) % TWO32 && t.maxLate == Worst(t.log)
  }

  lemma WorstIsMax(log: seq<Dispatch>, k: nat)
    requires k < |log|
    ensures log[k].late <= Worst(log)
    ensures Worst(log) == 0 || exists m :: 0 <= m < |log| && log[m].late == Worst(log)
    decreases |log|
  {
    var n := |log| - 1;
    if k < n { WorstIsMax(log[..n], k); } else if n > 0 { WorstIsMax(log[..n], 0); }
    if n > 0 && Worst(log[..n]) != 0 && Worst(log) == Worst(log[..n]) {
      var m :| 0 <= m < n && log[..n][m].late == Worst(log[..n]);
      assert log[m].late == Worst(log);
    }
  }

  lemma FireAccounts(t: Table, i: nat, now: word)
    requires i < |t.slots| && Accounted(t)
    ensures Accounted(Fire(t, i, now))
  {
    hide Elapsed, Expire;
    var r := Fire(t, i, now);
    assert r.log[..|t.log|] == t.log;
    ModAdd(|t.log|, 1);
    ModAdd(LateOnes(t.log), 1);
  }

  lemma {:induction false} ScanAccounts(t: Table, now: word, i: nat, calls: Calls)
    requires i <= |t.slots| && Accounted(t)
    ensures Accounted(Scan(t, now, i, calls))
    decreases |t.slots| - i
  {
    hide Due, Fire, PerformAll, LateOnes, Worst;
    if i < |t.slots| {
      if Due(t.slots[i], now) {
        FireAccounts(t, i, now);
        PerformCounts(Fire(t, i, now), ActsOf(calls, i));
        ScanAccounts(FireAndCall(t, i, now, calls), now, i + 1, calls);
      } else {
        ScanAccounts(t, now, i + 1, calls);
      }
    }
  }

  // ------------------------------------------------------ the microsecond reading --

  // Taken at the same instant before and after the interrupt's bookkeeping, the
  // reading moves by a whole tick less what had elapsed of it: it steps back exactly
  // when the interrupt comes a microsecond or more after its tick was over.
  lemma ReadingStep(t: Table, now: word, calls: Calls)
    requires t.tickUs < 0x8000_0000
    ensures var elapsed := Sub(now, t.lastLo) / TICKS_PER_US;
            var moved := AsSigned(Sub(UsNow(Isr(t, now, calls), now), UsNow(t, now)));
            moved == t.tickUs - elapsed && (moved < 0 <==> elapsed > t.tickUs)
  {
    hide Sub, Isr, UsNow, Low, AsSigned;
    var elapsed := Sub(now, t.lastLo) / TICKS_PER_US;
    ReadingBefore(t, now);
    ReadingAfter(t, now, calls);
    SubLow(t.baseUs + elapsed, t.baseUs + t.tickUs);
    SignedSmall(t.tickUs - elapsed);
  }

  lemma ReadingBefore(t: Table, now: word)
    ensures UsNow(t, now) == Low(t.baseUs + Sub(now, t.lastLo) / TICKS_PER_US)
    ensures Sub(now, t.lastLo) / TICKS_PER_US < 0x8000_0000
  {
  }

  lemma ReadingAfter(t: Table, now: word, calls: Calls)
    ensures UsNow(Isr(t, now, calls), now) == Low(t.baseUs + t.tickUs)
  {
    hide Scan;
    ScanKeepsClock(t.(baseUs := (t.baseUs + t.tickUs) % TWO32, lastLo := now), now, 0, calls);
    assert Sub(now, now) == 0;
  }

  lemma SignedSmall(d: int)
    requires -0x8000_0000 <= d < 0x8000_0000
    ensures AsSigned(d % TWO32) == d
  {
    if d < 0 { ModShift(d, 1); }
  }

  lemma {:induction false} ScanKeepsClock(t: Table, now: word, i: nat, calls: Calls)
    requires i <= |t.slots|
    ensures var r := Scan(t, now, i, calls);
            r.baseUs == t.baseUs && r.lastLo == t.lastLo && r.tickUs == t.tickUs
    decreases |t.slots| - i
  {
    hide Due, Expire, Elapsed, PerformAll;
    if i < |t.slots| {
      if Due(t.slots[i], now) {
        PerformCounts(Fire(t, i, now), ActsOf(calls, i));
        ScanKeepsClock(FireAndCall(t, i, now, calls), now, i + 1, calls);
      } else {
        ScanKeepsClock(t, now, i + 1, calls);
      }
    }
  }

  // A tick of 1000 us interrupted after 1200: the reading goes from 1200 back to 1000.
  lemma LateReadingStepsBack(t: Table, calls: Calls)
    requires t.tickUs == 1000 && t.baseUs == 0 && t.lastLo == 0
    ensures UsNow(t, 60_000) == 1200 && UsNow(Isr(t, 60_000, calls), 60_000) == 1000
  {
    hide Isr;
    ReadingAfter(t, 60_000, calls);
  }
}
