// Every period timer_add accepts: the deadline is kept on 32 bits and compared as a
// signed difference, so a long one may be met early. Exactly which are not.
module TickLimits {
  import opened Words
  import opened Tick
  import opened TickLaws
  import opened TickRuns

  const HALF: nat := 0x8000_0000

  // The slot of a timer added at true time `start`.
  function AddedSlot(start: nat, us: word, oneShot: bool, cb: nat): Slot {
    Slot(AddCycles(Low(start), us), us, cb, true, oneShot)
  }

  lemma NextIs(start: nat, us: word)
    ensures AddCycles(Low(start), us) == Low(start + Cycles(us))
  {
    hide Cycles;
    ModAdd(start, Cycles(us));
  }

  lemma SignedHalf(w: word)
    ensures AsSigned(w) >= 0 <==> w < HALF
  {
  }

  // e cycles after it is added, a timer is due exactly when e is past its period, on
  // 32 bits, by less than half the counter's range.
  lemma DueIff(start: nat, us: word, oneShot: bool, cb: nat, e: nat)
    ensures Due(AddedSlot(start, us, oneShot, cb), Low(start + e)) <==> (e - Cycles(us)) % TWO32 < HALF
  {
    hide Cycles, Sub, AsSigned, AddCycles, Low;
    NextIs(start, us);
    SubLow(start + Cycles(us), start + e);
    SignedHalf(Sub(Low(start + e), Low(start + Cycles(us))));
  }

  // The first moment, after it is added, at which a timer is due.
  function Earliest(us: word): nat { if Cycles(us) > HALF then 0 else Cycles(us) }

  lemma DueAtEarliest(start: nat, us: word, oneShot: bool, cb: nat)
    ensures Due(AddedSlot(start, us, oneShot, cb), Low(start + Earliest(us)))
  {
    hide Due, Cycles;
    DueIff(start, us, oneShot, cb, Earliest(us));
    var c: int := Cycles(us);
    if c > HALF { ModShift(0 - c, 1); }
  }

  lemma NotDueBefore(start: nat, us: word, oneShot: bool, cb: nat, e: nat)
    requires e < Earliest(us)
    ensures !Due(AddedSlot(start, us, oneShot, cb), Low(start + e))
  {
    hide Due, Cycles;
    DueIff(start, us, oneShot, cb, e);
    var c: int := Cycles(us);
    ModShift(e - c, 1);
  }

  // A timer is due at the very instant it is added exactly when its period, in 32-bit
  // cycles, is zero or more than half the counter's range.
  lemma DueAtOnceIff(start: nat, us: word, oneShot: bool, cb: nat)
    ensures Due(AddedSlot(start, us, oneShot, cb), Low(start)) <==> Cycles(us) == 0 || Cycles(us) > HALF
  {
    hide Due, Cycles;
    assert start + 0 == start;
    if Earliest(us) == 0 { DueAtEarliest(start, us, oneShot, cb); } else { NotDueBefore(start, us, oneShot, cb, 0); }
  }

  // The period in cycles either fits 31 bits, and then the deadline is the true one, or
  // the earliest moment comes before it.
  lemma EarliestIs(us: word)
    ensures us * TICKS_PER_US < HALF ==> Earliest(us) == us * TICKS_PER_US
    ensures us * TICKS_PER_US >= HALF ==> us * TICKS_PER_US > HALF && Earliest(us) < us * TICKS_PER_US
    ensures Earliest(us) <= HALF
  {
  }

  // Some moment before the end of its period finds a timer due exactly when the period
  // is more than 2^31 cycles.
  lemma EarlyIff(start: nat, us: word, oneShot: bool, cb: nat)
    ensures (exists t: nat :: start <= t < start + us * TICKS_PER_US && Due(AddedSlot(start, us, oneShot, cb), Low(t)))
            <==> us * TICKS_PER_US > HALF
  {
    hide Due, AddedSlot, Low, Earliest;
    EarliestIs(us);
    DueAtEarliest(start, us, oneShot, cb);
    forall t: nat | start <= t < start + Earliest(us)
      ensures !Due(AddedSlot(start, us, oneShot, cb), Low(t))
    {
      NotDueBefore(start, us, oneShot, cb, t - start);
    }
  }

  // ------------------------------------------------------ periodic timers --

  lemma AddedTo(t: Table, start: nat, us: word, oneShot: bool, cb: nat)
    requires Add(t, Low(start), us, oneShot, cb).1 >= 0
    ensures var (u, id) := Add(t, Low(start), us, oneShot, cb);
            id < |u.slots| == |t.slots| && u.log == t.log && u.slots[id] == AddedSlot(start, us, oneShot, cb)
  {
    hide Low, AddCycles;
  }

  // The run that shows it: one interrupt, when the timer is first due.
  function AtEarliest(start: nat, us: word): seq<Event> { [Interrupt(start + Earliest(us), [])] }

  lemma EarlyDispatch(t: Table, start: nat, us: word, oneShot: bool, cb: nat)
    requires Add(t, Low(start), us, oneShot, cb).1 >= 0
    ensures var (u, id) := Add(t, Low(start), us, oneShot, cb);
            && Count(After(u, AtEarliest(start, us)).log, id) == Count(t.log, id) + 1
            && Count(Apply(u, AtEarliest(start, us)[0]).log, id) == Count(t.log, id) + 1
  {
    hide Add, Isr, Due, Low, Earliest, AddCycles, Elapsed, Entries;
    AddedTo(t, start, us, oneShot, cb);
    DueAtEarliest(start, us, oneShot, cb);
    var (u, id) := Add(t, Low(start), us, oneShot, cb);
    IsrSlot(u, Low(start + Earliest(us)), [], id);
    var ev := AtEarliest(start, us);
    assert ev[1..] == [];
  }

  // In time order, cancelling nothing, skipping no period.
  lemma EarlyRunIsOrderly(start: nat, us: word, j: nat)
    requires us * TICKS_PER_US > HALF
    ensures var (ev, p) := (AtEarliest(start, us), us * TICKS_PER_US);
            && Ordered(ev, start, j) && NoneSkipped(ev, start, start, p) && Prompt(ev, start, HALF)
            && QuietFrom(ev, start + p) && LastTime(ev, start) < start + p
            && Periods(Earliest(us), p) == 0
  {
    hide Earliest, Periods;
    EarliestIs(us);
    var (ev, p, at) := (AtEarliest(start, us), us * TICKS_PER_US, start + Earliest(us));
    assert ev[1..] == [];
    PeriodsAre(start, p, 0, at);
    PeriodsAre(start, p, 0, start);
  }

  // For every table with a free slot and every period but zero: over all runs in time
  // order that do not cancel it, a periodic timer's count is right after every interrupt
  // exactly when none skips a period - if and only if the period is less than 2^31
  // cycles. A longer one is wrong even where none is skipped.
  lemma PeriodicExactIff(t: Table, start: nat, us: word, cb: nat)
    requires us > 0 && Add(t, Low(start), us, false, cb).1 >= 0
    ensures var (u, id) := Add(t, Low(start), us, false, cb);
            var p := us * TICKS_PER_US;
            (forall ev :: Ordered(ev, start, id) ==>
               (AlwaysExact(u, ev, id, start, p, Count(t.log, id)) <==> NoneSkipped(ev, start, start, p)))
            <==> p < HALF
    ensures var (u, id) := Add(t, Low(start), us, false, cb);
            var p := us * TICKS_PER_US;
            (forall ev :: Ordered(ev, start, id) && NoneSkipped(ev, start, start, p) ==>
               AlwaysExact(u, ev, id, start, p, Count(t.log, id)))
            <==> p < HALF
  {
    hide Low, Add, AlwaysExact, Ordered, NoneSkipped, Count, AtEarliest;
    var (u, id) := Add(t, Low(start), us, false, cb);
    var p := us * TICKS_PER_US;
    if p < HALF {
      forall ev | Ordered(ev, start, id)
        ensures AlwaysExact(u, ev, id, start, p, Count(t.log, id)) <==> NoneSkipped(ev, start, start, p)
      {
        FittingExactIff(t, start, us, cb, ev);
      }
    } else {
      EarliestIs(us);
      EarlyRunIsOrderly(start, us, id);
      EarlyIsWrong(t, start, us, cb);
    }
  }

  lemma EarlyIsWrong(t: Table, start: nat, us: word, cb: nat)
    requires us * TICKS_PER_US > HALF && Add(t, Low(start), us, false, cb).1 >= 0
    ensures var (u, id) := Add(t, Low(start), us, false, cb);
            !AlwaysExact(u, AtEarliest(start, us), id, start, us * TICKS_PER_US, Count(t.log, id))
  {
    hide Low, Add, Apply, Count, Periods, Earliest;
    EarlyDispatch(t, start, us, false, cb);
    EarlyRunIsOrderly(start, us, Add(t, Low(start), us, false, cb).1);
  }

  // ------------------------------------------------------ one-shots --

  // The same for a one-shot: over all runs with interrupts at most 2^31 cycles apart, it
  // has fired exactly when an interrupt has reached its delay - if and only if the delay
  // is less than 2^31 cycles.
  lemma OneShotExactIff(t: Table, start: nat, us: word, cb: nat)
    requires us > 0 && Add(t, Low(start), us, true, cb).1 >= 0
    ensures var (u, id) := Add(t, Low(start), us, true, cb);
            var p := us * TICKS_PER_US;
            (forall ev :: Ordered(ev, start, id) && Prompt(ev, start, HALF) && QuietFrom(ev, start + p) ==>
               Count(After(u, ev).log, id) == Count(t.log, id) + if LastTime(ev, start) >= start + p then 1 else 0)
            <==> p < HALF
  {
    hide Low, Add, Ordered, Prompt, QuietFrom, LastTime, After, Count, AtEarliest;
    var (u, id) := Add(t, Low(start), us, true, cb);
    var p := us * TICKS_PER_US;
    if p < HALF {
      AddedIsPending(t, start, us, cb);
      forall ev | Ordered(ev, start, id) && Prompt(ev, start, HALF) && QuietFrom(ev, start + p)
        ensures Count(After(u, ev).log, id) == Count(t.log, id) + if LastTime(ev, start) >= start + p then 1 else 0
      {
        OneShotFiresOnce(u, ev, id, start, p, start);
      }
    } else {
      EarliestIs(us);
      EarlyRunIsOrderly(start, us, id);
      EarlyDispatch(t, start, us, true, cb);
    }
  }

  lemma AddedIsPending(t: Table, start: nat, us: word, cb: nat)
    requires us > 0 && us * TICKS_PER_US < HALF && Add(t, Low(start), us, true, cb).1 >= 0
    ensures var (u, id) := Add(t, Low(start), us, true, cb);
            id < |u.slots| && u.log == t.log && Pending(u.slots[id], start, us * TICKS_PER_US, start)
  {
    hide Low;
    AddLow(start, us);
    AddedTo(t, start, us, true, cb);
  }

  // ------------------------------------------------------ two periods --

  // 45 seconds is due at once.
  lemma FortyFiveSeconds(start: nat, oneShot: bool, cb: nat)
    ensures Due(AddedSlot(start, 45_000_000, oneShot, cb), Low(start))
  {
    hide Due, AddedSlot, Low;
    assert Cycles(45_000_000) > HALF;
    DueAtOnceIff(start, 45_000_000, oneShot, cb);
  }

  // 100 seconds is not, but is met after 14.1: one dispatch, and no period is over.
  lemma HundredSeconds(t: Table, cb: nat)
    requires Add(t, 0, 100_000_000, false, cb).1 >= 0
    ensures var (u, id) := Add(t, 0, 100_000_000, false, cb);
            var ev := [Interrupt(705_032_704, [])];
            && !Due(u.slots[id], 0)
            && NoneSkipped(ev, 0, 0, 5_000_000_000) && Periods(705_032_704, 5_000_000_000) == 0
            && Count(After(u, ev).log, id) == Count(t.log, id) + 1
  {
    var us: word := 100_000_000;
    assert Low(0) == 0 && Earliest(us) == 705_032_704 && us * TICKS_PER_US == 5_000_000_000;
    hide Low, Add, Due, After, NoneSkipped, Earliest, Periods, Count;
    AddedTo(t, 0, us, false, cb);
    DueAtOnceIff(0, us, false, cb);
    EarlyDispatch(t, 0, us, false, cb);
    EarlyRunIsOrderly(0, us, 0);
  }
}
