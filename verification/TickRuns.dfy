// A timer over whole runs: how often it has been dispatched after every interrupt,
// against true time, and exactly when that count is right.
module TickRuns {
  import opened Words
  import opened Tick
  import opened TickLaws

  // ------------------------------------------------------ one periodic timer --

  // A periodic timer set going at true time `start` that has been dispatched k times
  // by t: its deadline is the end of period k + 1, which may be past already.
  ghost predicate Armed(s: Slot, start: nat, p: nat, k: nat, t: nat) {
    && s.used && !s.oneShot && s.periodUs * TICKS_PER_US == p
    && 0 < p < 0x8000_0000
    && s.next == Low(start + (k + 1) * p)
    && start + k * p <= t
  }

  lemma NextPeriod(start: nat, p: nat, k: nat)
    ensures start + (k + 2) * p == start + (k + 1) * p + p && start + (k + 1) * p == start + k * p + p
  {
  }

  // Whole periods in a stretch of time.
  function Periods(elapsed: nat, p: nat): nat
    requires p > 0
  {
    Div(elapsed, p)
  }

  // k periods are over, and k + 1 are not.
  lemma PeriodsAre(start: nat, p: nat, k: nat, t: nat)
    requires p > 0 && start <= t
    ensures Periods(t - start, p) >= k <==> start + k * p <= t
    ensures Periods(t - start, p) <= k <==> t < start + (k + 1) * p
  {
    hide Div, Mod;
    var q := Periods(t - start, p);
    Division(t - start, p);
    if q < k { Between(q, k, p); }
    if q > k { Between(k, q, p); }
    NextPeriod(start, p, k);
    AtLeast(q, k, p);
  }

  lemma Between(a: nat, b: nat, p: nat)
    requires a < b
    ensures (a + 1) * p <= b * p
  {
    MulMono(a + 1, b, p);
  }

  lemma AtLeast(q: nat, k: nat, p: nat)
    ensures q >= k ==> q * p >= k * p
    ensures q <= k ==> q * p <= k * p
    ensures (q + 1) * p == q * p + p && (k + 1) * p == k * p + p
  {
    if q >= k { MulMono(k, q, p); }
    if q <= k { MulMono(q, k, p); }
  }

  // One interrupt at t2: the timer is dispatched exactly when its deadline has been
  // reached, with its true lateness, and only once however late that is.
  lemma OneInterrupt(s: Slot, start: nat, p: nat, k: nat, t: nat, t2: nat)
    requires Armed(s, start, p, k, t) && t <= t2 < start + (k + 1) * p + 0x8000_0000
    ensures Due(s, Low(t2)) <==> start + (k + 1) * p <= t2
    ensures Due(s, Low(t2)) ==> Elapsed(s.next, Low(t2)) == t2 - (start + (k + 1) * p)
    ensures Armed(SlotAfter(s, Low(t2)), start, p, if Due(s, Low(t2)) then k + 1 else k, t2)
  {
    hide Low, Sub, AsSigned, AddCycles;
    var deadline := start + (k + 1) * p;
    NextPeriod(start, p, k);
    if t2 >= deadline {
      SignedIsTrue(t2, deadline);
      ElapsedIsTrue(deadline, t2);
    } else if deadline - t2 <= 0x8000_0000 {
      SignedIsTrue(t2, deadline);
    }
    AddLow(deadline, s.periodUs);
  }

  // ------------------------------------------------------ runs --

  datatype Event =
    | Interrupt(t: nat, calls: Calls)
    | Added(now: nat, periodUs: word, oneShot: bool, cb: nat)
    | Cancelled(id: int)

  function Apply(t: Table, e: Event): (r: Table)
    ensures |r.slots| == |t.slots|
  {
    match e
    case Interrupt(at, calls) => Isr(t, Low(at), calls)
    case Added(now, us, one, cb) => Add(t, Low(now), us, one, cb).0
    case Cancelled(id) => Cancel(t, id).0
  }

  function After(t: Table, ev: seq<Event>): (r: Table)
    ensures |r.slots| == |t.slots|
    decreases |ev|
  {
    if ev == [] then t else After(Apply(t, ev[0]), ev[1..])
  }

  // True time does not run backwards from t, and nothing cancels slot j.
  predicate Ordered(ev: seq<Event>, t: nat, j: nat)
    decreases |ev|
  {
    ev == []
    || match ev[0]
       case Interrupt(at, calls) => t <= at && CallsNoCancel(calls, j) && Ordered(ev[1..], at, j)
       case Added(_, _, _, _) => Ordered(ev[1..], t, j)
       case Cancelled(id) => id != j && Ordered(ev[1..], t, j)
  }

  // Adding and cancelling other timers does not disturb a slot in use.
  lemma OthersKeep(t: Table, e: Event, j: nat)
    requires j < |t.slots| && t.slots[j].used && !e.Interrupt?
    requires e.Cancelled? ==> e.id != j
    ensures Apply(t, e).slots[j] == t.slots[j] && Apply(t, e).log == t.log
  {
    hide AddCycles;
  }

  // An interrupt on a periodic timer that no callback cancels.
  lemma PeriodicSlot(t: Table, at: nat, calls: Calls, j: nat)
    requires j < |t.slots| && t.slots[j].used && !t.slots[j].oneShot && CallsNoCancel(calls, j)
    ensures var u := Isr(t, Low(at), calls);
            && u.slots[j] == SlotAfter(t.slots[j], Low(at))
            && Count(u.log, j) == Count(t.log, j) + if Due(t.slots[j], Low(at)) then 1 else 0
  {
    hide Isr, Due, Entries, Elapsed, CallsNoCancel;
    IsrSlot(t, Low(at), calls, j);
  }

  // ------------------------------------------------------ how often --

  // Dispatches after a run, counting from k: at most one per interrupt.
  function Fired(ev: seq<Event>, start: nat, p: nat, k: nat): nat
    decreases |ev|
  {
    if ev == [] then k
    else Fired(ev[1..], start, p, if ev[0].Interrupt? && start + (k + 1) * p <= ev[0].t then k + 1 else k)
  }

  // No interrupt comes 2^31 cycles or more after the deadline outstanding.
  predicate Attended(ev: seq<Event>, start: nat, p: nat, k: nat)
    decreases |ev|
  {
    ev == []
    || if ev[0].Interrupt? then
         && ev[0].t < start + (k + 1) * p + 0x8000_0000
         && Attended(ev[1..], start, p, if start + (k + 1) * p <= ev[0].t then k + 1 else k)
       else Attended(ev[1..], start, p, k)
  }

  // Whatever the gaps between interrupts, the count is that of the deadlines met one at
  // a time: a timer that has fallen behind catches up by one at each interrupt.
  lemma {:induction false} CountIsFired(t: Table, ev: seq<Event>, j: nat, start: nat, p: nat, k: nat, now: nat)
    requires j < |t.slots| && Armed(t.slots[j], start, p, k, now)
    requires Ordered(ev, now, j) && Attended(ev, start, p, k)
    ensures Count(After(t, ev).log, j) == Count(t.log, j) + Fired(ev, start, p, k) - k
    decreases |ev|
  {
    hide Apply, Due, SlotAfter, Count, Low, CallsNoCancel;
    if ev != [] {
      var u := Apply(t, ev[0]);
      if ev[0].Interrupt? {
        var n := if start + (k + 1) * p <= ev[0].t then k + 1 else k;
        ArmedStep(t, ev[0], j, start, p, k, now);
        CountIsFired(u, ev[1..], j, start, p, n, ev[0].t);
      } else {
        OthersKeep(t, ev[0], j);
        CountIsFired(u, ev[1..], j, start, p, k, now);
      }
    }
  }

  lemma ArmedStep(t: Table, e: Event, j: nat, start: nat, p: nat, k: nat, now: nat)
    requires j < |t.slots| && Armed(t.slots[j], start, p, k, now)
    requires e.Interrupt? && now <= e.t < start + (k + 1) * p + 0x8000_0000 && CallsNoCancel(e.calls, j)
    ensures var (u, n) := (Apply(t, e), if start + (k + 1) * p <= e.t then k + 1 else k);
            Armed(u.slots[j], start, p, n, e.t) && Count(u.log, j) == Count(t.log, j) + n - k
  {
    hide Due, SlotAfter, Count, Low, Isr, CallsNoCancel;
    OneInterrupt(t.slots[j], start, p, k, now, e.t);
    PeriodicSlot(t, e.t, e.calls, j);
  }

  // ------------------------------------------------------ exactly when right --

  // No interrupt finds two more periods over than the one before it found.
  predicate NoneSkipped(ev: seq<Event>, t: nat, start: nat, p: nat)
    requires p > 0
    decreases |ev|
  {
    ev == []
    || if ev[0].Interrupt? then
         && start <= t <= ev[0].t
         && Periods(ev[0].t - start, p) <= Periods(t - start, p) + 1
         && NoneSkipped(ev[1..], ev[0].t, start, p)
       else NoneSkipped(ev[1..], t, start, p)
  }

  // After every interrupt of the run, slot j has been dispatched once per whole period,
  // on top of `base`.
  ghost predicate AlwaysExact(t: Table, ev: seq<Event>, j: nat, start: nat, p: nat, base: int)
    requires p > 0
    decreases |ev|
  {
    ev == []
    || var u := Apply(t, ev[0]);
       && (ev[0].Interrupt? ==>
             ev[0].t >= start && Count(u.log, j) == base + Periods(ev[0].t - start, p))
       && AlwaysExact(u, ev[1..], j, start, p, base)
  }

  // From an exact count, the next is exact if and only if no period was skipped; this
  // needs no bound on how late the interrupt is.
  lemma ExactStep(t: Table, e: Event, j: nat, start: nat, p: nat, k: nat, now: nat)
    requires j < |t.slots| && Armed(t.slots[j], start, p, k, now) && k == Periods(now - start, p)
    requires e.Interrupt? && now <= e.t && CallsNoCancel(e.calls, j)
    ensures var (u, n) := (Apply(t, e), Periods(e.t - start, p));
            && (Count(u.log, j) == Count(t.log, j) + n - k <==> n <= k + 1)
            && (n <= k + 1 ==> Armed(u.slots[j], start, p, n, e.t))
  {
    hide Due, SlotAfter, Count, Low, Isr, Periods, CallsNoCancel;
    PeriodsAre(start, p, k, e.t);
    PeriodsAre(start, p, k + 1, e.t);
    NextPeriod(start, p, k);
    PeriodicSlot(t, e.t, e.calls, j);
    if e.t < start + (k + 2) * p { ArmedStep(t, e, j, start, p, k, now); }
  }

  lemma {:induction false} ExactIffNoneSkipped(t: Table, ev: seq<Event>, j: nat, start: nat, p: nat, k: nat, now: nat)
    requires j < |t.slots| && Armed(t.slots[j], start, p, k, now) && k == Periods(now - start, p)
    requires Ordered(ev, now, j)
    ensures AlwaysExact(t, ev, j, start, p, Count(t.log, j) - k) <==> NoneSkipped(ev, now, start, p)
    decreases |ev|
  {
    hide Apply, Count, Low, Periods, CallsNoCancel;
    if ev != [] {
      var u := Apply(t, ev[0]);
      ArmedAfterStart(t.slots[j], start, p, k, now);
      if ev[0].Interrupt? {
        var n := Periods(ev[0].t - start, p);
        ExactStep(t, ev[0], j, start, p, k, now);
        if n <= k + 1 { ExactIffNoneSkipped(u, ev[1..], j, start, p, n, ev[0].t); }
      } else {
        OthersKeep(t, ev[0], j);
        ExactIffNoneSkipped(u, ev[1..], j, start, p, k, now);
      }
    }
  }

  lemma ArmedAfterStart(s: Slot, start: nat, p: nat, k: nat, t: nat)
    requires Armed(s, start, p, k, t)
    ensures start <= t
  {
  }

  // The state a periodic timer is added in.
  lemma AddedIsArmed(t: Table, start: nat, periodUs: word, cb: nat)
    requires 0 < periodUs * TICKS_PER_US < 0x8000_0000
    requires Add(t, Low(start), periodUs, false, cb).1 >= 0
    ensures var (u, id) := Add(t, Low(start), periodUs, false, cb);
            && id < |u.slots| == |t.slots| && !t.slots[id].used && u.log == t.log
            && Armed(u.slots[id], start, periodUs * TICKS_PER_US, 0, start)
            && Periods(0, periodUs * TICKS_PER_US) == 0
  {
    hide Low;
    AddLow(start, periodUs);
    PeriodsAre(start, periodUs * TICKS_PER_US, 0, start);
  }

  // From any table with a free slot, over any run in time order that does not cancel
  // it, across any number of rollovers: a periodic timer of less than 2^31 cycles added
  // at `start` has been dispatched once per whole period after every interrupt if and
  // only if no interrupt skips a period.
  lemma FittingExactIff(t: Table, start: nat, periodUs: word, cb: nat, ev: seq<Event>)
    requires 0 < periodUs * TICKS_PER_US < 0x8000_0000
    requires Add(t, Low(start), periodUs, false, cb).1 >= 0
    requires Ordered(ev, start, Add(t, Low(start), periodUs, false, cb).1)
    ensures var (u, id) := Add(t, Low(start), periodUs, false, cb);
            AlwaysExact(u, ev, id, start, periodUs * TICKS_PER_US, Count(t.log, id))
            <==> NoneSkipped(ev, start, start, periodUs * TICKS_PER_US)
  {
    hide Low, Ordered, AlwaysExact, NoneSkipped, Count, Periods;
    var (u, id) := Add(t, Low(start), periodUs, false, cb);
    AddedIsArmed(t, start, periodUs, cb);
    ExactIffNoneSkipped(u, ev, id, start, periodUs * TICKS_PER_US, 0, start);
  }

  // Interrupts at most `gap` cycles apart.
  predicate Prompt(ev: seq<Event>, t: nat, gap: nat)
    decreases |ev|
  {
    ev == []
    || if ev[0].Interrupt? then ev[0].t <= t + gap && Prompt(ev[1..], ev[0].t, gap)
       else Prompt(ev[1..], t, gap)
  }

  // Interrupts at most a period apart skip none.
  lemma {:induction false} PromptSkipsNone(ev: seq<Event>, t: nat, start: nat, p: nat, j: nat)
    requires p > 0 && start <= t && Ordered(ev, t, j) && Prompt(ev, t, p)
    ensures NoneSkipped(ev, t, start, p)
    decreases |ev|
  {
    hide Periods, CallsNoCancel;
    if ev != [] {
      if ev[0].Interrupt? {
        var k := Periods(t - start, p);
        PeriodsAre(start, p, k, t);
        NextPeriod(start, p, k);
        PeriodsAre(start, p, k + 1, ev[0].t);
        PromptSkipsNone(ev[1..], ev[0].t, start, p, j);
      } else {
        PromptSkipsNone(ev[1..], t, start, p, j);
      }
    }
  }

  // A run that fails: a timer of 1000 us, and two periods before the first interrupt.
  // One dispatch is missing then, and made up for at the next interrupt.
  lemma SkippedPeriod(t: Table, cb: nat)
    requires Add(t, 0, 1000, false, cb).1 >= 0
    ensures var (u, id) := Add(t, 0, 1000, false, cb);
            && Periods(100_000, 50_000) == 2
            && Count(After(u, [Interrupt(100_000, [])]).log, id) == Count(t.log, id) + 1
            && Count(After(u, [Interrupt(100_000, []), Interrupt(100_001, [])]).log, id) == Count(t.log, id) + 2
  {
    var (u, id) := Add(t, 0, 1000, false, cb);
    assert Low(0) == 0;
    AddedIsArmed(t, 0, 1000, cb);
    var one := [Interrupt(100_000, [])];
    var two := [Interrupt(100_000, []), Interrupt(100_001, [])];
    assert one[1..] == [] && two[1..] == [Interrupt(100_001, [])] && two[1..][1..] == [];
    hide After, Count, Armed;
    CountIsFired(u, one, id, 0, 50_000, 0, 0);
    CountIsFired(u, two, id, 0, 50_000, 0, 0);
  }

  // ------------------------------------------------------ one-shots --

  // A one-shot set going at `start` that has not fired yet.
  ghost predicate Pending(s: Slot, start: nat, p: nat, t: nat) {
    && s.used && s.oneShot && s.periodUs * TICKS_PER_US == p && p < 0x8000_0000
    && s.next == Low(start + p) && start <= t < start + p
  }

  lemma OneShotInterrupt(s: Slot, start: nat, p: nat, t: nat, t2: nat)
    requires Pending(s, start, p, t) && t <= t2 <= t + 0x8000_0000
    ensures Due(s, Low(t2)) <==> start + p <= t2
    ensures t2 < start + p ==> Pending(SlotAfter(s, Low(t2)), start, p, t2)
    ensures start + p <= t2 ==> !SlotAfter(s, Low(t2)).used
  {
    hide Low, Sub, AsSigned, AddCycles;
    SignedIsTrue(t2, start + p);
  }

  // From the interrupt that reaches the deadline on, no timer is added: the slot is
  // free then, and another timer could take it.
  predicate QuietFrom(ev: seq<Event>, deadline: nat)
    decreases |ev|
  {
    ev == []
    || if ev[0].Interrupt? && deadline <= ev[0].t then NoneAdded(ev) else QuietFrom(ev[1..], deadline)
  }

  predicate NoneAdded(ev: seq<Event>) {
    forall e <- ev :: !e.Added? && (e.Interrupt? ==> CallsNoAdd(e.calls))
  }

  lemma {:induction false} Spent(t: Table, ev: seq<Event>, j: nat)
    requires j < |t.slots| && !t.slots[j].used && NoneAdded(ev)
    ensures !After(t, ev).slots[j].used && Count(After(t, ev).log, j) == Count(t.log, j)
    decreases |ev|
  {
    hide Isr, Entries, Low, CallsNoAdd;
    if ev != [] {
      var u := Apply(t, ev[0]);
      assert ev[0] in ev;
      if ev[0].Interrupt? { IsrSlot(t, Low(ev[0].t), ev[0].calls, j); }
      assert forall e <- ev[1..] :: e in ev;
      Spent(u, ev[1..], j);
    }
  }

  function LastTime(ev: seq<Event>, t: nat): nat
    decreases |ev|
  {
    if ev == [] then t else LastTime(ev[1..], if ev[0].Interrupt? then ev[0].t else t)
  }

  lemma {:induction false} LastTimeGrows(ev: seq<Event>, t: nat, j: nat)
    requires Ordered(ev, t, j)
    ensures LastTime(ev, t) >= t
    decreases |ev|
  {
    hide CallsNoCancel;
    if ev != [] { LastTimeGrows(ev[1..], if ev[0].Interrupt? then ev[0].t else t, j); }
  }

  // A one-shot fires exactly once, at the first interrupt after its delay, whatever
  // timers come and go until then.
  lemma {:induction false} OneShotFiresOnce(t: Table, ev: seq<Event>, j: nat, start: nat, p: nat, now: nat)
    requires j < |t.slots| && Pending(t.slots[j], start, p, now)
    requires Ordered(ev, now, j) && Prompt(ev, now, 0x8000_0000) && QuietFrom(ev, start + p)
    ensures Count(After(t, ev).log, j) == Count(t.log, j) + if LastTime(ev, now) >= start + p then 1 else 0
    ensures After(t, ev).slots[j].used <==> LastTime(ev, now) < start + p
    decreases |ev|
  {
    hide Apply, Count, Low, CallsNoCancel, CallsNoAdd;
    if ev != [] {
      var u := Apply(t, ev[0]);
      if ev[0].Interrupt? {
        var at := ev[0].t;
        if at >= start + p {
          assert ev[0] in ev;
          OneShotStep(t, ev[0], j, start, p, now);
          assert forall e <- ev[1..] :: e in ev;
          Spent(u, ev[1..], j);
          LastTimeGrows(ev[1..], at, j);
        } else {
          OneShotStep(t, ev[0], j, start, p, now);
          OneShotFiresOnce(u, ev[1..], j, start, p, at);
        }
      } else {
        OthersKeep(t, ev[0], j);
        OneShotFiresOnce(u, ev[1..], j, start, p, now);
      }
    }
  }

  lemma OneShotStep(t: Table, e: Event, j: nat, start: nat, p: nat, now: nat)
    requires j < |t.slots| && Pending(t.slots[j], start, p, now)
    requires e.Interrupt? && now <= e.t <= now + 0x8000_0000 && CallsNoCancel(e.calls, j)
    requires start + p <= e.t ==> CallsNoAdd(e.calls)
    ensures var (u, due) := (Apply(t, e), start + p <= e.t);
            && Count(u.log, j) == Count(t.log, j) + (if due then 1 else 0)
            && if due then !u.slots[j].used else Pending(u.slots[j], start, p, e.t)
  {
    hide Due, SlotAfter, Entries, Low, Isr, CallsNoCancel, CallsNoAdd, Elapsed;
    OneShotInterrupt(t.slots[j], start, p, now, e.t);
    IsrSlot(t, Low(e.t), e.calls, j);
  }

  // ------------------------------------------------------ statistics --

  // Over any run, the statistics are those of the dispatches made.
  lemma {:induction false} RunAccounts(t: Table, ev: seq<Event>)
    requires Accounted(t)
    ensures Accounted(After(t, ev))
    decreases |ev|
  {
    hide Accounted, Low, AddCycles;
    if ev != [] {
      ApplyAccounts(t, ev[0]);
      RunAccounts(Apply(t, ev[0]), ev[1..]);
    }
  }

  lemma ApplyAccounts(t: Table, e: Event)
    requires Accounted(t)
    ensures Accounted(Apply(t, e))
  {
    hide LateOnes, Worst, Low, AddCycles;
    match e
    case Interrupt(at, calls) =>
      ScanAccounts(t.(baseUs := (t.baseUs + t.tickUs) % TWO32, lastLo := Low(at)), Low(at), 0, calls);
    case _ =>
  }
}
