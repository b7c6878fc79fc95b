// Adding and cancelling, from the main program and from callbacks: a cancelled timer is
// silent from then on, within the very interrupt that cancels it too.
module TickCancel {
  import opened Words
  import opened Seqs
  import opened Tick
  import opened TickLaws
  import opened TickRuns

  // ------------------------------------------------------ the two calls --

  // Nothing but the slots differs, and no slot but j.
  ghost predicate OnlySlot(t: Table, u: Table, j: int) {
    && u == t.(slots := u.slots) && |u.slots| == |t.slots|
    && forall k :: 0 <= k < |t.slots| && k != j ==> u.slots[k] == t.slots[k]
  }

  predicate InUse(t: Table, id: int) { 0 <= id < |t.slots| && t.slots[id].used }

  // Cancelling a slot in use frees it and returns 1; a second cancel, like that of any
  // id not in use, returns 0 and changes nothing.
  lemma CancelLaw(t: Table, id: int)
    ensures var (u, ok) := Cancel(t, id);
            && ok == (if InUse(t, id) then 1 else 0)
            && !InUse(u, id) && OnlySlot(t, u, id)
            && (!InUse(t, id) ==> u == t)
            && Cancel(u, id) == (u, 0)
  {
  }

  // A timer goes to the lowest free slot, and there is none exactly when -1 comes back;
  // cancelling it gives the slot back.
  lemma AddLaw(t: Table, now: word, us: word, oneShot: bool, cb: nat)
    ensures var (u, id) := Add(t, now, us, oneShot, cb);
            && (id < 0 <==> forall k :: 0 <= k < |t.slots| ==> t.slots[k].used)
            && (id < 0 ==> id == -1 && u == t)
            && (id >= 0 ==>
                  && id < |t.slots| && !t.slots[id].used && (forall k :: 0 <= k < id ==> t.slots[k].used)
                  && OnlySlot(t, u, id) && InUse(u, id)
                  && OnlySlot(t, Cancel(u, id).0, id) && !InUse(Cancel(u, id).0, id))
  {
    hide AddCycles;
  }

  // ------------------------------------------------------ over a run --

  lemma {:induction false} AfterAppend(t: Table, a: seq<Event>, b: seq<Event>)
    ensures After(t, a + b) == After(After(t, a), b)
    decreases |a|
  {
    hide Apply;
    if a == [] {
      assert a + b == b;
    } else {
      assert (a + b)[1..] == a[1..] + b;
      AfterAppend(Apply(t, a[0]), a[1..], b);
    }
  }

  // Whatever happened before: once a timer is cancelled and none is added, it is never
  // dispatched again.
  lemma CancelledIsSilent(t: Table, before: seq<Event>, j: nat, after: seq<Event>)
    requires j < |t.slots| && NoneAdded(after)
    ensures var u := After(t, before + [Cancelled(j)] + after);
            !u.slots[j].used && Count(u.log, j) == Count(After(t, before).log, j)
  {
    hide After, Count, NoneAdded;
    var u := After(t, before);
    AfterAppend(t, before + [Cancelled(j)], after);
    AfterAppend(t, before, [Cancelled(j)]);
    CancelOnce(u, j);
    CancelLaw(u, j);
    Spent(Cancel(u, j).0, after, j);
  }

  lemma CancelOnce(t: Table, j: int)
    ensures After(t, [Cancelled(j)]) == Cancel(t, j).0
  {
    assert [Cancelled(j)][1..] == [];
    assert After(Cancel(t, j).0, []) == Cancel(t, j).0;
  }

  // ------------------------------------------------------ from a callback --

  lemma {:induction false} ActsCancel(t: Table, acts: seq<Act>, j: nat)
    requires j < |t.slots| && NoAdd(acts) && CancelTimer(j) in acts
    ensures !PerformAll(t, acts).slots[j].used
    decreases |acts|
  {
    assert acts[0] in acts;
    var u := Perform(t, acts[0]);
    assert forall a <- acts[1..] :: a in acts;
    if acts[0] == CancelTimer(j) {
      PerformKeeps(u, acts[1..], j);
    } else {
      assert acts == [acts[0]] + acts[1..];
      ActsCancel(u, acts[1..], j);
    }
  }

  // Only slot i's callback, which is due, cancels slots i and j, and it does cancel j.
  ghost predicate Cancels(t: Table, now: word, calls: Calls, i: nat, j: nat) {
    && i < |t.slots| && j < |t.slots| && Due(t.slots[i], now)
    && CallsNoAdd(calls) && CancelTimer(j) in ActsOf(calls, i)
    && forall k: nat :: k != i ==> NoCancel(ActsOf(calls, k), i) && NoCancel(ActsOf(calls, k), j)
  }

  lemma ActsNoAdd(calls: Calls, k: nat)
    requires CallsNoAdd(calls)
    ensures NoAdd(ActsOf(calls, k))
  {
    if k < |calls| { assert calls[k] in calls; }
  }

  // Slot k, not the canceller, is looked at: it changes no slot but itself, and logs
  // nothing for others.
  lemma OtherFires(t: Table, now: word, k: nat, calls: Calls, i: nat, j: nat)
    requires Cancels(t, now, calls, i, j) && k < |t.slots| && k != i
    ensures var u := FireAndCall(t, k, now, calls);
            && u.slots[i] == t.slots[i]
            && u.slots[j] == (if k == j then Expire(t.slots[j]) else t.slots[j])
            && Entries(u.log, j) == Entries(t.log, j) + if k == j then [Elapsed(t.slots[j].next, now)] else []
  {
    hide Due, Entries, Expire, Elapsed, Fire, PerformAll, NoCancel, NoAdd;
    FireSlot(t, k, now, i);
    FireSlot(t, k, now, j);
    ActsNoAdd(calls, k);
    PerformKeeps(Fire(t, k, now), ActsOf(calls, k), i);
    PerformKeeps(Fire(t, k, now), ActsOf(calls, k), j);
    PerformCounts(Fire(t, k, now), ActsOf(calls, k));
  }

  // The canceller is dispatched, and leaves slot j free.
  lemma CancellerFires(t: Table, now: word, calls: Calls, i: nat, j: nat)
    requires Cancels(t, now, calls, i, j)
    ensures var u := FireAndCall(t, i, now, calls);
            && !u.slots[j].used
            && Entries(u.log, j) == Entries(t.log, j) + if i == j then [Elapsed(t.slots[j].next, now)] else []
  {
    hide Due, Entries, Expire, Elapsed, Fire, PerformAll, NoCancel, NoAdd;
    FireSlot(t, i, now, j);
    ActsNoAdd(calls, i);
    ActsCancel(Fire(t, i, now), ActsOf(calls, i), j);
    PerformCounts(Fire(t, i, now), ActsOf(calls, i));
  }

  lemma {:induction false} ScanCancels(t: Table, now: word, k: nat, calls: Calls, i: nat, j: nat)
    requires Cancels(t, now, calls, i, j) && k <= i
    ensures var r := Scan(t, now, k, calls);
            && !r.slots[j].used
            && Entries(r.log, j) == Entries(t.log, j)
               + if k <= j <= i && Due(t.slots[j], now) then [Elapsed(t.slots[j].next, now)] else []
    decreases |t.slots| - k
  {
    hide Due, Entries, Expire, Elapsed, FireAndCall, NoCancel, NoAdd, CallsNoAdd;
    if k == i {
      CancellerFires(t, now, calls, i, j);
      var u := FireAndCall(t, i, now, calls);
      FreeIsNotDue(u.slots[j], now);
      ScanSlot(u, now, i + 1, calls, j);
    } else if Due(t.slots[k], now) {
      OtherFires(t, now, k, calls, i, j);
      ScanCancels(FireAndCall(t, k, now, calls), now, k + 1, calls, i, j);
    } else {
      ScanCancels(t, now, k + 1, calls, i, j);
    }
    Empty(Entries(t.log, j));
  }

  lemma FreeIsNotDue(s: Slot, now: word)
    requires !s.used
    ensures !Due(s, now) && SlotAfter(s, now) == s
  {
  }

  // A callback that cancels a timer takes effect within the interrupt: the timer is
  // dispatched in it if and only if it is due and its slot does not come after the
  // callback's, and its slot is free afterwards.
  lemma CancelInCallback(t: Table, now: word, calls: Calls, i: nat, j: nat)
    requires Cancels(t, now, calls, i, j)
    ensures var r := Isr(t, now, calls);
            && !r.slots[j].used
            && Entries(r.log, j) == Entries(t.log, j)
               + if j <= i && Due(t.slots[j], now) then [Elapsed(t.slots[j].next, now)] else []
  {
    hide Due, Entries, Elapsed, Scan, NoCancel, NoAdd, CallsNoAdd;
    ScanCancels(t.(baseUs := (t.baseUs + t.tickUs) % TWO32, lastLo := now), now, 0, calls, i, j);
  }

  // ------------------------------------------------------ the order --

  // Dispatches of slots k and up, in increasing order.
  ghost predicate InOrder(log: seq<Dispatch>, k: nat) {
    && (forall a :: 0 <= a < |log| ==> log[a].slot >= k)
    && forall a, b :: 0 <= a < b < |log| ==> log[a].slot < log[b].slot
  }

  lemma {:induction false} ScanInOrder(t: Table, now: word, k: nat, calls: Calls)
    requires k <= |t.slots|
    ensures var r := Scan(t, now, k, calls); t.log <= r.log && InOrder(r.log[|t.log|..], k)
    decreases |t.slots| - k
  {
    hide Due, Expire, Elapsed, PerformAll;
    if k < |t.slots| {
      if Due(t.slots[k], now) {
        var u := FireAndCall(t, k, now, calls);
        PerformCounts(Fire(t, k, now), ActsOf(calls, k));
        ScanInOrder(u, now, k + 1, calls);
        var r := Scan(u, now, k + 1, calls);
        assert r.log[|t.log|..] == [u.log[|t.log|]] + r.log[|u.log|..];
      } else {
        ScanInOrder(t, now, k + 1, calls);
      }
    }
  }

  // An interrupt adds its dispatches to the log by increasing slot, one each at most,
  // whatever the callbacks do.
  lemma DispatchedInOrder(t: Table, now: word, calls: Calls)
    ensures var r := Isr(t, now, calls); t.log <= r.log && InOrder(r.log[|t.log|..], 0)
  {
    hide Scan;
    ScanInOrder(t.(baseUs := (t.baseUs + t.tickUs) % TWO32, lastLo := now), now, 0, calls);
  }

  // ------------------------------------------------------ one-shots that come back --

  lemma FiresAlone(t: Table, k: nat, now: word, calls: Calls)
    requires k < |t.slots| && ActsOf(calls, k) == []
    ensures FireAndCall(t, k, now, calls) == Fire(t, k, now)
  {
    hide Fire;
  }

  // Slots below j stay in use and their callbacks do nothing.
  ghost predicate QuietBelow(t: Table, calls: Calls, k: nat, j: nat) {
    && (forall i :: 0 <= i < j && i < |t.slots| ==> t.slots[i].used)
    && (forall i :: k <= i < j && i < |t.slots| ==> !t.slots[i].oneShot && ActsOf(calls, i) == [])
  }

  // The callback of the one-shot in slot j adds a timer and does nothing else; the scan
  // meets slot j with its own slot free, and does not meet the new timer.
  lemma {:induction false} ScanReArms(t: Table, now: word, k: nat, calls: Calls, j: nat, a: Act)
    requires k <= j < |t.slots| && QuietBelow(t, calls, k, j) && a.AddTimer?
    requires t.slots[j].oneShot && Due(t.slots[j], now) && ActsOf(calls, j) == [a] && CallsNoCancel(calls, j)
    ensures var r := Scan(t, now, k, calls);
            && r.slots[j] == Slot(AddCycles(a.now, a.periodUs), a.periodUs, a.cb, true, a.oneShot)
            && Entries(r.log, j) == Entries(t.log, j) + [Elapsed(t.slots[j].next, now)]
    decreases j - k
  {
    hide Due, Entries, Elapsed, AddCycles, CallsNoCancel;
    if k == j {
      ReArmed(t, now, calls, j, a);
      ScanSlot(FireAndCall(t, j, now, calls), now, j + 1, calls, j);
      Empty(Entries(t.log, j) + [Elapsed(t.slots[j].next, now)]);
    } else if Due(t.slots[k], now) {
      FiresAlone(t, k, now, calls);
      FireSlot(t, k, now, j);
      Empty(Entries(t.log, j));
      ScanReArms(Fire(t, k, now), now, k + 1, calls, j, a);
    } else {
      ScanReArms(t, now, k + 1, calls, j, a);
    }
  }

  lemma ReArmed(t: Table, now: word, calls: Calls, j: nat, a: Act)
    requires j < |t.slots| && t.slots[j].oneShot && ActsOf(calls, j) == [a] && a.AddTimer?
    requires forall i :: 0 <= i < j ==> t.slots[i].used
    ensures var u := FireAndCall(t, j, now, calls);
            && u.slots[j] == Slot(AddCycles(a.now, a.periodUs), a.periodUs, a.cb, true, a.oneShot)
            && Entries(u.log, j) == Entries(t.log, j) + [Elapsed(t.slots[j].next, now)]
  {
    hide Entries, Elapsed, AddCycles;
    FireSlot(t, j, now, j);
    var u := Fire(t, j, now);
    AddLaw(u, a.now, a.periodUs, a.oneShot, a.cb);
    assert PerformAll(u, [a]) == PerformAll(Perform(u, a), []) by { assert [a][1..] == []; }
  }

  // A one-shot whose callback sets the next one going gets its own slot back, and is
  // dispatched once in the interrupt, even where the new timer is due at once.
  lemma OneShotReArms(t: Table, now: word, calls: Calls, j: nat, a: Act)
    requires j < |t.slots| && QuietBelow(t, calls, 0, j) && a.AddTimer?
    requires t.slots[j].oneShot && Due(t.slots[j], now) && ActsOf(calls, j) == [a] && CallsNoCancel(calls, j)
    ensures var r := Isr(t, now, calls);
            && r.slots[j] == Slot(AddCycles(a.now, a.periodUs), a.periodUs, a.cb, true, a.oneShot)
            && Entries(r.log, j) == Entries(t.log, j) + [Elapsed(t.slots[j].next, now)]
  {
    hide Scan, Due, Entries, Elapsed, AddCycles, CallsNoCancel;
    ScanReArms(t.(baseUs := (t.baseUs + t.tickUs) % TWO32, lastLo := now), now, 0, calls, j, a);
  }
}
