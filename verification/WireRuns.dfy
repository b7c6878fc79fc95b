// The driver's pin wired to the decoder, cycle by cycle, while bytes are pushed at
// any time: nothing is lost, duplicated or reordered, and the queue drains.
module WireRuns {
  import opened Words
  import opened Seqs
  import opened Wire
  import opened WireLaws

  // Both ends of the wire, and the bytes decoded so far.
  datatype Link = Link(drv: Drv, dec: Dec, out: seq<octet>)

  const AT_RESET: Link := Link(Drv(false, 0, 0, 0, 0, []), POWER_ON, [])

  function Push(s: Link, b: seq<octet>): Link { s.(drv := s.drv.(q := s.drv.q + b)) }

  function Cycle(s: Link): Link
    requires DecOk(s.dec)
  {
    var (d, p) := Drive(s.drv);
    var (e, b) := DecTick(s.dec, p);
    Link(d, e, s.out + b)
  }

  // The decoder keeps to the middle of the driver's bits: where it is follows from
  // the driver's phase and its cycle within the bit.
  ghost predicate InStep(drv: Drv, dec: Dec) {
    && drv.gap <= GAP_BITS * CLKS_PER_BIT
    && if !drv.active then dec.state == Idle
    else
      && drv.t < CLKS_PER_BIT && drv.phase <= 9
      && if drv.t < HALF_BIT then
           if drv.phase == 0 then dec.state == Start && dec.counter == drv.t
           else
             && dec.counter == drv.t + HALF_BIT
             && if drv.phase == 9 then dec.state == Stop && dec.shift == drv.cur
                else dec.state == Data && dec.bit == drv.phase - 1 && dec.shift == Low(drv.cur, dec.bit)
         else if drv.phase == 9 then dec.state == Idle
         else
           && dec.counter == drv.t - HALF_BIT
           && if drv.phase == 8 then dec.state == Stop && dec.shift == drv.cur
              else dec.state == Data && dec.bit == drv.phase && dec.shift == Low(drv.cur, dec.bit)
  }

  // The byte on the wire, until the decoder has it.
  function InFlight(d: Drv): seq<octet> {
    if d.active && !(d.phase == 9 && d.t >= HALF_BIT) then [d.cur] else []
  }

  // Everything accepted so far: decoded, on the wire, or still queued.
  function Accepted(s: Link): seq<octet> { s.out + InFlight(s.drv) + s.drv.q }

  // Cycles until the driver is silent again, if nothing more is pushed.
  function Remaining(d: Drv): int {
    5209 * |d.q| + if d.active then 4340 - (CLKS_PER_BIT * d.phase + d.t) + 868 else d.gap
  }

  lemma InStepOk(drv: Drv, dec: Dec)
    requires InStep(drv, dec)
    ensures DecOk(dec)
  {
    hide Low;
  }

  lemma LowSample(b: octet, k: nat)
    requires k < 8
    ensures Both(Low(b, k), Place(Bit(b, k), k)) == Low(b, k + 1)
    ensures Low(b, 0) == 0 && Low(b, 8) == b
  {
    PlaceBit(b, k);
    LowNone(b);
  }

  lemma CycleInStep(s: Link)
    requires InStep(s.drv, s.dec)
    ensures DecOk(s.dec) && InStep(Cycle(s).drv, Cycle(s).dec)
  {
    hide Low, Both, Place, Bit;
    InStepOk(s.drv, s.dec);
    if s.drv.active && 1 <= s.drv.phase <= 8 { LowSample(s.drv.cur, s.drv.phase - 1); }
    LowSample(s.drv.cur, 0);
  }

  lemma CycleKeeps(s: Link)
    requires InStep(s.drv, s.dec)
    ensures DecOk(s.dec) && Accepted(Cycle(s)) == Accepted(s)
  {
    hide Low, Both, Place, Bit;
    InStepOk(s.drv, s.dec);
  }

  lemma CycleCounts(s: Link)
    requires InStep(s.drv, s.dec)
    ensures DecOk(s.dec) && Remaining(s.drv) >= 0
    ensures Remaining(Cycle(s).drv) == if Remaining(s.drv) > 0 then Remaining(s.drv) - 1 else 0
    ensures Remaining(s.drv) == 0 ==> s.drv.q == [] && InFlight(s.drv) == []
  {
    hide Low, Both, Place, Bit, DecTick;
    InStepOk(s.drv, s.dec);
  }

  // ------------------------------------------------------ whole runs --

  // A run under a schedule: the bytes pushed before each cycle.
  function After(s: Link, pushes: seq<seq<octet>>): Link
    requires InStep(s.drv, s.dec)
    decreases |pushes|
  {
    if pushes == [] then s
    else
      var t := Push(s, pushes[0]);
      CycleInStep(t);
      After(Cycle(t), pushes[1..])
  }

  lemma PushKeeps(s: Link, b: seq<octet>)
    ensures Accepted(Push(s, b)) == Accepted(s) + b
  {
    Assoc(s.out + InFlight(s.drv), s.drv.q, b);
  }

  // At every moment, what was decoded, what is on the wire and what is queued are the
  // bytes pushed, in order.
  lemma {:induction false} NothingLost(s: Link, pushes: seq<seq<octet>>)
    requires InStep(s.drv, s.dec)
    ensures InStep(After(s, pushes).drv, After(s, pushes).dec)
    ensures Accepted(After(s, pushes)) == Accepted(s) + Flat(pushes)
    decreases |pushes|
  {
    hide InStep, Cycle, Push, Accepted;
    if pushes == [] {
      Empty(Accepted(s));
    } else {
      PushKeeps(s, pushes[0]);
      PushInStep(s, pushes[0]);
      var t := Push(s, pushes[0]);
      CycleInStep(t);
      CycleKeeps(t);
      NothingLost(Cycle(t), pushes[1..]);
      Assoc(Accepted(s), pushes[0], Flat(pushes[1..]));
    }
  }

  lemma PushInStep(s: Link, b: seq<octet>)
    requires InStep(s.drv, s.dec)
    ensures InStep(Push(s, b).drv, Push(s, b).dec)
  {
    hide Low;
  }

  function Silence(n: nat): seq<seq<octet>> {
    if n == 0 then [] else [[]] + Silence(n - 1)
  }

  lemma {:induction false} Drains(s: Link, n: nat)
    requires InStep(s.drv, s.dec) && n >= Remaining(s.drv)
    ensures After(s, Silence(n)).out == Accepted(s)
    decreases n
  {
    hide InStep, Cycle, Accepted, Remaining, InFlight;
    CycleCounts(s);
    if n == 0 {
      DrainedNow(s);
    } else {
      var p := Silence(n);
      assert p[0] == [] && p[1..] == Silence(n - 1);
      Empty(s.drv.q);
      assert Push(s, p[0]) == s;
      CycleInStep(s);
      CycleKeeps(s);
      Drains(Cycle(s), n - 1);
    }
  }

  lemma DrainedNow(s: Link)
    requires s.drv.q == [] && InFlight(s.drv) == []
    ensures s.out == Accepted(s)
  {
  }

  lemma {:induction false} AfterAppend(s: Link, p: seq<seq<octet>>, r: seq<seq<octet>>)
    requires InStep(s.drv, s.dec)
    ensures InStep(After(s, p).drv, After(s, p).dec)
    ensures After(s, p + r) == After(After(s, p), r)
    decreases |p|
  {
    hide InStep, Cycle, Push;
    if p == [] {
      assert p + r == r;
    } else {
      assert (p + r)[0] == p[0] && (p + r)[1..] == p[1..] + r;
      PushInStep(s, p[0]);
      CycleInStep(Push(s, p[0]));
      AfterAppend(Cycle(Push(s, p[0])), p[1..], r);
    }
  }

  // From reset, whatever is pushed and whenever, the decoder puts out exactly the
  // bytes pushed, in order, once the driver has had time to send them.
  lemma EveryByteArrives(pushes: seq<seq<octet>>, n: nat)
    ensures n >= Remaining(After(AT_RESET, pushes).drv) ==>
              After(AT_RESET, pushes + Silence(n)).out == Flat(pushes)
  {
    ResetInStep();
    hide InStep, Cycle, Push, Remaining, After;
    NothingLost(AT_RESET, pushes);
    AfterAppend(AT_RESET, pushes, Silence(n));
    assert Accepted(AT_RESET) == [];
    Empty(Flat(pushes));
    if n >= Remaining(After(AT_RESET, pushes).drv) {
      Drains(After(AT_RESET, pushes), n);
    }
  }

  // The harness loop itself, over the two objects.
  method Harness(pushes: seq<seq<octet>>) returns (out: seq<octet>)
    ensures out == After(AT_RESET, pushes).out
    ensures out <= Flat(pushes)
  {
    hide InStep, DecTick, Drive, Flat;
    ResetInStep();
    var rx := new RxDriver();
    var tx := new TxDecoder();
    out := [];
    ghost var s := AT_RESET;
    assert pushes[0..] == pushes;
    for i := 0 to |pushes|
      invariant s == Link(rx.View(), tx.View(), out) && InStep(s.drv, s.dec)
      invariant After(s, pushes[i..]) == After(AT_RESET, pushes)
      invariant tx.state == tx.View().state
    {
      AfterUnfold(s, pushes, i);
      rx.PushAll(pushes[i]);
      var p := rx.Tick();
      InStepOk(Push(s, pushes[i]).drv, s.dec);
      tx.Tick(p);
      if tx.hasByte { out := out + [tx.rxByte]; } else { Empty(out); }
      s := Cycle(Push(s, pushes[i]));
    }
    NothingLost(AT_RESET, pushes);
    AcceptedFirst(After(AT_RESET, pushes), Flat(pushes));
  }

  lemma ResetInStep()
    ensures InStep(AT_RESET.drv, AT_RESET.dec)
  {
  }

  lemma AfterUnfold(s: Link, p: seq<seq<octet>>, i: nat)
    requires InStep(s.drv, s.dec) && i < |p|
    ensures var t := Push(s, p[i]);
            InStep(t.drv, t.dec) && DecOk(t.dec) && InStep(Cycle(t).drv, Cycle(t).dec)
            && After(s, p[i..]) == After(Cycle(t), p[i + 1..])
  {
    hide InStep, Cycle, Push;
    var t := Push(s, p[i]);
    PushInStep(s, p[i]);
    CycleInStep(t);
    assert p[i..][0] == p[i] && p[i..][1..] == p[i + 1..];
  }

  lemma AcceptedFirst(s: Link, all: seq<octet>)
    requires Accepted(s) == Accepted(AT_RESET) + all
    ensures s.out <= all
  {
    assert Accepted(AT_RESET) == [];
    Empty(all);
    assert Accepted(s)[..|s.out|] == s.out;
  }
}
