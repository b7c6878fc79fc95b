// The driver's waveform, cycle by cycle: 8N1 frames of 434-cycle bits, and how long the
// line stays high between them.
module WireDriver {
  import opened Words
  import opened Seqs
  import opened Wire
  import opened WireLaws

  // n cycles of the driver: where it ends up, and the levels it gave.
  function Pins(d: Drv, n: nat): (Drv, seq<pin>)
    decreases n
  {
    if n == 0 then (d, [])
    else
      var (e, p) := Drive(d);
      var (f, w) := Pins(e, n - 1);
      (f, [p] + w)
  }

  lemma {:induction false} PinsAppend(d: Drv, m: nat, n: nat)
    ensures var (e, v) := Pins(d, m);
            var (f, w) := Pins(e, n);
            Pins(d, m + n) == (f, v + w)
    decreases m
  {
    hide Drive;
    if m > 0 {
      PinsAppend(Drive(d).0, m - 1, n);
      var v := Pins(Drive(d).0, m - 1);
      Assoc([Drive(d).1], v.1, Pins(v.0, n).1);
    } else {
      Empty(Pins(d, n).1);
    }
  }

  lemma OnePin(d: Drv)
    ensures Pins(d, 1) == (Drive(d).0, [Drive(d).1])
  {
    hide Drive;
    assert Pins(Drive(d).0, 0) == (Drive(d).0, []);
    Empty([Drive(d).1]);
  }

  lemma RepeatMore(p: pin, n: nat)
    ensures [p] + Repeat(p, n) == Repeat(p, n + 1)
  {
  }

  // Within a bit the level does not change.
  lemma {:induction false} Holds(d: Drv, n: nat)
    requires d.active && d.t + n < CLKS_PER_BIT
    ensures Pins(d, n) == (d.(t := d.t + n), Repeat(Level(d), n))
    decreases n
  {
    hide Level;
    if n > 0 {
      var e := d.(t := d.t + 1);
      SameLevel(d, e);
      Holds(e, n - 1);
      RepeatMore(Level(d), n - 1);
    }
  }

  lemma SameLevel(d: Drv, e: Drv)
    requires d.active && e.active && d.phase == e.phase && d.cur == e.cur
    ensures Level(d) == Level(e)
  {
  }

  lemma {:induction false} GapRuns(d: Drv)
    requires !d.active
    ensures Pins(d, d.gap) == (d.(gap := 0), Repeat<pin>(1, d.gap))
    decreases d.gap
  {
    if d.gap > 0 {
      GapRuns(d.(gap := d.gap - 1));
      RepeatMore(1, d.gap - 1);
    }
  }

  // The first j bits of a byte's frame, and the driver at the end of them.
  function Bits(b: octet, j: nat): seq<pin>
    decreases j
  {
    if j == 0 then [] else Bits(b, j - 1) + Repeat(Slot(b, j - 1), CLKS_PER_BIT)
  }

  function EndOfBit(b: octet, j: nat, q: seq<octet>): Drv
    requires j > 0
  {
    Drv(true, j - 1, CLKS_PER_BIT - 1, b, 0, q)
  }

  lemma SlotIsLevel(b: octet, j: nat, t: nat, q: seq<octet>)
    requires j <= 9
    ensures Level(Drv(true, j, t, b, 0, q)) == Slot(b, j)
  {
  }

  lemma {:induction false} BitsSent(d: Drv, j: nat)
    requires !d.active && d.gap == 0 && d.q != [] && 0 < j <= 10
    ensures Pins(d, CLKS_PER_BIT * j) == (EndOfBit(d.q[0], j, d.q[1..]), Bits(d.q[0], j))
    decreases j
  {
    hide Level, Slot, Bits;
    var (b, q) := (d.q[0], d.q[1..]);
    var first := Drv(true, j - 1, 0, b, 0, q);
    SlotIsLevel(b, j - 1, 0, q);
    Holds(first, CLKS_PER_BIT - 1);
    RepeatMore(Slot(b, j - 1), CLKS_PER_BIT - 1);
    BitsMore(b, j);
    if j == 1 {
      BitStart(d, first);
    } else {
      BitsSent(d, j - 1);
      var e := EndOfBit(b, j - 1, q);
      BitStart(e, first);
      PinsAppend(d, CLKS_PER_BIT * (j - 1), CLKS_PER_BIT);
    }
  }

  lemma BitsMore(b: octet, j: nat)
    requires j > 0
    ensures Bits(b, j) == Bits(b, j - 1) + Repeat(Slot(b, j - 1), CLKS_PER_BIT)
    ensures j == 1 ==> Bits(b, j) == Repeat(Slot(b, 0), CLKS_PER_BIT)
  {
    hide Slot;
    Empty(Repeat(Slot(b, 0), CLKS_PER_BIT));
  }

  // The cycle that begins a bit, and the rest of it.
  lemma BitStart(d: Drv, e: Drv)
    requires e.active && e.t == 0 && Drive(d) == (e, Level(e))
    ensures Pins(d, CLKS_PER_BIT) == (e.(t := CLKS_PER_BIT - 1), Repeat(Level(e), CLKS_PER_BIT))
  {
    hide Level, Drive;
    OnePin(d);
    Holds(e, CLKS_PER_BIT - 1);
    PinsAppend(d, 1, CLKS_PER_BIT - 1);
    RepeatMore(Level(e), CLKS_PER_BIT - 1);
  }

  lemma {:induction false} BitsAreFrame(b: octet, j: nat)
    requires j <= 10
    ensures Bits(b, j) == FrameWave(b, CLKS_PER_BIT)[..CLKS_PER_BIT * j]
    decreases j
  {
    hide Slot, FrameWave;
    var w := FrameWave(b, CLKS_PER_BIT);
    if j > 0 {
      BitsAreFrame(b, j - 1);
      forall k | CLKS_PER_BIT * (j - 1) <= k < CLKS_PER_BIT * j
        ensures w[k] == Slot(b, j - 1)
      {
        SlotAt(b, CLKS_PER_BIT, j - 1, k);
      }
      assert w[CLKS_PER_BIT * (j - 1)..CLKS_PER_BIT * j] == Repeat(Slot(b, j - 1), CLKS_PER_BIT);
    }
  }

  const HIGH_BETWEEN: nat := 869
  const FRAME_PERIOD: nat := 5209

  // One queued byte takes 5209 cycles: its frame, and 869 cycles of a high line - the
  // one that ends the stop bit, and a gap of 868.
  lemma ByteSent(d: Drv)
    requires !d.active && d.gap == 0 && d.q != []
    ensures var (e, w) := Pins(d, FRAME_PERIOD);
            && !e.active && e.gap == 0 && e.q == d.q[1..]
            && w == FrameWave(d.q[0], CLKS_PER_BIT) + Repeat<pin>(1, HIGH_BETWEEN)
  {
    hide FrameWave, Pins, Bits;
    var b := d.q[0];
    BitsSent(d, 10);
    BitsAreFrame(b, 10);
    assert FrameWave(b, CLKS_PER_BIT)[..4340] == FrameWave(b, CLKS_PER_BIT);
    var e := EndOfBit(b, 10, d.q[1..]);
    var f := e.(t := 0, active := false, gap := 868);
    assert Drive(e) == (f, 1);
    OnePin(e);
    GapRuns(f);
    PinsAppend(e, 1, 868);
    RepeatMore(1, 868);
    PinsAppend(d, 4340, 869);
  }

  function Line(q: seq<octet>): seq<pin> {
    if q == [] then [] else FrameWave(q[0], CLKS_PER_BIT) + Repeat<pin>(1, HIGH_BETWEEN) + Line(q[1..])
  }

  // A whole queue.
  lemma {:induction false} QueueSent(d: Drv)
    requires !d.active && d.gap == 0
    ensures Pins(d, FRAME_PERIOD * |d.q|).1 == Line(d.q)
    ensures !Pins(d, FRAME_PERIOD * |d.q|).0.active
    decreases |d.q|
  {
    hide FrameWave, Pins;
    if d.q == [] {
      assert Pins(d, 0) == (d, []) by { NoPins(d); }
    } else {
      ByteSent(d);
      var e := Pins(d, FRAME_PERIOD).0;
      QueueSent(e);
      PinsAppend(d, FRAME_PERIOD, FRAME_PERIOD * |e.q|);
    }
  }

  lemma NoPins(d: Drv)
    ensures Pins(d, 0) == (d, [])
  {
  }
}
