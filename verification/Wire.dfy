// The console harness's serial wire: the decoder that samples the transmit pin, and
// the driver that puts queued bytes on the receive pin, one clock cycle at a time.
module Wire {
  import opened Words
  const CLKS_PER_BIT: nat := 434
  const HALF_BIT: nat := 217
  const GAP_BITS: nat := 2

  type pin = bv8

  function Bit(b: octet, i: nat): pin
    requires i < 8
  {
    (b >> i) & 1
  }

  function Place(p: pin, i: nat): octet
    requires i < 8
  {
    (p & 1) << i
  }

  function Both(a: octet, b: octet): octet { a | b }

  // ------------------------------------------------------ the decoder --

  datatype State = Idle | Start | Data | Stop

  datatype Dec = Dec(state: State, counter: nat, bit: nat, shift: octet)

  predicate DecOk(d: Dec) { d.state == Data ==> d.bit < 8 }

  // One cycle: the next state, and the byte completed in it, if any.
  function DecTick(d: Dec, p: pin): (Dec, seq<octet>)
    requires DecOk(d)
  {
    match d.state
    case Idle => (if p == 0 then d.(state := Start, counter := 0) else d, [])
    case Start =>
      if d.counter + 1 < HALF_BIT then (d.(counter := d.counter + 1), [])
      else if p == 0 then (Dec(Data, 0, 0, 0), [])
      else (d.(counter := d.counter + 1, state := Idle), [])
    case Data =>
      if d.counter + 1 < CLKS_PER_BIT then (d.(counter := d.counter + 1), [])
      else (Dec(if d.bit + 1 >= 8 then Stop else Data, 0, d.bit + 1, Both(d.shift, Place(p, d.bit))), [])
    case Stop =>
      if d.counter + 1 < CLKS_PER_BIT then (d.(counter := d.counter + 1), [])
      else (d.(state := Idle, counter := 0), [d.shift])
  }

  lemma TickOk(d: Dec, p: pin)
    requires DecOk(d)
    ensures DecOk(DecTick(d, p).0)
  {
  }

  function Run(d: Dec, w: seq<pin>): (Dec, seq<octet>)
    requires DecOk(d)
    decreases |w|
  {
    if w == [] then (d, [])
    else
      TickOk(d, w[0]);
      var (e, out) := DecTick(d, w[0]);
      var (f, more) := Run(e, w[1..]);
      (f, out + more)
  }

  class TxDecoder {
    var state: State
    var cycleCounter: nat
    var bitIndex: nat
    var shiftReg: octet
    var rxByte: octet
    var hasByte: bool

    ghost function View(): Dec
      reads this
    {
      Dec(state, cycleCounter, bitIndex, shiftReg)
    }

    constructor ()
      ensures View() == Dec(Idle, 0, 0, 0) && !hasByte
    {
      state, cycleCounter, bitIndex, shiftReg, rxByte, hasByte := Idle, 0, 0, 0, 0, false;
    }

    method Tick(txPin: pin)
      requires DecOk(View())
      modifies this
      ensures DecOk(View())
      ensures (View(), if hasByte then [rxByte] else []) == DecTick(old(View()), txPin)
    {
      hide Place, Both;
      hasByte := false;
      match state {
        case Idle =>
          if txPin == 0 { state := Start; cycleCounter := 0; }
        case Start =>
          cycleCounter := cycleCounter + 1;
          if cycleCounter >= HALF_BIT {
            if txPin == 0 {
              state, cycleCounter, bitIndex, shiftReg := Data, 0, 0, 0;
            } else {
              state := Idle;
            }
          }
        case Data =>
          cycleCounter := cycleCounter + 1;
          if cycleCounter >= CLKS_PER_BIT {
            cycleCounter := 0;
            shiftReg := Both(shiftReg, Place(txPin, bitIndex));
            bitIndex := bitIndex + 1;
            if bitIndex >= 8 { state := Stop; }
          }
        case Stop =>
          cycleCounter := cycleCounter + 1;
          if cycleCounter >= CLKS_PER_BIT {
            rxByte, hasByte := shiftReg, true;
            state, cycleCounter := Idle, 0;
          }
      }
    }
  }

  // ------------------------------------------------------ the driver --

  // phase 0 is the start bit, 1 to 8 the data bits, 9 the stop bit.
  datatype Drv = Drv(active: bool, phase: nat, t: nat, cur: octet, gap: nat, q: seq<octet>)

  function Level(d: Drv): pin {
    if !d.active then 1
    else if d.phase == 0 then 0
    else if d.phase >= 9 then 1
    else Bit(d.cur, d.phase - 1)
  }

  function Drive(d: Drv): (Drv, pin) {
    if !d.active then
      if d.gap > 0 then (d.(gap := d.gap - 1), 1)
      else if d.q == [] then (d, 1)
      else
        var e := Drv(true, 0, 0, d.q[0], d.gap, d.q[1..]);
        (e, Level(e))
    else if d.t + 1 < CLKS_PER_BIT then
      var e := d.(t := d.t + 1);
      (e, Level(e))
    else if d.phase == 9 then (d.(t := 0, active := false, gap := GAP_BITS * CLKS_PER_BIT), 1)
    else
      var e := d.(t := 0, phase := d.phase + 1);
      (e, Level(e))
  }

  class RxDriver {
    var active: bool
    var phase: nat
    var t: nat
    var cur: octet
    var gap: nat
    var q: seq<octet>

    ghost function View(): Drv
      reads this
    {
      Drv(active, phase, t, cur, gap, q)
    }

    constructor ()
      ensures View() == Drv(false, 0, 0, 0, 0, [])
    {
      active, phase, t, cur, gap, q := false, 0, 0, 0, 0, [];
    }

    method Push(b: octet)
      modifies this`q
      ensures q == old(q) + [b]
    {
      q := q + [b];
    }

    method PushAll(b: seq<octet>)
      modifies this`q
      ensures q == old(q) + b
    {
      for i := 0 to |b|
        invariant q == old(q) + b[..i]
      {
        Push(b[i]);
        assert b[..i + 1] == b[..i] + [b[i]];
      }
      assert b[..|b|] == b;
    }

    method LevelNow() returns (p: pin)
      ensures p == Level(View())
    {
      if !active { return 1; }
      if phase == 0 { return 0; }
      if phase >= 9 { return 1; }
      return (cur >> (phase - 1)) & 1;
    }

    method Tick() returns (p: pin)
      modifies this
      ensures (View(), p) == Drive(old(View()))
    {
      hide Level;
      if !active {
        if gap > 0 { gap := gap - 1; return 1; }
        if q == [] { return 1; }
        cur, q := q[0], q[1..];
        active, phase, t := true, 0, 0;
        p := LevelNow();
        return;
      }
      t := t + 1;
      if t < CLKS_PER_BIT {
        p := LevelNow();
        return;
      }
      t := 0;
      if phase == 9 {
        active := false;
        gap := GAP_BITS * CLKS_PER_BIT;
        return 1;
      }
      phase := phase + 1;
      p := LevelNow();
    }
  }
}
