// What the wire decodes: every waveform whose bit time is within tolerance, and
// everything the driver is given, under any schedule of pushes.
module WireLaws {
  import opened Words
  import opened Seqs
  import opened Wire

  // ------------------------------------------------------ when samples fall --

  lemma {:induction false} RunAppend(d: Dec, v: seq<pin>, w: seq<pin>)
    requires DecOk(d)
    ensures DecOk(Run(d, v).0)
    ensures Run(d, v + w).0 == Run(Run(d, v).0, w).0
    ensures Run(d, v + w).1 == Run(d, v).1 + Run(Run(d, v).0, w).1
    decreases |v|
  {
    hide DecTick;
    if v == [] {
      assert v + w == w;
    } else {
      TickOk(d, v[0]);
      var (e, out) := DecTick(d, v[0]);
      assert (v + w)[0] == v[0] && (v + w)[1..] == v[1..] + w;
      RunAppend(e, v[1..], w);
      Assoc(out, Run(e, v[1..]).1, Run(Run(e, v[1..]).0, w).1);
    }
  }

  lemma RunOne(d: Dec, p: pin)
    requires DecOk(d)
    ensures Run(d, [p]) == DecTick(d, p)
  {
    hide DecTick;
    TickOk(d, p);
    assert [p][1..] == [];
    assert DecTick(d, p).1 + [] == DecTick(d, p).1;
  }

  // Between samples the pin is not looked at.
  lemma {:induction false} Waits(d: Dec, w: seq<pin>)
    requires DecOk(d) && d.state != Idle
    requires d.counter + |w| < if d.state == Start then HALF_BIT else CLKS_PER_BIT
    ensures Run(d, w) == (d.(counter := d.counter + |w|), [])
    decreases |w|
  {
    hide Place, Both;
    if w != [] {
      var e := d.(counter := d.counter + 1);
      assert DecTick(d, w[0]) == (e, []);
      Waits(e, w[1..]);
      Empty<octet>([]);
    }
  }

  // Waiting, and then a sample.
  lemma WaitThenTick(d: Dec, w: seq<pin>, n: nat)
    requires DecOk(d) && d.state != Idle && d.counter == 0
    requires n == |w| == if d.state == Start then HALF_BIT else CLKS_PER_BIT
    ensures Run(d, w) == DecTick(d.(counter := n - 1), w[n - 1])
  {
    hide DecTick;
    assert w == w[..n - 1] + [w[n - 1]];
    Waits(d, w[..n - 1]);
    RunAppend(d, w[..n - 1], [w[n - 1]]);
    RunOne(d.(counter := n - 1), w[n - 1]);
    assert [] + DecTick(d.(counter := n - 1), w[n - 1]).1 == DecTick(d.(counter := n - 1), w[n - 1]).1;
  }

  // The cycle, counted from the start edge, in which data bit i is sampled.
  function SampleAt(i: nat): nat { HALF_BIT + CLKS_PER_BIT * (i + 1) }

  const FRAME_CYCLES: nat := 4124

  // The byte the first k samples of a waveform make up.
  function Assembled(w: seq<pin>, k: nat): octet
    requires k <= 8 && |w| >= FRAME_CYCLES
  {
    if k == 0 then 0 else Both(Assembled(w, k - 1), Place(w[SampleAt(k - 1)], k - 1))
  }

  lemma SampleTaken(d: Dec, p: pin)
    requires d.state == Data && d.bit < 8
    ensures DecTick(d.(counter := CLKS_PER_BIT - 1), p) ==
            (Dec(if d.bit == 7 then Stop else Data, 0, d.bit + 1, Both(d.shift, Place(p, d.bit))), [])
  {
    hide Place, Both;
  }

  lemma {:induction false} DataSampled(d: Dec, w: seq<pin>, k: nat)
    requires |w| >= FRAME_CYCLES && d == Dec(Data, 0, 0, 0) && k <= 8
    ensures Run(d, w[218..218 + 434 * k]) == (Dec(if k == 8 then Stop else Data, 0, k, Assembled(w, k)), [])
    decreases k
  {
    hide Place, Both, DecTick, Run, Assembled;
    if k == 0 {
      assert w[218..218] == [];
      RunNone(d);
      AssembledNone(w);
    } else {
      DataSampled(d, w, k - 1);
      var (v, u) := (w[218..218 + 434 * (k - 1)], w[218 + 434 * (k - 1)..218 + 434 * k]);
      assert w[218..218 + 434 * k] == v + u;
      RunAppend(d, v, u);
      var e := Dec(Data, 0, k - 1, Assembled(w, k - 1));
      WaitThenTick(e, u, 434);
      assert u[433] == w[SampleAt(k - 1)];
      SampleTaken(e, u[433]);
      AssembledMore(w, k);
      Empty<octet>([]);
    }
  }

  lemma RunNone(d: Dec)
    requires DecOk(d)
    ensures Run(d, []) == (d, [])
  {
  }

  lemma AssembledNone(w: seq<pin>)
    requires |w| >= FRAME_CYCLES
    ensures Assembled(w, 0) == 0
  {
  }

  lemma AssembledMore(w: seq<pin>, k: nat)
    requires 0 < k <= 8 && |w| >= FRAME_CYCLES
    ensures Assembled(w, k) == Both(Assembled(w, k - 1), Place(w[SampleAt(k - 1)], k - 1))
  {
    hide Place, Both;
  }

  // From idle, a low pin still low half a bit later is a frame: one byte comes out,
  // made of eight samples, and the decoder is idle again.
  lemma FrameSampled(d: Dec, w: seq<pin>)
    requires d.state == Idle && |w| >= FRAME_CYCLES && w[0] == 0 && w[217] == 0
    ensures Run(d, w[..FRAME_CYCLES]).0.state == Idle
    ensures Run(d, w[..FRAME_CYCLES]).1 == [Assembled(w, 8)]
  {
    hide Place, Both, Assembled;
    StartSampled(d, w);
    var e := Run(d, w[..218]).0;
    DataSampled(e, w, 8);
    var (a, b, c) := (w[..218], w[218..3690], w[3690..4124]);
    assert w[..FRAME_CYCLES] == a + b + c;
    RunAppend(d, a, b);
    RunAppend(d, a + b, c);
    WaitThenTick(Run(d, a + b).0, c, 434);
  }

  lemma StartSampled(d: Dec, w: seq<pin>)
    requires d.state == Idle && |w| >= 218 && w[0] == 0
    ensures Run(d, w[..218]).1 == []
    ensures if w[217] == 0 then Run(d, w[..218]).0 == Dec(Data, 0, 0, 0) else Run(d, w[..218]).0.state == Idle
  {
    hide Place, Both;
    assert w[..218] == [w[0]] + w[1..218];
    RunOne(d, w[0]);
    RunAppend(d, [w[0]], w[1..218]);
    WaitThenTick(d.(state := Start, counter := 0), w[1..218], 217);
    assert w[1..218][216] == w[217];
  }

  lemma {:induction false} IdleStays(d: Dec, w: seq<pin>)
    requires d.state == Idle && forall k :: 0 <= k < |w| ==> w[k] != 0
    ensures Run(d, w) == (d, [])
    decreases |w|
  {
    hide Place, Both;
    if w != [] {
      assert DecTick(d, w[0]) == (d, []);
      IdleStays(d, w[1..]);
      Empty<octet>([]);
    }
  }

  // ------------------------------------------------------ waveforms --

  // The level of slot j of a byte's frame: start bit, eight data bits, stop bit.
  function Slot(b: octet, j: nat): pin {
    if j == 0 then 0 else if j >= 9 then 1 else Bit(b, j - 1)
  }

  function FrameWave(b: octet, B: nat): (w: seq<pin>)
    requires B > 0
    ensures |w| == 10 * B
  {
    seq(10 * B, k requires 0 <= k < 10 * B => Slot(b, k / B))
  }

  // A byte and the idle cycles before it.
  datatype Sent = Sent(gap: nat, byte: octet)

  function Wave(m: seq<Sent>, B: nat): seq<pin>
    requires B > 0
    decreases |m|
  {
    if m == [] then [] else Repeat<pin>(1, m[0].gap) + FrameWave(m[0].byte, B) + Wave(m[1..], B)
  }

  function Bytes(m: seq<Sent>): (s: seq<octet>)
    ensures |s| == |m|
  {
    seq(|m|, k requires 0 <= k < |m| => m[k].byte)
  }

  lemma SlotAt(b: octet, B: nat, j: nat, k: nat)
    requires B > 0 && j < 10 && B * j <= k < B * (j + 1)
    ensures k < 10 * B && FrameWave(b, B)[k] == Slot(b, j)
  {
    hide Slot;
    Quotient(k, B, j);
    Below(B, j);
  }

  lemma Below(B: nat, j: nat)
    requires j < 10
    ensures B * (j + 1) <= B * 10
  {
  }

  lemma Quotient(k: nat, B: nat, j: nat)
    requires B > 0 && B * j <= k < B * (j + 1)
    ensures k / B == j
  {
    var q := k / B;
    assert k == B * q + k % B;
    if q < j { MulMono(q + 1, j, B); }
    if q > j { MulMono(j + 1, q, B); }
  }

  // ------------------------------------------------------ within tolerance --

  predicate Tolerated(B: nat) { 413 <= B <= 461 }

  // The low k bits of a byte.
  function Low(b: octet, k: nat): octet
    requires k <= 8
  {
    match k
    case 0 => 0
    case 1 => b & 0x01
    case 2 => b & 0x03
    case 3 => b & 0x07
    case 4 => b & 0x0F
    case 5 => b & 0x1F
    case 6 => b & 0x3F
    case 7 => b & 0x7F
    case 8 => b
  }

  lemma PlaceBit(b: octet, k: nat)
    requires k < 8
    ensures Both(Low(b, k), Place(Bit(b, k), k)) == Low(b, k + 1)
  {
    if k == 0 { assert ((b >> 0) & 1) & 1 == b & 0x01; }
    else if k == 1 {}
    else if k == 2 {}
    else if k == 3 {}
    else if k == 4 {}
    else if k == 5 {}
    else if k == 6 {}
    else { assert k == 7; }
  }

  lemma {:induction false} AssembledIs(b: octet, w: seq<pin>, k: nat)
    requires k <= 8 && |w| >= FRAME_CYCLES
    requires forall i :: 0 <= i < k ==> w[SampleAt(i)] == Bit(b, i)
    ensures Assembled(w, k) == Low(b, k)
  {
    hide Both, Place, Bit, Low;
    if k == 0 {
      LowNone(b);
    } else {
      AssembledIs(b, w, k - 1);
      PlaceBit(b, k - 1);
    }
  }

  lemma LowNone(b: octet)
    ensures Low(b, 0) == 0 && Low(b, 8) == b
  {
  }

  lemma SamplesInSlots(b: octet, B: nat, i: nat)
    requires Tolerated(B) && i < 8
    ensures FrameWave(b, B)[SampleAt(i)] == Bit(b, i)
  {
    hide FrameWave, Bit;
    SampleBounds(B, i);
    SlotAt(b, B, i + 1, SampleAt(i));
  }

  lemma SampleBounds(B: nat, i: nat)
    requires Tolerated(B) && i < 8
    ensures B * (i + 1) <= SampleAt(i) < B * (i + 2)
  {
    MulMono(B, 461, i + 1);
    MulMono(413, B, i + 2);
  }

  lemma SlotNine(b: octet, B: nat, k: nat)
    requires B > 0 && 9 * B <= k < 10 * B
    ensures FrameWave(b, B)[k] == 1
  {
    hide FrameWave;
    SlotAt(b, B, 9, k);
  }

  lemma AfterSamples(b: octet, B: nat, k: nat)
    requires Tolerated(B) && FRAME_CYCLES <= k < 10 * B
    ensures FrameWave(b, B)[k] == if k < 9 * B then Slot(b, 8) else 1
  {
    hide FrameWave;
    if k < 9 * B { SlotAt(b, B, 8, k); } else { SlotNine(b, B, k); }
  }

  // What is left of a frame after its byte came out: at the slow end a low last data
  // bit may look like a start edge, which does not last to the middle of a bit.
  lemma TailIgnored(d: Dec, b: octet, B: nat)
    requires Tolerated(B) && d.state == Idle
    ensures var r := FrameWave(b, B)[FRAME_CYCLES..];
            Run(d, r).0.state == Idle && Run(d, r).1 == []
  {
    hide FrameWave, Slot;
    var w := FrameWave(b, B);
    var r := w[FRAME_CYCLES..];
    forall k | 0 <= k < |r|
      ensures r[k] == if k + FRAME_CYCLES < 9 * B then Slot(b, 8) else 1
    {
      AfterSamples(b, B, k + FRAME_CYCLES);
    }
    if Slot(b, 8) == 0 && FRAME_CYCLES < 9 * B {
      StartSampled(d, r);
      var e := Run(d, r[..218]).0;
      IdleStays(e, r[218..]);
      RunAppend(d, r[..218], r[218..]);
      assert r == r[..218] + r[218..];
      Empty<octet>([]);
    } else {
      IdleStays(d, r);
    }
  }

  lemma FrameDecoded(d: Dec, b: octet, B: nat)
    requires Tolerated(B) && d.state == Idle
    ensures Run(d, FrameWave(b, B)).0.state == Idle && Run(d, FrameWave(b, B)).1 == [b]
  {
    hide FrameWave, Bit, Low, Assembled;
    var w := FrameWave(b, B);
    SlotAt(b, B, 0, 0);
    SlotAt(b, B, 0, 217);
    FrameSampled(d, w);
    forall i | 0 <= i < 8
      ensures w[SampleAt(i)] == Bit(b, i)
    {
      SamplesInSlots(b, B, i);
    }
    AssembledIs(b, w, 8);
    LowNone(b);
    TailIgnored(Run(d, w[..FRAME_CYCLES]).0, b, B);
    RunAppend(d, w[..FRAME_CYCLES], w[FRAME_CYCLES..]);
    assert w == w[..FRAME_CYCLES] + w[FRAME_CYCLES..];
    assert [b] + [] == [b];
  }

  // Every sequence of bytes comes out in order, whatever the idle gaps.
  lemma {:induction false} WaveDecoded(d: Dec, m: seq<Sent>, B: nat)
    requires Tolerated(B) && d.state == Idle
    ensures Run(d, Wave(m, B)).0.state == Idle && Run(d, Wave(m, B)).1 == Bytes(m)
    decreases |m|
  {
    hide FrameWave, DecTick;
    if m != [] {
      var (g, w) := (Repeat<pin>(1, m[0].gap), FrameWave(m[0].byte, B));
      IdleStays(d, g);
      FrameDecoded(d, m[0].byte, B);
      RunAppend(d, g, w);
      var e := Run(d, g + w).0;
      WaveDecoded(e, m[1..], B);
      RunAppend(d, g + w, Wave(m[1..], B));
      Empty([m[0].byte]);
      assert [m[0].byte] + Bytes(m[1..]) == Bytes(m);
    }
  }

  // ------------------------------------------------------ out of tolerance --

  const POWER_ON: Dec := Dec(Idle, 0, 0, 0)

  // The bytes and then the line left idle.
  function Line(m: seq<Sent>, B: nat): seq<pin>
    requires B > 0
  {
    Wave(m, B) + Repeat<pin>(1, FRAME_CYCLES)
  }

  ghost predicate Decodes(m: seq<Sent>, B: nat)
    requires B > 0
  {
    Run(POWER_ON, Line(m, B)).1 == Bytes(m)
  }

  lemma DecodesWithin(m: seq<Sent>, B: nat)
    requires Tolerated(B)
    ensures Decodes(m, B)
  {
    hide Wave, DecTick;
    WaveDecoded(POWER_ON, m, B);
    IdleStays(Run(POWER_ON, Wave(m, B)).0, Repeat<pin>(1, FRAME_CYCLES));
    RunAppend(POWER_ON, Wave(m, B), Repeat<pin>(1, FRAME_CYCLES));
    assert Bytes(m) + [] == Bytes(m);
  }

  // One frame on a line: the frame's levels, and then high.
  lemma LineOfOne(b: octet, B: nat, k: nat)
    requires B > 0
    ensures var w := Line([Sent(0, b)], B);
            |w| == 10 * B + FRAME_CYCLES && (k < |w| ==> w[k] == if k < 10 * B then FrameWave(b, B)[k] else 1)
  {
    hide FrameWave;
    var m := [Sent(0, b)];
    assert m[1..] == [];
    assert Wave(m, B) == Repeat<pin>(1, 0) + FrameWave(b, B) + [];
    assert Wave(m, B) == FrameWave(b, B);
  }

  lemma FrameOut(d: Dec, w: seq<pin>)
    requires d.state == Idle && |w| >= FRAME_CYCLES && w[0] == 0 && w[217] == 0
    ensures Run(d, w[..FRAME_CYCLES]).0.state == Idle
    ensures Run(d, w).1 == [Assembled(w, 8)] + Run(Run(d, w[..FRAME_CYCLES]).0, w[FRAME_CYCLES..]).1
  {
    hide DecTick, Assembled;
    FrameSampled(d, w);
    RunAppend(d, w[..FRAME_CYCLES], w[FRAME_CYCLES..]);
    assert w == w[..FRAME_CYCLES] + w[FRAME_CYCLES..];
  }

  lemma FirstDiffers(x: octet, more: seq<octet>, y: octet, rest: seq<octet>)
    requires x != y
    ensures [x] + more != [y] + rest
  {
    assert ([x] + more)[0] == x && ([y] + rest)[0] == y;
  }

  lemma HighBitOnly(j: nat)
    requires j <= 7
    ensures Slot(0x80, j) == 0
  {
    if j > 0 { TopBit(j - 1); }
  }

  lemma TopBit(i: nat)
    requires i < 8
    ensures Bit(0, i) == 0 && (i < 7 ==> Bit(0x80, i) == 0)
  {
    if i == 0 {} else if i == 1 {} else if i == 2 {} else if i == 3 {}
    else if i == 4 {} else if i == 5 {} else if i == 6 {} else { assert i == 7; }
  }

  // A line too slow: the last data bit is sampled while its neighbour is on the wire.
  lemma TooSlow(B: nat)
    requires B >= 462
    ensures !Decodes([Sent(0, 0x80)], B)
  {
    hide DecTick, Line, FrameWave, Bit, Assembled, Slot;
    var w := Line([Sent(0, 0x80)], B);
    LineOfOne(0x80, B, 0);
    forall k | 0 <= k < 8 * B
      ensures w[k] == 0
    {
      SlowLevel(B, k);
      LineOfOne(0x80, B, k);
    }
    forall i | 0 <= i < 8
      ensures w[SampleAt(i)] == Bit(0, i)
    {
      TopBit(i);
    }
    AssembledIs(0, w, 8);
    LowNone(0);
    FrameOut(POWER_ON, w);
    DecodesFirst([Sent(0, 0x80)], B, 0, Run(Run(POWER_ON, w[..FRAME_CYCLES]).0, w[FRAME_CYCLES..]).1);
  }

  lemma DecodesFirst(m: seq<Sent>, B: nat, x: octet, more: seq<octet>)
    requires B > 0 && |m| == 1 && Run(POWER_ON, Line(m, B)).1 == [x] + more && x != m[0].byte
    ensures !Decodes(m, B)
  {
    hide Line, Run;
    assert Bytes(m) == [m[0].byte] + [];
    FirstDiffers(x, more, m[0].byte, []);
  }

  lemma SlowLevel(B: nat, k: nat)
    requires B > 0 && k < 8 * B
    ensures FrameWave(0x80, B)[k] == 0
  {
    hide FrameWave, Slot;
    var j := k / B;
    DivBelow(k, B, 8);
    SlotAt(0x80, B, j, k);
    HighBitOnly(j);
  }

  lemma DivBelow(k: nat, B: nat, n: nat)
    requires B > 0 && k < n * B
    ensures k / B < n && B * (k / B) <= k < B * (k / B + 1)
  {
    var q := k / B;
    assert k == B * q + k % B;
    if q >= n { MulMono(n, q, B); }
  }

  lemma HighSample(w: seq<pin>)
    requires |w| >= FRAME_CYCLES && w[SampleAt(7)] == 1
    ensures Assembled(w, 8) != 0
  {
    LastPlace(Assembled(w, 7));
  }

  lemma LastPlace(a: octet)
    ensures Both(a, Place(1, 7)) != 0
  {
  }

  lemma ZeroLevel(B: nat, k: nat)
    requires B > 0 && k < 10 * B
    ensures FrameWave(0, B)[k] == if k < 9 * B then 0 else 1
  {
    hide FrameWave;
    DivBelow(k, B, 10);
    var j := k / B;
    SlotAt(0, B, j, k);
    if 0 < j < 9 { TopBit(j - 1); }
    if j < 9 { MulMono(j + 1, 9, B); } else { MulMono(9, j, B); }
  }

  // A line too fast: the stop bit is sampled for the last data bit.
  lemma TooFast(B: nat)
    requires 0 < B <= 409
    ensures !Decodes([Sent(0, 0)], B)
  {
    hide DecTick, Line, FrameWave, Assembled;
    var w := Line([Sent(0, 0)], B);
    forall k | 0 <= k < |w|
      ensures w[k] == if k < 9 * B then 0 else 1
    {
      LineOfOne(0, B, k);
      if k < 10 * B { ZeroLevel(B, k); }
    }
    LineOfOne(0, B, 0);
    if 217 < 9 * B {
      HighSample(w);
      FrameOut(POWER_ON, w);
      DecodesFirst([Sent(0, 0)], B, Assembled(w, 8), Run(Run(POWER_ON, w[..FRAME_CYCLES]).0, w[FRAME_CYCLES..]).1);
    } else {
      StartSampled(POWER_ON, w);
      IdleStays(Run(POWER_ON, w[..218]).0, w[218..]);
      RunAppend(POWER_ON, w[..218], w[218..]);
      assert w == w[..218] + w[218..];
      Empty<octet>([]);
    }
  }

  // n zero bytes back to back.
  function ZeroBytes(n: nat): (m: seq<Sent>)
    ensures |m| == n
  {
    seq(n, k => Sent(0, 0))
  }

  // Where frame k of a line of back-to-back frames begins.
  function FrameStart(B: nat, k: nat): nat { 10 * B * k }

  lemma OneFrameOn(B: nat, k: nat)
    ensures FrameStart(B, 0) == 0
    ensures k > 0 ==> FrameStart(B, k) == 10 * B + FrameStart(B, k - 1)
  {
  }

  lemma {:induction false} ZeroWaveAt(n: nat, B: nat, k: nat, r: nat)
    requires B > 0 && k < n && r < 10 * B
    ensures var (w, at) := (Wave(ZeroBytes(n), B), FrameStart(B, k) + r);
            at < |w| && w[at] == if r < 9 * B then 0 else 1
    decreases n
  {
    hide FrameWave, Repeat, ZeroBytes, FrameStart;
    var (f, u) := (FrameWave(0, B), Wave(ZeroBytes(n - 1), B));
    ZeroWaveFirst(n, B);
    OneFrameOn(B, k);
    if k == 0 {
      ZeroLevel(B, r);
    } else {
      ZeroWaveAt(n - 1, B, k - 1, r);
      hide Wave;
      assert (f + u)[|f| + (FrameStart(B, k - 1) + r)] == u[FrameStart(B, k - 1) + r];
    }
  }

  lemma ZeroWaveFirst(n: nat, B: nat)
    requires n > 0 && B > 0
    ensures Wave(ZeroBytes(n), B) == FrameWave(0, B) + Wave(ZeroBytes(n - 1), B)
  {
    hide FrameWave;
    assert ZeroBytes(n)[1..] == ZeroBytes(n - 1);
    var (f, u) := (FrameWave(0, B), Wave(ZeroBytes(n - 1), B));
    assert Repeat<pin>(1, 0) + f + u == f + u;
  }

  // A start edge, and its check half a bit later, k decoder frames into the line.
  predicate Starts(w: seq<pin>, k: nat) {
    |w| >= FRAME_CYCLES * (k + 1) && w[FRAME_CYCLES * k] == 0 && w[FRAME_CYCLES * k + 217] == 0
  }

  lemma StartsLater(w: seq<pin>, k: nat)
    requires Starts(w, k + 1)
    ensures Starts(w[FRAME_CYCLES..], k)
  {
  }

  lemma ZerosMore(n: nat)
    requires n > 0
    ensures Repeat<octet>(0, n) == [0] + Repeat<octet>(0, n - 1)
  {
  }

  // Slightly fast, frames back to back: each start edge is seen later than the last,
  // until the last data bit is sampled in the stop bit.
  lemma {:induction false} Drifts(d: Dec, w: seq<pin>, n: nat, left: nat)
    requires d.state == Idle && left < n && (forall k: nat :: k <= left ==> Starts(w, k))
    requires |w| >= FRAME_CYCLES * (left + 1) && w[FRAME_CYCLES * left + SampleAt(7)] == 1
    ensures Run(d, w).1 != Repeat<octet>(0, n)
    decreases left
  {
    hide DecTick, Assembled, Run, Repeat;
    assert Starts(w, 0);
    FrameOut(d, w);
    ZerosMore(n);
    var (x, u) := (Assembled(w, 8), w[FRAME_CYCLES..]);
    var e := Run(d, w[..FRAME_CYCLES]).0;
    if left == 0 {
      HighSample(w);
      FirstDiffers(x, Run(e, u).1, 0, Repeat<octet>(0, n - 1));
    } else {
      forall k: nat | k <= left - 1
        ensures Starts(u, k)
      {
        StartsLater(w, k);
      }
      Drifts(e, u, n - 1, left - 1);
      RestDiffers(x, Run(e, u).1, 0, Repeat<octet>(0, n - 1));
    }
  }

  lemma RestDiffers(x: octet, more: seq<octet>, y: octet, rest: seq<octet>)
    requires more != rest
    ensures [x] + more != [y] + rest
  {
    assert more == ([x] + more)[1..];
    assert rest == ([y] + rest)[1..];
  }

  lemma SlightlyFast(B: nat)
    requires 410 <= B <= 412
    ensures !Decodes(ZeroBytes(6), B)
  {
    hide DecTick, Wave, Run;
    var w := Line(ZeroBytes(6), B);
    var left := if B == 412 then 5 else 1;
    ZeroWaveAt(6, B, 5, 10 * B - 1);
    forall k: nat | k <= left
      ensures Starts(w, k)
    {
      var late := (FRAME_CYCLES - 10 * B) * k;
      ZeroWaveAt(6, B, k, late);
      ZeroWaveAt(6, B, k, late + 217);
    }
    ZeroWaveAt(6, B, left, (FRAME_CYCLES - 10 * B) * left + SampleAt(7));
    Drifts(POWER_ON, w, 6, left);
    assert Bytes(ZeroBytes(6)) == Repeat<octet>(0, 6);
  }

  // The tolerance is exact: every byte sequence with every choice of idle gaps is
  // decoded if and only if a bit lasts 413 to 461 cycles.
  lemma ToleranceExact(B: nat)
    requires B > 0
    ensures (forall m :: Decodes(m, B)) <==> Tolerated(B)
  {
    hide Decodes;
    if Tolerated(B) {
      forall m
        ensures Decodes(m, B)
      {
        DecodesWithin(m, B);
      }
    } else if B >= 462 {
      TooSlow(B);
    } else if B <= 409 {
      TooFast(B);
    } else {
      SlightlyFast(B);
    }
  }
}
