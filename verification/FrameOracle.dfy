// The host-side model of the receiver, written independently of the firmware, and
// its agreement with the firmware on every byte stream.
module FrameOracle {
  import opened Words
  import opened Seqs
  import opened CrcBits
  import opened Crc
  import opened FrameSpec
  import opened FrameRuns

  // ------------------------------------------------------ its CRC --

  // The oracle shifts in wider arithmetic and masks.
  function WideShift(c: bv32): bv32 {
    if c & 0x8000 != 0 then ((c << 1) ^ 0x1021) & 0xFFFF else (c << 1) & 0xFFFF
  }

  function WideShifts(c: bv32, n: nat): bv32
    decreases n
  {
    if n == 0 then c else WideShift(WideShifts(c, n - 1))
  }

  function Wide(c: bv16): bv32 { c as bv32 }
  function WideHigh(b: octet): bv32 { (b as bv32) << 8 }

  function WideCrcFrom(c: bv32, s: seq<octet>): bv32
    decreases |s|
  {
    if s == [] then c else WideCrcFrom(WideShifts(c ^ WideHigh(s[0]), 8), s[1..])
  }

  lemma WideTop(c: bv16)
    ensures Wide(c) & 0x8000 != 0 <==> c & 0x8000 != 0
  {
  }

  lemma WideLeft(c: bv16)
    ensures (Wide(c) << 1) & 0xFFFF == Wide(c << 1)
  {
  }

  lemma WideFold(c: bv16)
    ensures ((Wide(c) << 1) ^ 0x1021) & 0xFFFF == Wide((c << 1) ^ 0x1021)
  {
  }

  lemma WideShiftAgrees(c: bv16)
    ensures WideShift(Wide(c)) == Wide(Shift(c))
  {
    hide Wide;
    WideTop(c);
    if c & 0x8000 != 0 { WideFold(c); } else { WideLeft(c); }
  }

  lemma WideXorAgrees(c: bv16, b: octet)
    ensures Wide(c) ^ WideHigh(b) == Wide(c ^ High(b))
  {
  }

  lemma {:induction false} WideShiftsAgree(c: bv16, n: nat)
    ensures WideShifts(Wide(c), n) == Wide(Shifts(c, n))
  {
    hide Shift, WideShift, Wide;
    if n > 0 {
      WideShiftsAgree(c, n - 1);
      WideShiftAgrees(Shifts(c, n - 1));
    }
  }

  lemma {:induction false} WideCrcAgrees(c: bv16, s: seq<octet>)
    ensures WideCrcFrom(Wide(c), s) == Wide(CrcFrom(c, s))
    decreases |s|
  {
    if s != [] {
      WideByteAgrees(c, s[0]);
      hide Wide, WideHigh, High, Shifts, WideShifts;
      WideCrcAgrees(CrcByte(c, s[0]), s[1..]);
    }
  }

  lemma WideByteAgrees(c: bv16, b: octet)
    ensures WideShifts(Wide(c) ^ WideHigh(b), 8) == Wide(CrcByte(c, b))
  {
    WideXorAgrees(c, b);
    hide Wide, WideHigh, High, Shifts, WideShifts;
    WideShiftsAgree(c ^ High(b), 8);
  }

  function WideJoin(h: octet, l: octet): bv32 { WideHigh(h) | (l as bv32) }

  function Or(a: bv16, b: bv16): bv16 { a | b }
  function WideOr(a: bv32, b: bv32): bv32 { a | b }
  function WideLow(l: octet): bv32 { l as bv32 }

  lemma WideOrAgrees(a: bv16, b: bv16)
    ensures WideOr(Wide(a), Wide(b)) == Wide(Or(a, b))
  {
  }

  lemma WideHighAgrees(h: octet)
    ensures WideHigh(h) == Wide(High(h))
  {
  }

  lemma WideLowAgrees(l: octet)
    ensures WideLow(l) == Wide(Low(l))
  {
  }

  lemma JoinAsOr(h: octet, l: octet)
    ensures Join(h, l) == Or(High(h), Low(l)) && WideJoin(h, l) == WideOr(WideHigh(h), WideLow(l))
  {
    hide High, WideHigh;
  }

  lemma WideJoinIs(h: octet, l: octet)
    ensures WideJoin(h, l) == Wide(Join(h, l))
  {
    hide *;
    JoinAsOr(h, l);
    WideHighAgrees(h);
    WideLowAgrees(l);
    WideOrAgrees(High(h), Low(l));
  }

  lemma WideInjective(a: bv16, b: bv16)
    ensures Wide(a) == Wide(b) <==> a == b
  {
  }

  // ------------------------------------------------------ its receiver --

  // The oracle's locals; its counters are unbounded.
  datatype Oracle = Oracle(
    body: seq<octet>, inFrame: bool, esc: bool, haveLast: bool, lastSeq: octet,
    ok: nat, badCrc: nat, badLen: nat, resync: nat, dup: nat, tx: nat)

  const START: Oracle := Oracle([], false, false, false, 0, 0, 0, 0, 0, 0, 0)

  // An impossible length is never followed by more body bytes.
  predicate Ready(p: Oracle) {
    p.body != [] && Value(p.body[0]) > MAX_PAYLOAD ==> |p.body| == 1
  }

  function Judge(p: Oracle): Oracle
    requires |p.body| >= 1 && Value(p.body[0]) + 5 <= |p.body|
  {
    var n := Value(p.body[0]);
    var got := WideJoin(p.body[3 + n], p.body[3 + n + 1]);
    if WideCrcFrom(0xFFFF, p.body[..3 + n]) != got then Fail(p) else Pass(p, p.body[1])
  }

  function Fail(p: Oracle): Oracle {
    p.(badCrc := p.badCrc + 1, tx := p.tx + 1, body := [], inFrame := false)
  }

  function Pass(p: Oracle, seqno: octet): Oracle {
    p.(ok := p.ok + 1, dup := if p.haveLast && seqno == p.lastSeq then p.dup + 1 else p.dup,
       lastSeq := seqno, haveLast := true, tx := p.tx + 1, body := [], inFrame := false)
  }

  function TakeData(p: Oracle, byte: octet): Oracle
    requires Ready(p)
  {
    if !p.inFrame then p
    else if |p.body| == 1 && Value(p.body[0]) > MAX_PAYLOAD then p
    else if |p.body| > 3 + MAX_PAYLOAD + 2 then
      p.(badLen := p.badLen + 1, tx := p.tx + 1, body := [], inFrame := false)
    else
      var t := p.(body := p.body + [byte]);
      if |t.body| == 1 && Value(t.body[0]) > MAX_PAYLOAD then
        t.(badLen := p.badLen + 1, tx := p.tx + 1)
      else if |t.body| < 3 + Value(t.body[0]) + 2 then t
      else Judge(t)
  }

  function Take(p: Oracle, byte: octet): Oracle
    requires Ready(p)
  {
    if p.esc then TakeData(p.(esc := false), byte ^ 0x20)
    else if byte == FLAG then
      p.(resync := if p.inFrame && |p.body| > 0 then p.resync + 1 else p.resync, body := [], inFrame := true)
    else if byte == ESC then p.(esc := true)
    else TakeData(p, byte)
  }

  lemma JudgeClears(p: Oracle)
    requires |p.body| >= 1 && Value(p.body[0]) + 5 <= |p.body|
    ensures Judge(p).body == []
  {
    hide WideCrcFrom, WideJoin;
  }

  lemma DataReady(p: Oracle, byte: octet)
    requires Ready(p)
    ensures Ready(TakeData(p, byte))
  {
    hide Judge;
    var t := p.(body := p.body + [byte]);
    if |t.body| >= Value(t.body[0]) + 5 { JudgeClears(t); }
  }

  lemma TakeReady(p: Oracle, byte: octet)
    requires Ready(p)
    ensures Ready(Take(p, byte))
  {
    hide TakeData;
    if p.esc {
      DataReady(p.(esc := false), byte ^ 0x20);
    } else if byte != FLAG && byte != ESC {
      DataReady(p, byte);
    }
  }

  function TakeAll(p: Oracle, q: seq<octet>): Oracle
    requires Ready(p)
    decreases |q|
  {
    if q == [] then p else TakeReady(p, q[0]); TakeAll(Take(p, q[0]), q[1..])
  }

  // ------------------------------------------------------ agreement --

  ghost predicate Agree(p: Oracle, s: Link) {
    && p.body == s.body && p.inFrame == s.inFrame && p.esc == s.esc
    && p.haveLast == s.haveLast && p.lastSeq == s.lastSeq
    && p.ok % TWO32 == s.ok && p.badCrc % TWO32 == s.badCrc && p.badLen % TWO32 == s.badLen
    && p.resync % TWO32 == s.resync && p.dup % TWO32 == s.dup && p.tx % TWO32 == s.tx
  }

  lemma Counted(n: nat, w: word)
    requires n % TWO32 == w
    ensures (n + 1) % TWO32 == Inc(w)
  {
    ModAdd(n, 1);
  }

  lemma CountAll(p: Oracle, s: Link)
    requires Agree(p, s)
    ensures (p.ok + 1) % TWO32 == Inc(s.ok) && (p.badCrc + 1) % TWO32 == Inc(s.badCrc)
    ensures (p.badLen + 1) % TWO32 == Inc(s.badLen) && (p.resync + 1) % TWO32 == Inc(s.resync)
    ensures (p.dup + 1) % TWO32 == Inc(s.dup) && (p.tx + 1) % TWO32 == Inc(s.tx)
  {
    hide Inc;
    Counted(p.ok, s.ok);
    Counted(p.badCrc, s.badCrc);
    Counted(p.badLen, s.badLen);
    Counted(p.resync, s.resync);
    Counted(p.dup, s.dup);
    Counted(p.tx, s.tx);
  }

  lemma VerdictsAgree(b: seq<octet>, n: nat)
    requires |b| >= n + 5
    ensures WideCrcFrom(0xFFFF, b[..3 + n]) == WideJoin(b[3 + n], b[3 + n + 1])
            <==> CrcOf(b[..n + 3]) == Join(b[n + 3], b[n + 4])
  {
    hide WideCrcFrom, CrcFrom, Wide, WideJoin, Join;
    WideCrcAgrees(0xFFFF, b[..n + 3]);
    WideStart();
    WideJoinIs(b[n + 3], b[n + 4]);
    WideInjective(CrcOf(b[..n + 3]), Join(b[n + 3], b[n + 4]));
  }

  lemma WideStart()
    ensures Wide(0xFFFF) == 0xFFFF
  {
  }

  lemma FailAgrees(p: Oracle, s: Link)
    requires Agree(p, s) && |s.body| >= 2
    ensures Agree(Fail(p), Reject(s))
  {
    hide Inc, Wire;
    CountAll(p, s);
  }

  lemma PassAgrees(p: Oracle, s: Link, f: Frame)
    requires Agree(p, s) && (f.dup <==> p.haveLast && f.msg.seqno == p.lastSeq)
    ensures Agree(Pass(p, f.msg.seqno), Handle(Accept(s, f), f))
  {
    hide Inc, Wire, Handle;
    CountAll(p, s);
    HandleSends(Accept(s, f), f);
  }

  lemma JudgeAgrees(p: Oracle, s: Link)
    requires Agree(p, s)
    requires |p.body| >= 1 && Value(p.body[0]) <= MAX_PAYLOAD && Value(p.body[0]) + 5 <= |p.body|
    ensures Agree(Judge(p), Answer(Complete(s)).0)
  {
    hide WideCrcFrom, CrcOf, WideJoin, Join, Handle, Delivered, Pass, Fail, Accept, Reject;
    var n := Value(p.body[0]);
    VerdictsAgree(p.body, n);
    if CrcOf(s.body[..n + 3]) == Join(s.body[n + 3], s.body[n + 4]) {
      DeliveredFields(s, n);
      PassAgrees(p, s, Delivered(s, n));
    } else {
      FailAgrees(p, s);
    }
  }

  lemma DeliveredFields(s: Link, n: nat)
    requires |s.body| >= n + 5
    ensures Delivered(s, n).msg.seqno == s.body[1]
    ensures Delivered(s, n).dup <==> s.haveLast && s.body[1] == s.lastSeq
  {
  }

  lemma GrownAgrees(u: Oracle, t: Link)
    requires Agree(u, t) && t.body != [] && Value(t.body[0]) <= MAX_PAYLOAD
    ensures Agree(if |u.body| < 3 + Value(u.body[0]) + 2 then u else Judge(u), Answer(Complete(t)).0)
  {
    hide Judge, Complete, Handle;
    if |t.body| < Value(t.body[0]) + 5 { CompleteWaits(t); } else { JudgeAgrees(u, t); }
  }

  predicate Swallowing(s: Link) { |s.body| == 1 && Value(s.body[0]) > MAX_PAYLOAD }

  lemma BadLengthAgrees(p: Oracle, s: Link, c: octet)
    requires Agree(p, s) && s.inFrame && s.body == [] && Value(c) > MAX_PAYLOAD
    ensures Agree(TakeData(p, c), Answer(Data(s, c)).0)
  {
    hide Judge, Complete, Inc, Wire, Handle;
    CountAll(p, s);
    assert s.body + [c] == [c];
  }

  lemma CollectAgrees(p: Oracle, s: Link, c: octet)
    requires Agree(p, s) && Ready(p) && s.inFrame && |s.body| < BODY_MAX && !Swallowing(s)
    requires s.body == [] ==> Value(c) <= MAX_PAYLOAD
    ensures Agree(TakeData(p, c), Answer(Data(s, c)).0)
  {
    hide Judge, Complete, Inc, Wire, Handle, Agree;
    var (t, u) := (s.(body := s.body + [c]), p.(body := p.body + [c]));
    assert Agree(u, t) && t.body == u.body by { Extend(p, s, c); }
    BodyAgrees(p, s);
    FirstOf(s.body, c);
    GrownAgrees(u, t);
  }

  lemma FirstOf(b: seq<octet>, c: octet)
    ensures |b + [c]| == |b| + 1 && (b + [c])[0] == if b == [] then c else b[0]
  {
  }

  lemma BodyAgrees(p: Oracle, s: Link)
    requires Agree(p, s)
    ensures p.body == s.body && p.inFrame == s.inFrame
  {
  }

  lemma Extend(p: Oracle, s: Link, c: octet)
    requires Agree(p, s)
    ensures Agree(p.(body := p.body + [c]), s.(body := s.body + [c])) && p.body == s.body
  {
  }

  lemma DataAgrees(p: Oracle, s: Link, c: octet)
    requires Agree(p, s) && Ready(p) && Inv(s)
    ensures Agree(TakeData(p, c), Answer(Data(s, c)).0)
  {
    hide Judge, Complete, Inc, Wire, Handle;
    GuardUnreachable(s);
    if !s.inFrame || Swallowing(s) {
    } else if s.body == [] && Value(c) > MAX_PAYLOAD {
      BadLengthAgrees(p, s, c);
    } else {
      CollectAgrees(p, s, c);
    }
  }

  lemma CompleteWaits(s: Link)
    requires s.body != [] && |s.body| < Value(s.body[0]) + 5
    ensures Complete(s) == (s, None)
  {
  }

  lemma TakeAgrees(p: Oracle, s: Link, c: octet)
    requires Agree(p, s) && Ready(p) && Inv(s)
    ensures Agree(Take(p, c), Step(s, c).0)
  {
    hide TakeData, Data, Step, Answer, Inc;
    CountAll(p, s);
    StepCases(s, c);
    if s.esc {
      DataAgrees(p.(esc := false), s.(esc := false), c ^ 0x20);
    } else if c != FLAG && c != ESC {
      DataAgrees(p, s, c);
    }
  }

  // On every byte stream the oracle and the firmware, with its application
  // answering each delivered frame once, end with the same six counters, although
  // their over-length guards differ.
  lemma {:induction false} OracleAgrees(p: Oracle, s: Link, q: seq<octet>)
    requires Agree(p, s) && Ready(p) && Inv(s)
    ensures Agree(TakeAll(p, q), Run(s, q).0)
    decreases |q|
  {
    hide Take, Step, Agree, Inv;
    if q != [] {
      TakeReady(p, q[0]);
      StepInv(s, q[0]);
      TakeAgrees(p, s, q[0]);
      OracleAgrees(Take(p, q[0]), Step(s, q[0]).0, q[1..]);
    }
  }

  // ------------------------------------------------------ as it runs --

  lemma {:induction false} WideCrcAppend(c: bv32, s: seq<octet>, b: octet)
    ensures WideCrcFrom(c, s + [b]) == WideShifts(WideCrcFrom(c, s) ^ WideHigh(b), 8)
    decreases |s|
  {
    hide WideShifts, WideHigh;
    if s == [] {
      assert ([b])[1..] == [];
      assert s + [b] == [b];
    } else {
      assert (s + [b])[0] == s[0] && (s + [b])[1..] == s[1..] + [b];
      WideCrcAppend(WideShifts(c ^ WideHigh(s[0]), 8), s[1..], b);
    }
  }

  method CrcLoop(data: seq<octet>) returns (crc: bv32)
    ensures crc == WideCrcFrom(0xFFFF, data)
  {
    hide WideShift, WideHigh;
    crc := 0xFFFF;
    assert data[..0] == [];
    for i := 0 to |data|
      invariant crc == WideCrcFrom(0xFFFF, data[..i])
    {
      assert data[..i + 1] == data[..i] + [data[i]];
      WideCrcAppend(0xFFFF, data[..i], data[i]);
      crc := crc ^ WideHigh(data[i]);
      ghost var c := crc;
      for k := 0 to 8
        invariant crc == WideShifts(c, k)
      {
        crc := WideShift(crc);
      }
    }
    assert data[..|data|] == data;
  }

  method Simulate(stream: seq<octet>) returns (c: Oracle)
    ensures c == TakeAll(START, stream)
    ensures Agree(c, Run(FRESH, stream).0)
  {
    hide TakeData, Take, Agree;
    c := START;
    assert stream[0..] == stream;
    for i := 0 to |stream|
      invariant Ready(c) && TakeAll(c, stream[i..]) == TakeAll(START, stream)
    {
      assert stream[i..][0] == stream[i] && stream[i..][1..] == stream[i + 1..];
      TakeReady(c, stream[i]);
      c := One(c, stream[i]);
    }
    StartAgrees();
    OracleAgrees(START, FRESH, stream);
  }

  lemma StartAgrees()
    ensures Agree(START, FRESH) && Inv(FRESH)
  {
  }

  // The loop body, statement by statement.
  method One(p: Oracle, raw: octet) returns (c: Oracle)
    requires Ready(p)
    ensures c == Take(p, raw)
  {
    hide TakeData;
    c := p;
    var byte := raw;
    if c.esc {
      byte := byte ^ 0x20;
      c := c.(esc := false);
    } else if byte == FLAG {
      if c.inFrame && |c.body| > 0 { c := c.(resync := c.resync + 1); }
      c := c.(body := [], inFrame := true);
      return;
    } else if byte == ESC {
      c := c.(esc := true);
      return;
    }
    c := OneData(c, byte);
  }

  method OneData(p: Oracle, byte: octet) returns (c: Oracle)
    requires Ready(p)
    ensures c == TakeData(p, byte)
  {
    hide Judge;
    c := p;
    if !c.inFrame { return; }
    if |c.body| == 1 && Value(c.body[0]) > MAX_PAYLOAD { return; }
    if |c.body| > 3 + MAX_PAYLOAD + 2 {
      c := c.(badLen := c.badLen + 1, tx := c.tx + 1, body := [], inFrame := false);
      return;
    }
    c := c.(body := c.body + [byte]);
    if |c.body| == 1 && Value(c.body[0]) > MAX_PAYLOAD {
      c := c.(badLen := c.badLen + 1, tx := c.tx + 1);
      return;
    }
    var want := 1;
    if |c.body| >= 1 && Value(c.body[0]) <= MAX_PAYLOAD {
      want := 3 + Value(c.body[0]) + 2;
    }
    if |c.body| < want { return; }
    c := OneBody(c);
  }

  method OneBody(p: Oracle) returns (c: Oracle)
    requires |p.body| >= 1 && Value(p.body[0]) + 5 <= |p.body|
    ensures c == Judge(p)
  {
    hide WideCrcFrom, WideJoin, Fail, Pass;
    var body := p.body;
    var n := Value(body[0]);
    var got := WideJoin(body[3 + n], body[3 + n + 1]);
    var crc := CrcLoop(body[..3 + n]);
    if crc != got { c := OneFailed(p); } else { c := OnePassed(p, body[1]); }
  }

  method OneFailed(p: Oracle) returns (c: Oracle)
    ensures c == Fail(p)
  {
    c := p.(badCrc := p.badCrc + 1, tx := p.tx + 1);
    c := c.(body := [], inFrame := false);
  }

  method OnePassed(p: Oracle, seqno: octet) returns (c: Oracle)
    ensures c == Pass(p, seqno)
  {
    c := p.(ok := p.ok + 1);
    if c.haveLast && seqno == c.lastSeq { c := c.(dup := c.dup + 1); }
    c := c.(lastSeq := seqno, haveLast := true, tx := c.tx + 1);
    c := c.(body := [], inFrame := false);
  }

  // The oracle's own stuffing, and the frames it builds from it, are the ones the
  // firmware sends.
  method StuffLoop(body: seq<octet>) returns (out: seq<octet>)
    ensures out == Stuff(body)
  {
    out := [];
    assert body[0..] == body;
    for i := 0 to |body|
      invariant Stuff(body) == out + Stuff(body[i..])
    {
      assert body[i..][1..] == body[i + 1..];
      Assoc(out, StuffByte(body[i]), Stuff(body[i + 1..]));
      if body[i] == FLAG || body[i] == ESC {
        out := out + [ESC, body[i] ^ 0x20];
      } else {
        out := out + [body[i]];
      }
    }
  }

  method GoodFrameBytes(m: Msg) returns (out: seq<octet>)
    requires |m.payload| < 0x100
    ensures out == Wire(m)
  {
    var head := [Octet(|m.payload|), m.seqno, m.cmd] + m.payload;
    var crc := CrcLoop(head);
    var hi := ((crc >> 8) & 0xFF) as bv8;
    var lo := (crc & 0xFF) as bv8;
    WideCrcAgrees(0xFFFF, head);
    WideStart();
    WideHalves(CrcOf(head));
    var stuffed := StuffLoop(head + [hi, lo]);
    out := [FLAG] + stuffed + [FLAG];
  }

  lemma WideHalves(c: bv16)
    ensures ((Wide(c) >> 8) & 0xFF) as bv8 == Hi(c) && (Wide(c) & 0xFF) as bv8 == Lo(c)
  {
  }
}
