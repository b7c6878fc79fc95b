// What the framed link guarantees about every stream of bytes.
module FrameLaws {
  import opened Words
  import opened Seqs
  import opened Crc
  import opened FrameSpec

  // ------------------------------------------------------ runs compose --

  lemma {:induction false} RunAppend(s: Link, p: seq<octet>, q: seq<octet>)
    ensures Run(s, p + q).0 == Run(Run(s, p).0, q).0
    ensures Run(s, p + q).1 == Run(s, p).1 + Run(Run(s, p).0, q).1
    decreases |p|
  {
    hide Step;
    if p == [] {
      assert p + q == q;
    } else {
      assert (p + q)[0] == p[0] && (p + q)[1..] == p[1..] + q;
      var (t, f) := Step(s, p[0]);
      RunAppend(t, p[1..], q);
      Assoc(f, Run(t, p[1..]).1, Run(Run(t, p[1..]).0, q).1);
    }
  }

  lemma RunOne(s: Link, c: octet)
    ensures Run(s, [c]) == Step(s, c)
  {
    hide Step;
    assert [c][1..] == [];
    assert Step(s, c).1 + [] == Step(s, c).1;
  }

  lemma RunTwo(s: Link, c: octet, d: octet)
    ensures Run(s, [c, d]).0 == Step(Step(s, c).0, d).0
    ensures Run(s, [c, d]).1 == Step(s, c).1 + Step(Step(s, c).0, d).1
  {
    hide Step;
    assert [c, d] == [c] + [d];
    RunAppend(s, [c], [d]);
    RunOne(s, c);
    RunOne(Step(s, c).0, d);
  }

  // ------------------------------------------------------ unstuffing --

  // The effect of a stretch of data bytes, escapes already removed.
  function RunData(s: Link, b: seq<octet>): (Link, seq<Frame>)
    decreases |b|
  {
    if b == [] then (s, [])
    else
      var (t, f) := Answer(Data(s, b[0]));
      var (u, fs) := RunData(t, b[1..]);
      (u, f + fs)
  }

  lemma UnescapeTwice(b: octet)
    ensures (b ^ 0x20) ^ 0x20 == b
  {
  }

  lemma DataKeepsEsc(s: Link, b: octet)
    ensures Answer(Data(s, b)).0.esc == s.esc
  {
    hide Wire, CrcOf;
  }

  lemma StuffedByte(s: Link, b: octet)
    requires !s.esc
    ensures Run(s, StuffByte(b)) == Answer(Data(s, b))
  {
    hide Data;
    if b == FLAG || b == ESC {
      RunTwo(s, ESC, b ^ 0x20);
      UnescapeTwice(b);
      var t := s.(esc := true);
      assert Step(s, ESC) == (t, []);
      assert t.(esc := false) == s;
      Empty(Answer(Data(s, b)).1);
    } else {
      RunOne(s, b);
    }
  }

  // A stuffed stretch acts as the bytes it stands for.
  lemma {:induction false} Unstuff(s: Link, b: seq<octet>)
    requires !s.esc
    ensures Run(s, Stuff(b)) == RunData(s, b) && !RunData(s, b).0.esc
    decreases |b|
  {
    hide Data, Answer, Step, StuffByte;
    if b != [] {
      RunAppend(s, StuffByte(b[0]), Stuff(b[1..]));
      StuffedByte(s, b[0]);
      DataKeepsEsc(s, b[0]);
      Unstuff(Answer(Data(s, b[0])).0, b[1..]);
    }
  }

  lemma {:induction false} DataAppend(s: Link, p: seq<octet>, q: seq<octet>)
    ensures RunData(s, p + q).0 == RunData(RunData(s, p).0, q).0
    ensures RunData(s, p + q).1 == RunData(s, p).1 + RunData(RunData(s, p).0, q).1
    decreases |p|
  {
    hide Data, Answer;
    if p == [] {
      assert p + q == q;
    } else {
      assert (p + q)[0] == p[0] && (p + q)[1..] == p[1..] + q;
      var (t, f) := Answer(Data(s, p[0]));
      DataAppend(t, p[1..], q);
      Assoc(f, RunData(t, p[1..]).1, RunData(RunData(t, p[1..]).0, q).1);
    }
  }

  lemma DataOne(s: Link, c: octet)
    ensures RunData(s, [c]) == Answer(Data(s, c))
  {
    hide Data, Answer;
    assert [c][1..] == [];
    Empty(Answer(Data(s, c)).1);
  }

  // ------------------------------------------------------ one body --

  // A body whose length byte agrees with its extent.
  predicate Proper(b: seq<octet>) {
    |b| >= 5 && Value(b[0]) <= MAX_PAYLOAD && |b| == Value(b[0]) + 5
  }

  lemma BodyIsProper(m: Msg)
    requires |m.payload| <= MAX_PAYLOAD
    ensures Proper(Body(m)) && Accepts(Body(m))
    ensures Body(m)[1] == m.seqno && Body(m)[2] == m.cmd && Body(m)[3..3 + |m.payload|] == m.payload
  {
    OctetValue(|m.payload|);
    JoinHiLo(CrcOf(Head(m)));
    assert Body(m)[..|Body(m)| - 2] == Head(m);
    assert Body(m)[3..3 + |m.payload|] == m.payload;
  }

  // Until the last byte, the receiver only collects.
  lemma {:induction false} Collect(s: Link, b: seq<octet>, k: nat)
    requires s.inFrame && s.body == [] && Proper(b) && k < |b|
    ensures RunData(s, b[..k]) == (s.(body := b[..k]), [])
    decreases k
  {
    hide RunData, Data, Proper;
    if k == 0 {
      assert b[..k] == [];
      NoData(s);
    } else {
      Collect(s, b, k - 1);
      assert b[..k] == b[..k - 1] + [b[k - 1]];
      DataAppend(s, b[..k - 1], [b[k - 1]]);
      var t := s.(body := b[..k - 1]);
      DataOne(t, b[k - 1]);
      CollectOne(t, b, k - 1);
      Empty<Frame>([]);
    }
  }

  lemma NoData(s: Link)
    ensures RunData(s, []) == (s, [])
  {
  }

  lemma CollectOne(t: Link, b: seq<octet>, k: nat)
    requires t.inFrame && Proper(b) && k + 1 < |b| && t.body == b[..k]
    ensures Data(t, b[k]) == (t.(body := b[..k + 1]), None)
  {
    hide Nak, CrcOf;
    assert t.body + [b[k]] == b[..k + 1];
    if k > 0 { assert t.body[0] == b[0]; }
  }

  // The last byte decides.
  lemma CollectLast(s: Link, b: seq<octet>)
    requires s.inFrame && s.body == [] && Proper(b)
    ensures RunData(s, b) == Answer(Complete(s.(body := b)))
  {
    hide Nak, CrcOf;
    var k := |b| - 1;
    Collect(s, b, k);
    assert b == b[..k] + [b[k]];
    DataAppend(s, b[..k], [b[k]]);
    var t := s.(body := b[..k]);
    DataOne(t, b[k]);
    assert t.body[0] == b[0];
    assert t.body + [b[k]] == b;
    assert Data(t, b[k]) == Complete(s.(body := b));
    Empty(Answer(Data(t, b[k])).1);
  }

  // Flag, stuffed bytes, flag: a new frame is opened, the bytes are collected, and
  // whatever is left of them is dropped.
  lemma FramedRun(s: Link, b: seq<octet>)
    requires !s.esc
    ensures var (t, fs) := RunData(Open(s), b);
            !t.esc && Run(s, Framed(b)) == (Open(t), fs)
  {
    hide Data, Stuff;
    var o := Open(s);
    RunAppend(s, [FLAG] + Stuff(b), [FLAG]);
    RunAppend(s, [FLAG], Stuff(b));
    RunOne(s, FLAG);
    Empty(Run(o, Stuff(b)).1);
    Unstuff(o, b);
    var (t, fs) := RunData(o, b);
    RunOne(t, FLAG);
    Empty(fs);
  }

  // Outside a frame nothing is collected.
  lemma {:induction false} IdleIgnores(s: Link, b: seq<octet>)
    requires !s.inFrame
    ensures RunData(s, b) == (s, [])
    decreases |b|
  {
    if b != [] {
      IdleIgnores(s, b[1..]);
      assert Answer(Data(s, b[0])) == (s, []);
      Empty<Frame>([]);
    }
  }

  // Bytes that reach the extent their length byte declares, and the body they are
  // judged by: the receiver looks no further.
  predicate Whole(b: seq<octet>) {
    b != [] && Value(b[0]) <= MAX_PAYLOAD && |b| >= Value(b[0]) + 5
  }

  function Judged(b: seq<octet>): (j: seq<octet>)
    requires Whole(b)
    ensures Proper(j) && j <= b
  {
    b[..Value(b[0]) + 5]
  }

  lemma ProperIsWhole(b: seq<octet>)
    requires Proper(b)
    ensures Whole(b) && Judged(b) == b
  {
  }

  lemma CompleteCloses(s: Link)
    requires Proper(s.body)
    ensures !Answer(Complete(s)).0.inFrame && Answer(Complete(s)).0.body == []
  {
    hide Wire, CrcOf, Join, Delivered;
  }

  lemma WholeBody(s: Link, b: seq<octet>)
    requires s.inFrame && s.body == [] && Whole(b)
    ensures RunData(s, b) == Answer(Complete(s.(body := Judged(b))))
  {
    hide Complete, RunData, Answer;
    var (j, rest) := (Judged(b), b[|Judged(b)|..]);
    assert b == j + rest;
    CollectLast(s, j);
    DataAppend(s, j, rest);
    CompleteCloses(s.(body := j));
    IdleIgnores(RunData(s, j).0, rest);
    Empty(RunData(s, j).1);
  }

  lemma FramedBody(s: Link, b: seq<octet>)
    requires !s.esc && Whole(b)
    ensures var (t, fs) := Answer(Complete(Open(s).(body := Judged(b))));
            !t.esc && Run(s, Framed(b)) == (Open(t), fs)
  {
    hide Complete, RunData, Framed;
    FramedRun(s, b);
    WholeBody(Open(s), b);
  }

  // ------------------------------------------------------ good frames --

  // A well-formed frame of at most 32 payload bytes is delivered intact, whatever
  // the receiver was doing, as long as no escape is pending; it moves no error
  // counter except resync, and that only for a body it cut short.
  lemma GoodFrame(s: Link, m: Msg)
    requires !s.esc && |m.payload| <= MAX_PAYLOAD
    ensures var (t, fs) := Run(s, Wire(m));
            && fs == [Frame(m, s.haveLast && s.lastSeq == m.seqno)]
            && !t.esc && t.inFrame && t.body == []
            && t.haveLast && t.lastSeq == m.seqno
            && t.ok == Inc(s.ok) && t.badCrc == s.badCrc && t.badLen == s.badLen
            && t.resync == (if s.inFrame && s.body != [] then Inc(s.resync) else s.resync)
            && t.dup == (if fs[0].dup then Inc(s.dup) else s.dup)
            && t.tx == Inc(s.tx)
  {
    hide Body, Wire, Framed, Complete;
    BodyIsProper(m);
    WireIs(m);
    ProperIsWhole(Body(m));
    FramedBody(s, Body(m));
    CompleteGood(Open(s).(body := Body(m)), m);
  }

  lemma CompleteGood(s: Link, m: Msg)
    requires |m.payload| <= MAX_PAYLOAD && s.body == Body(m)
    ensures var f := Frame(m, s.haveLast && s.lastSeq == m.seqno);
            Complete(s) == (Accept(s, f), Some(f))
  {
    hide Body, CrcOf, Accept, Reject, Join;
    var b := s.body;
    BodyIsProper(m);
    BodyLength(m);
    assert b[..|b| - 2] == b[..Value(b[0]) + 3];
  }

  lemma WireIs(m: Msg)
    ensures Wire(m) == Framed(Body(m))
  {
  }

  lemma BodyLength(m: Msg)
    ensures |Body(m)| == |m.payload| + 5
  {
  }

  // ------------------------------------------------------ bad frames --

  // A body whose check bytes are wrong, at the extent its length byte declares, is
  // never delivered: it costs one bad_crc and one NAK, addressed to the sequence
  // number it carried.
  lemma BadBody(s: Link, b: seq<octet>)
    requires !s.esc && Whole(b) && !Accepts(Judged(b))
    ensures var (t, fs) := Run(s, Framed(b));
            && fs == []
            && !t.esc && t.inFrame && t.body == []
            && t.badCrc == Inc(s.badCrc) && t.tx == Inc(s.tx)
            && t.wire == s.wire + Wire(Msg(b[1], 0x00, [0xFF]))
            && t.ok == s.ok && t.badLen == s.badLen && t.dup == s.dup
            && t.lastSeq == s.lastSeq && t.haveLast == s.haveLast
  {
    hide Wire, Framed, Complete;
    FramedBody(s, b);
    CompleteBad(Open(s).(body := Judged(b)));
  }

  lemma CompleteBad(s: Link)
    requires Proper(s.body) && !Accepts(s.body)
    ensures Complete(s) == (Reject(s), None)
  {
    hide CrcOf, Join, Reject;
    var b := s.body;
    assert b[..|b| - 2] == b[..Value(b[0]) + 3];
  }

  // b2 is b with up to 16 adjacent bits changed, none of them in the length byte.
  ghost predicate Corrupted(b: seq<octet>, b2: seq<octet>) {
    exists p, x, y, q ::
      && b == p + x + q && b2 == p + y + q && |p| >= 1
      && |x| == |y| == 3 && x != y && Burst(Diff(x[0], y[0]), Diff(x[2], y[2]))
  }

  // In particular: any change confined to one byte or to two adjacent ones.
  lemma TwoByteChange(b: seq<octet>, b2: seq<octet>, i: nat)
    requires |b| == |b2| >= 5 && 1 <= i < |b| - 1 && b != b2
    requires forall j :: 0 <= j < |b| && j != i && j != i + 1 ==> b[j] == b2[j]
    ensures Corrupted(b, b2)
  {
    hide Burst;
    var k := if i + 3 <= |b| then i else i - 1;
    var (p, x, y, q) := (b[..k], b[k..k + 3], b2[k..k + 3], b[k + 3..]);
    assert b == p + x + q;
    assert b2 == p + y + q;
    if k == i {
      assert x[2] == y[2];
      DiffZero(x[2], y[2]);
      BurstEnds(Diff(x[0], y[0]), Diff(x[2], y[2]));
    } else {
      assert x[0] == y[0];
      DiffZero(x[0], y[0]);
      BurstEnds(Diff(x[0], y[0]), Diff(x[2], y[2]));
    }
  }

  lemma BurstEnds(e0: octet, e2: octet)
    requires e0 == 0 || e2 == 0
    ensures Burst(e0, e2)
  {
  }

  // Such a corruption of a well-formed frame is never delivered.
  lemma CorruptionNeverDelivered(s: Link, m: Msg, b2: seq<octet>)
    requires !s.esc && |m.payload| <= MAX_PAYLOAD && Corrupted(Body(m), b2)
    ensures |b2| == |Body(m)|
    ensures var (t, fs) := Run(s, Framed(b2));
            && fs == [] && t.ok == s.ok && t.badLen == s.badLen
            && t.badCrc == Inc(s.badCrc) && t.tx == Inc(s.tx)
            && t.wire == s.wire + Wire(Msg(b2[1], 0x00, [0xFF]))
  {
    hide Body, Wire, CrcOf, Stuff, Burst;
    BodyIsProper(m);
    var p, x, y, q :|
      && Body(m) == p + x + q && b2 == p + y + q && |p| >= 1
      && |x| == |y| == 3 && x != y && Burst(Diff(x[0], y[0]), Diff(x[2], y[2]));
    BurstRejected(p, x, y, q);
    assert b2[0] == p[0] == Body(m)[0];
    ProperIsWhole(b2);
    BadBody(s, b2);
  }

  // ------------------------------------------------------ lists of frames --

  function Wires(ms: seq<Msg>): seq<octet> {
    if ms == [] then [] else Wire(ms[0]) + Wires(ms[1..])
  }

  // The messages, each marked as a duplicate iff it repeats the sequence number of
  // the one before it.
  function Marked(ms: seq<Msg>, haveLast: bool, last: octet): seq<Frame> {
    if ms == [] then []
    else [Frame(ms[0], haveLast && last == ms[0].seqno)] + Marked(ms[1..], true, ms[0].seqno)
  }

  // Whatever frame_send produced arrives: exactly those messages, in that order,
  // and no error counter moves.
  lemma {:induction false} EveryFrameArrives(s: Link, ms: seq<Msg>)
    requires !s.esc && (s.inFrame ==> s.body == [])
    requires forall i :: 0 <= i < |ms| ==> |ms[i].payload| <= MAX_PAYLOAD
    ensures var (t, fs) := Run(s, Wires(ms));
            && fs == Marked(ms, s.haveLast, s.lastSeq)
            && t.ok == (s.ok + |ms|) % TWO32
            && t.badCrc == s.badCrc && t.badLen == s.badLen && t.resync == s.resync
            && !t.esc && (t.inFrame ==> t.body == [])
    decreases |ms|
  {
    hide Wire;
    if ms != [] {
      RunAppend(s, Wire(ms[0]), Wires(ms[1..]));
      GoodFrame(s, ms[0]);
      EveryFrameArrives(Run(s, Wire(ms[0])).0, ms[1..]);
      ModAdd(s.ok + 1, |ms| - 1);
    }
  }
}
