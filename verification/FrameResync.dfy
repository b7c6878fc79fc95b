// Resynchronisation: what a flag does in each state, and which frame is the first to
// get through after arbitrary bytes.
module FrameResync {
  import opened Words
  import opened Seqs
  import opened Crc
  import opened FrameSpec
  import opened FrameLaws
  import opened FrameRuns
  import opened FrameJudge

  // ------------------------------------------------------ resynchronisation --

  // After one whole frame's bytes, whatever came before them, no escape is pending
  // and nothing is half collected.
  lemma OneFrameClears(s: Link, m: Msg)
    ensures var t := Run(s, Wire(m)).0; !t.esc && t.inFrame && t.body == []
  {
    hide Data, Stuff, Body;
    var b := Body(m);
    RunAppend(s, [FLAG] + Stuff(b), [FLAG]);
    RunAppend(s, [FLAG], Stuff(b));
    RunOne(s, FLAG);
    var o := Run(s, [FLAG]).0;
    assert !o.esc by {
      if s.esc { DataKeepsEsc(s.(esc := false), FLAG ^ 0x20); }
    }
    Unstuff(o, b);
    RunOne(RunData(o, b).0, FLAG);
  }

  // From any state at all: the second of two well-formed frames is delivered
  // intact, and so is the first unless an escape was pending when it began.
  lemma Resynchronises(s: Link, m1: Msg, m2: Msg)
    requires |m2.payload| <= MAX_PAYLOAD
    ensures Run(s, Wire(m1) + Wire(m2)).1 ==
            Run(s, Wire(m1)).1 + [Frame(m2, Run(s, Wire(m1)).0.haveLast && Run(s, Wire(m1)).0.lastSeq == m2.seqno)]
    ensures !s.esc && |m1.payload| <= MAX_PAYLOAD ==>
              Run(s, Wire(m1)).1 == [Frame(m1, s.haveLast && s.lastSeq == m1.seqno)]
  {
    hide Wire;
    RunAppend(s, Wire(m1), Wire(m2));
    OneFrameClears(s, m1);
    GoodFrame(Run(s, Wire(m1)).0, m2);
    if !s.esc && |m1.payload| <= MAX_PAYLOAD { GoodFrame(s, m1); }
  }

  // ------------------------------------------------------ a pending escape --

  // A flag starts a new frame exactly when no escape is pending, in every state.
  lemma FlagOpensIff(s: Link)
    ensures var t := Step(s, FLAG).0;
            t.inFrame && t.body == [] && !t.esc <==> !s.esc
  {
    hide Data;
    if s.esc { EscapedFlag(s.(esc := false)); }
  }

  // The byte an escaped flag stands for never leaves a new, empty body behind.
  lemma EscapedFlag(s: Link)
    ensures var t := Answer(Data(s, FLAG ^ 0x20)).0; !(t.inFrame && t.body == [])
  {
    hide Wire, Handle, CrcOf, Join;
    var (t, f) := Data(s, FLAG ^ 0x20);
    if f.Some? { HandleKeeps(t, f.value); }
  }

  lemma HandleKeeps(s: Link, f: Frame)
    ensures Handle(s, f).inFrame == s.inFrame && Handle(s, f).body == s.body
  {
    hide Wire;
  }

  // With an escape pending the opening flag becomes one more data byte, and the frame
  // is judged as the tail of whatever was being collected.
  lemma EscapedFrame(s: Link, b: seq<octet>)
    requires s.esc
    ensures var (t, fs) := RunData(s.(esc := false), [FLAG ^ 0x20] + b);
            Run(s, Framed(b)) == (Open(t), fs)
  {
    hide Data, Stuff;
    var o := s.(esc := false);
    RunAppend(s, [FLAG] + Stuff(b), [FLAG]);
    RunAppend(s, [FLAG], Stuff(b));
    RunOne(s, FLAG);
    DataKeepsEsc(o, FLAG ^ 0x20);
    DataOne(o, FLAG ^ 0x20);
    DataAppend(o, [FLAG ^ 0x20], b);
    var e := RunData(o, [FLAG ^ 0x20]).0;
    Unstuff(e, b);
    var t := RunData(e, b).0;
    RunOne(t, FLAG);
    Empty(RunData(o, [FLAG ^ 0x20] + b).1);
  }

  // The bytes collected, the escaped flag and the new body begin with that very body.
  predicate Coincides(s: Link, m: Msg) {
    s.body != [] && Body(m) <= s.body + [FLAG ^ 0x20] + Body(m)
  }

  // In every reachable state the next frame is delivered exactly when no escape is
  // pending, or the bytes half collected happen to make it up again.
  lemma FrameArrivesIff(s: Link, m: Msg)
    requires Inv(s) && |m.payload| <= MAX_PAYLOAD
    ensures Run(s, Wire(m)).1 == [Frame(m, s.haveLast && s.lastSeq == m.seqno)] <==> !s.esc || Coincides(s, m)
  {
    hide Run, Wire, Framed, Body, RunData;
    if s.esc {
      WireIs(m);
      EscapedFrame(s, Body(m));
      EscapedDelivery(s.(esc := false), m);
    } else {
      GoodFrame(s, m);
    }
  }

  lemma EscapedDelivery(s: Link, m: Msg)
    requires Inv(s) && |m.payload| <= MAX_PAYLOAD
    ensures RunData(s, [FLAG ^ 0x20] + Body(m)).1 == [Frame(m, s.haveLast && s.lastSeq == m.seqno)] <==>
            Coincides(s, m)
  {
    hide RunData, Body, Accepts;
    var y := [FLAG ^ 0x20] + Body(m);
    if s.body == [] {
      if s.inFrame { CollectedOutcome(s, y); } else { IdleIgnores(s, y); }
      assert y[0] == FLAG ^ 0x20;
    } else {
      TailOutcome(s, y);
      Assoc(s.body, [FLAG ^ 0x20], Body(m));
      SameMessage(s.body + y, m);
    }
  }

  // Such a coincidence, reached from reset: the bytes left over from a broken
  // transmission, the escaped flag and the first byte of the new frame make up the very
  // message it carries.
  const LEFT_OVER: seq<octet> := [0x7E, 0x00, 0x76, 0x03, 0x7D]

  function Collecting(): Link {
    FRESH.(inFrame := true, body := [0x00, 0x76, 0x03], esc := true)
  }

  lemma LeftOverState()
    ensures Run(FRESH, LEFT_OVER) == (Collecting(), [])
  {
    hide Data, RunData;
    var a := FRESH.(inFrame := true);
    var b: seq<octet> := [0x00, 0x76, 0x03];
    assert LEFT_OVER == [0x7E] + b + [0x7D];
    RunAppend(FRESH, [0x7E] + b, [0x7D]);
    RunAppend(FRESH, [0x7E], b);
    RunOne(FRESH, 0x7E);
    Unstuffed(b);
    Unstuff(a, b);
    PartOutcome(a, b);
    RunOne(a.(body := b), 0x7D);
  }

  lemma Unstuffed(b: seq<octet>)
    requires b == [0x00, 0x76, 0x03]
    ensures Stuff(b) == b
  {
    assert b[1..] == [0x76, 0x03] && b[2..] == [0x03] && b[1..][1..] == b[2..] && b[2..][1..] == [];
    assert Stuff(b[2..]) == [0x03];
    assert Stuff(b[1..]) == [0x76, 0x03];
  }

  lemma EscapeMayDeliver()
    ensures Run(FRESH, LEFT_OVER).0.esc
    ensures Run(Run(FRESH, LEFT_OVER).0, Wire(SHORT)).1 == [Frame(SHORT, false)]
  {
    hide Run, Wire, Body;
    LeftOverState();
    ShortBody();
    var x := Collecting().body + [FLAG ^ 0x20] + Body(SHORT);
    assert x == [0x00, 0x76, 0x03, 0x5E, 0x00, 0x76, 0x03, 0x5E, 0x00];
    assert Body(SHORT) == x[..5];
    FrameArrivesIff(Collecting(), SHORT);
  }
}
