// What the receiver makes of any bytes at all between two flags: exactly which are
// delivered, what the others cost, and a genuine frame one flipped bit away from another.
module FrameJudge {
  import opened Words
  import opened Seqs
  import opened Crc
  import opened FrameSpec
  import opened FrameLaws
  import opened FrameRuns

  // The message in a body that reaches its declared extent.
  function Carried(b: seq<octet>): Msg
    requires Whole(b)
  {
    Msg(b[1], b[2], b[3..3 + Value(b[0])])
  }

  predicate Genuine(b: seq<octet>) { Whole(b) && Accepts(Judged(b)) }

  // What is delivered of bytes collected from the start of a frame.
  function Delivery(s: Link, b: seq<octet>): seq<Frame> {
    if Genuine(b) then [Frame(Carried(b), s.haveLast && s.lastSeq == b[1])] else []
  }

  predicate BadLength(b: seq<octet>) { b != [] && Value(b[0]) > MAX_PAYLOAD }

  // The counters after collecting b, and what is left in the buffer.
  ghost predicate Outcome(s: Link, t: Link, b: seq<octet>) {
    && t.ok == (if Genuine(b) then Inc(s.ok) else s.ok)
    && t.badCrc == (if Whole(b) && !Genuine(b) then Inc(s.badCrc) else s.badCrc)
    && t.badLen == (if BadLength(b) then Inc(s.badLen) else s.badLen)
    && t.tx == (if Whole(b) || BadLength(b) then Inc(s.tx) else s.tx)
    && t.resync == s.resync && t.esc == s.esc
    && t.body == (if Whole(b) then [] else if BadLength(b) then b[..1] else b)
    && (t.body != [] ==> t.inFrame)
  }

  lemma CompleteJudges(s: Link, b: seq<octet>)
    requires Whole(b) && s.body == Judged(b)
    ensures Complete(s) ==
            if Genuine(b) then (Accept(s, Delivery(s, b)[0]), Some(Delivery(s, b)[0])) else (Reject(s), None)
  {
    hide CrcOf, Join, Accept, Reject;
    var (j, n) := (Judged(b), Value(b[0]));
    assert j[..|j| - 2] == j[..n + 3] && j[3..3 + n] == b[3..3 + n];
    assert j[0] == b[0] && j[1] == b[1] && j[2] == b[2];
  }

  lemma WholeOutcome(s: Link, b: seq<octet>)
    requires s.inFrame && s.body == [] && Whole(b)
    ensures RunData(s, b).1 == Delivery(s, b) && Outcome(s, RunData(s, b).0, b)
  {
    hide RunData, Complete, Wire, Handle, Accepts;
    WholeBody(s, b);
    var u := s.(body := Judged(b));
    CompleteJudges(u, b);
    if Genuine(b) {
      var f := Delivery(s, b)[0];
      assert Delivery(u, b) == Delivery(s, b);
      HandleSends(Accept(u, f), f);
    }
  }

  // Bytes that stop short of their extent are the front of some proper body.
  lemma PartOutcome(s: Link, b: seq<octet>)
    requires s.inFrame && s.body == [] && !BadLength(b) && !Whole(b)
    ensures RunData(s, b) == (s.(body := b), [])
  {
    hide RunData;
    if b == [] {
      NoData(s);
    } else {
      var n := Value(b[0]) + 5;
      var c := b + Repeat<octet>(0, n - |b|);
      assert c[0] == b[0] && c[..|b|] == b;
      Collect(s, c, |b|);
    }
  }

  lemma LengthRefused(s: Link, c: octet)
    requires s.inFrame && s.body == [] && Value(c) > MAX_PAYLOAD
    ensures var t := s.(body := [c], badLen := Inc(s.badLen));
            Data(s, c) == (Nak(t, 0), None)
  {
    hide Nak, Complete;
    assert s.body + [c] == [c];
  }

  lemma {:induction false} SwallowIgnores(s: Link, b: seq<octet>)
    requires s.inFrame && |s.body| == 1 && Value(s.body[0]) > MAX_PAYLOAD
    ensures RunData(s, b) == (s, [])
    decreases |b|
  {
    hide Complete, Nak;
    if b != [] {
      SwallowIgnores(s, b[1..]);
      assert Data(s, b[0]) == (s, None);
      Empty<Frame>([]);
    }
  }

  lemma BadLengthOutcome(s: Link, b: seq<octet>)
    requires s.inFrame && s.body == [] && BadLength(b)
    ensures RunData(s, b).1 == [] && Outcome(s, RunData(s, b).0, b)
  {
    hide RunData, Data, Wire;
    assert b == [b[0]] + b[1..] && b[..1] == [b[0]];
    DataAppend(s, [b[0]], b[1..]);
    DataOne(s, b[0]);
    LengthRefused(s, b[0]);
    SwallowIgnores(RunData(s, [b[0]]).0, b[1..]);
  }

  // Any bytes collected from the start of a frame.
  lemma CollectedOutcome(s: Link, b: seq<octet>)
    requires s.inFrame && s.body == []
    ensures RunData(s, b).1 == Delivery(s, b) && Outcome(s, RunData(s, b).0, b)
  {
    hide RunData, Accepts;
    if Whole(b) { WholeOutcome(s, b); }
    else if BadLength(b) { BadLengthOutcome(s, b); }
    else { PartOutcome(s, b); }
  }

  // Any bytes collected on top of those already there: judged together.
  lemma TailOutcome(s: Link, y: seq<octet>)
    requires Inv(s) && s.body != []
    ensures RunData(s, y).1 == Delivery(s, s.body + y)
  {
    hide RunData, Accepts;
    if BadLength(s.body) {
      SwallowIgnores(s, y);
      assert (s.body + y)[0] == s.body[0];
    } else {
      var o := s.(body := []);
      PartOutcome(o, s.body);
      DataAppend(o, s.body, y);
      CollectedOutcome(o, s.body + y);
    }
  }

  // For every byte string between two flags, in every state without a pending escape:
  // what is delivered and what the counters say.
  lemma FramedOutcome(s: Link, b: seq<octet>)
    requires !s.esc
    ensures var (t, fs) := Run(s, Framed(b));
            && fs == Delivery(s, b) && !t.esc && t.inFrame && t.body == []
            && t.ok == (if Genuine(b) then Inc(s.ok) else s.ok)
            && t.badCrc == (if Whole(b) && !Genuine(b) then Inc(s.badCrc) else s.badCrc)
            && t.badLen == (if BadLength(b) then Inc(s.badLen) else s.badLen)
            && t.tx == (if Whole(b) || BadLength(b) then Inc(s.tx) else s.tx)
            && t.resync == (if b == [] || Whole(b) then Open(s).resync else Inc(Open(s).resync))
  {
    hide Run, RunData, Framed, Accepts;
    FramedRun(s, b);
    CollectedOutcome(Open(s), b);
  }

  // Something is delivered exactly when the bytes reach the extent their length byte
  // declares, at most 32 payload bytes, and the check bytes there are right.
  lemma DeliveredIff(s: Link, b: seq<octet>)
    requires !s.esc
    ensures Run(s, Framed(b)).1 != [] <==>
            b != [] && Value(b[0]) <= 32 && |b| >= Value(b[0]) + 5 && Accepts(b[..Value(b[0]) + 5])
  {
    hide Run, Framed, Accepts;
    FramedOutcome(s, b);
  }

  // ------------------------------------------------------ which message --

  lemma LengthByte(m: Msg)
    requires |m.payload| <= MAX_PAYLOAD
    ensures |Body(m)| == |m.payload| + 5 && Value(Body(m)[0]) == |m.payload|
  {
    OctetValue(|m.payload|);
  }

  // Bytes carry a message, with the right check bytes, exactly when they begin with
  // its body.
  lemma SameMessage(x: seq<octet>, m: Msg)
    requires |m.payload| <= MAX_PAYLOAD
    ensures Genuine(x) && Carried(x) == m <==> Body(m) <= x
  {
    hide Body, Whole, Accepts, Carried, Judged;
    if Genuine(x) && Carried(x) == m { SameBody(x, m); }
    if Body(m) <= x { StartsWith(x, m); }
  }

  lemma StartsWith(x: seq<octet>, m: Msg)
    requires |m.payload| <= MAX_PAYLOAD && Body(m) <= x
    ensures Genuine(x) && Carried(x) == m
  {
    BodyIsProper(m);
    LengthByte(m);
    hide Body, Accepts;
    var b := Body(m);
    assert x[..|b|] == b;
    assert x[0] == b[0] && x[1] == b[1] && x[2] == b[2] && x[3..3 + |m.payload|] == b[3..3 + |m.payload|];
  }

  lemma SameBody(x: seq<octet>, m: Msg)
    requires |m.payload| <= MAX_PAYLOAD && Genuine(x) && Carried(x) == m
    ensures Body(m) <= x
  {
    var (j, n) := (Judged(x), Value(x[0]));
    HeadIs(x, m);
    assert j[..|j| - 2] == j[..n + 3];
    JoinSplit(CrcOf(Head(m)), j[n + 3], j[n + 4]);
    hide CrcOf, Join, Hi, Lo, Head;
    assert j == j[..n + 3] + [j[n + 3], j[n + 4]];
    assert j == Body(m);
  }

  lemma ByteOfLength(b: octet)
    ensures Octet(Value(b)) == b
  {
    assert b as int < 0x100;
    ByteBack(b);
    assert Value(b) % 0x100 == b as int;
  }

  lemma ByteBack(b: octet)
    ensures (b as int) as bv8 == b
  {
  }

  lemma HeadIs(x: seq<octet>, m: Msg)
    requires Whole(x) && Carried(x) == m
    ensures Judged(x)[..Value(x[0]) + 3] == Head(m)
  {
    var n := Value(x[0]);
    ByteOfLength(x[0]);
    hide Octet, Value;
    assert m.payload == x[3..3 + n] && |m.payload| == n;
    assert x[..n + 3] == [x[0], x[1], x[2]] + x[3..3 + n];
    assert Judged(x)[..n + 3] == x[..n + 3];
  }

  lemma JoinSplit(c: bv16, h: octet, l: octet)
    ensures c == Join(h, l) ==> h == Hi(c) && l == Lo(c)
  {
  }

  // ------------------------------------------------------ the length byte --

  // A frame whose body holds a shorter genuine one: with a single bit of its length
  // byte flipped, that one is delivered in its place.
  const LONG: Msg := Msg(0x76, 0x03, [0x5E, 0x00])
  const SHORT: Msg := Msg(0x76, 0x03, [])

  function Flipped(): seq<octet> { [0x00] + Body(LONG)[1..] }

  lemma ShortCrc()
    ensures CrcByte(0xFFFF, 0x00) == 0xE1F0 && CrcByte(0xE1F0, 0x76) == 0x035E && CrcByte(0x035E, 0x03) == 0x5E00
  {
  }

  lemma ShortBody()
    ensures Body(SHORT) == [0x00, 0x76, 0x03, 0x5E, 0x00]
  {
    ShortCrc();
    hide CrcByte;
    ThreeBytes(0xFFFF, [0x00, 0x76, 0x03]);
    assert Head(SHORT) == [0x00, 0x76, 0x03];
  }

  lemma LongBody()
    ensures |Body(LONG)| == 7 && Body(LONG)[..5] == [0x02, 0x76, 0x03, 0x5E, 0x00]
  {
    hide CrcOf, Hi, Lo;
    assert Head(LONG) == [0x02, 0x76, 0x03, 0x5E, 0x00];
  }

  lemma FlippedBitDelivers()
    ensures |Flipped()| == |Body(LONG)| && Flipped()[1..] == Body(LONG)[1..]
    ensures Body(LONG)[0] == 0x02 && Flipped()[0] == 0x00
    ensures Run(FRESH, Framed(Flipped())).1 == [Frame(SHORT, false)]
  {
    FlippedIs();
    hide Run, Framed, Body, Flipped, Accepts, Genuine, Carried;
    var b := Flipped();
    SameMessage(b, SHORT);
    assert b[1] == b[..5][1];
    FramedOutcome(FRESH, b);
  }

  lemma FlippedIs()
    ensures |Flipped()| == |Body(LONG)| == 7 && Flipped()[1..] == Body(LONG)[1..]
    ensures Body(LONG)[0] == 0x02 && Flipped()[0] == 0x00
    ensures Body(SHORT) <= Flipped()
  {
    ShortBody();
    LongBody();
    hide Body;
    var (b, l) := (Flipped(), Body(LONG));
    assert l[..5][1..] == [0x76, 0x03, 0x5E, 0x00];
    assert b[..5] == [0x00] + l[..5][1..];
    assert l[0] == l[..5][0];
    assert b[..5] == Body(SHORT);
  }
}
