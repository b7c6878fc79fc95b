// The frames that go out while bytes come in: the receiver's own NAKs and the
// application's replies, against the counters and the bytes on the wire.
module FrameSent {
  import opened Words
  import opened Seqs
  import opened Crc
  import opened FrameSpec
  import opened FrameLaws
  import opened FrameRuns

  datatype Sent = FromReceiver(msg: Msg) | FromApplication(msg: Msg)

  function NakMsg(seqno: octet): Msg { Msg(seqno, 0x00, [0xFF]) }

  // What the receiver itself sends when a body may be complete, and on a data byte.
  function CompleteSends(s: Link): seq<Sent> {
    if |s.body| < 1 || Value(s.body[0]) > MAX_PAYLOAD || |s.body| < Value(s.body[0]) + 5 then []
    else
      var n := Value(s.body[0]);
      if CrcOf(s.body[..n + 3]) != Join(s.body[n + 3], s.body[n + 4]) then [FromReceiver(NakMsg(s.body[1]))] else []
  }

  function DataSends(s: Link, c: octet): seq<Sent> {
    if !s.inFrame || (|s.body| == 1 && Value(s.body[0]) > MAX_PAYLOAD) then []
    else if |s.body| >= BODY_MAX then [FromReceiver(NakMsg(0))]
    else
      var t := s.(body := s.body + [c]);
      if |t.body| == 1 && Value(c) > MAX_PAYLOAD then [FromReceiver(NakMsg(0))] else CompleteSends(t)
  }

  // What the application sends for a delivered frame.
  function Reply(s: Link, f: Frame): Msg {
    var m := f.msg;
    if f.dup || m.cmd == CMD_ECHO then m
    else if m.cmd == CMD_STATS then Msg(m.seqno, CMD_STATS, Stats(s))
    else NakMsg(m.seqno)
  }

  function AnswerSends(r: (Link, Option<Frame>)): seq<Sent> {
    if r.1.Some? then [FromApplication(Reply(r.0, r.1.value))] else []
  }

  function StepSends(s: Link, c: octet): seq<Sent> {
    (if s.esc then DataSends(s.(esc := false), c ^ 0x20)
     else if c == FLAG || c == ESC then []
     else DataSends(s, c))
    + AnswerSends(Feed(s, c))
  }

  // Every frame sent during a run, in order.
  function RunSends(s: Link, q: seq<octet>): seq<Sent>
    decreases |q|
  {
    if q == [] then [] else StepSends(s, q[0]) + RunSends(Step(s, q[0]).0, q[1..])
  }

  function Msgs(t: seq<Sent>): seq<Msg> {
    if t == [] then [] else [t[0].msg] + Msgs(t[1..])
  }

  function Naks(t: seq<Sent>): nat {
    if t == [] then 0 else (if t[0].FromReceiver? then 1 else 0) + Naks(t[1..])
  }

  lemma {:induction false} SendsAppend(a: seq<Sent>, b: seq<Sent>)
    ensures Msgs(a + b) == Msgs(a) + Msgs(b) && Naks(a + b) == Naks(a) + Naks(b)
  {
    if a == [] {
      assert a + b == b;
      Empty(Msgs(b));
    } else {
      assert (a + b)[0] == a[0] && (a + b)[1..] == a[1..] + b;
      SendsAppend(a[1..], b);
      Assoc([a[0].msg], Msgs(a[1..]), Msgs(b));
    }
  }

  lemma {:induction false} WiresAppend(a: seq<Msg>, b: seq<Msg>)
    ensures Wires(a + b) == Wires(a) + Wires(b)
  {
    hide Wire;
    if a == [] {
      assert a + b == b;
      Empty(Wires(b));
    } else {
      assert (a + b)[0] == a[0] && (a + b)[1..] == a[1..] + b;
      WiresAppend(a[1..], b);
      Assoc(Wire(a[0]), Wires(a[1..]), Wires(b));
    }
  }

  // What going from s to t with the frames `out` sent does to wire and counters: the
  // receiver's frames are its CRC and length errors, the application's its deliveries.
  ghost predicate Balanced(s: Link, t: Link, out: seq<Sent>) {
    && t.wire == s.wire + Wires(Msgs(out))
    && t.tx == (s.tx + |out|) % TWO32
    && (t.badCrc + t.badLen) % TWO32 == (s.badCrc + s.badLen + Naks(out)) % TWO32
    && t.ok == (s.ok + |out| - Naks(out)) % TWO32
  }

  lemma NothingSent(s: Link, t: Link)
    requires t.wire == s.wire && t.tx == s.tx && t.badCrc == s.badCrc && t.badLen == s.badLen && t.ok == s.ok
    ensures Balanced(s, t, [])
  {
    Empty(s.wire);
  }

  lemma OneSent(x: Sent)
    ensures Wires(Msgs([x])) == Wire(x.msg) && Naks([x]) == if x.FromReceiver? then 1 else 0
  {
    hide Wire;
    assert [x][1..] == [] && [x.msg][1..] == [];
    assert Msgs([x]) == [x.msg] + [];
    Empty(Wire(x.msg));
  }

  lemma RejectBalanced(s: Link, n: octet)
    requires |s.body| >= 2 && n == s.body[1]
    ensures Balanced(s, Reject(s), [FromReceiver(NakMsg(n))])
  {
    hide Wire, Naks, Msgs, Wires;
    OneSent(FromReceiver(NakMsg(n)));
    ModAdd(s.badCrc + 1, s.badLen);
  }

  lemma BadLengthBalanced(s: Link, t: Link)
    requires t.wire == s.wire + Wire(NakMsg(0)) && t.tx == Inc(s.tx) && t.badLen == Inc(s.badLen)
    requires t.badCrc == s.badCrc && t.ok == s.ok
    ensures Balanced(s, t, [FromReceiver(NakMsg(0))])
  {
    hide Wire;
    OneSent(FromReceiver(NakMsg(0)));
    ModAdd(s.badLen + 1, s.badCrc);
  }

  lemma AcceptBalanced(s: Link, f: Frame)
    ensures var u := Accept(s, f); Balanced(s, Handle(u, f), [FromApplication(Reply(u, f))])
  {
    hide Wire, Stats;
    var u := Accept(s, f);
    HandleIsReply(u, f);
    OneSent(FromApplication(Reply(u, f)));
  }

  // The application answers a delivered frame with exactly one frame.
  lemma HandleIsReply(s: Link, f: Frame)
    ensures Handle(s, f) == Send(s, Reply(s, f))
  {
    hide Wire, Stats;
  }

  lemma CompleteBalanced(s: Link)
    ensures Balanced(s, Answer(Complete(s)).0, CompleteSends(s) + AnswerSends(Complete(s)))
  {
    hide Reject, Accept, Handle, Reply, CrcOf, Join, Delivered, Balanced;
    NothingSent(s, s);
    Empty(CompleteSends(s));
    Empty(AnswerSends(Complete(s)));
    if s.body != [] && Value(s.body[0]) <= MAX_PAYLOAD && |s.body| >= Value(s.body[0]) + 5 {
      var n := Value(s.body[0]);
      if CrcOf(s.body[..n + 3]) != Join(s.body[n + 3], s.body[n + 4]) {
        RejectBalanced(s, s.body[1]);
      } else {
        AcceptBalanced(s, Delivered(s, n));
      }
    }
  }

  lemma SameStart(s: Link, s2: Link, t: Link, out: seq<Sent>)
    requires Balanced(s, t, out)
    requires s2.wire == s.wire && s2.tx == s.tx && s2.badCrc == s.badCrc && s2.badLen == s.badLen && s2.ok == s.ok
    ensures Balanced(s2, t, out)
  {
  }

  lemma DataBalanced(s: Link, c: octet)
    ensures Balanced(s, Answer(Data(s, c)).0, DataSends(s, c) + AnswerSends(Data(s, c)))
  {
    hide Complete, CompleteSends, Wire, Handle, Reply, Balanced;
    var t := s.(body := s.body + [c]);
    NothingSent(s, s);
    Empty(DataSends(s, c));
    CompleteBalanced(t);
    SameStart(t, s, Answer(Complete(t)).0, CompleteSends(t) + AnswerSends(Complete(t)));
    if s.inFrame && !(|s.body| == 1 && Value(s.body[0]) > MAX_PAYLOAD)
       && (|s.body| >= BODY_MAX || (|t.body| == 1 && Value(c) > MAX_PAYLOAD)) {
      BadLengthBalanced(s, Data(s, c).0);
    }
  }

  lemma StepBalanced(s: Link, c: octet)
    ensures Balanced(s, Step(s, c).0, StepSends(s, c))
  {
    hide Data, DataSends, Balanced, Handle, Reply;
    if s.esc {
      DataBalanced(s.(esc := false), c ^ 0x20);
      SameStart(s.(esc := false), s, Step(s, c).0, StepSends(s, c));
    } else if c == FLAG || c == ESC {
      NothingSent(s, Step(s, c).0);
      Empty<Sent>([]);
    } else {
      DataBalanced(s, c);
    }
  }

  lemma BothBalanced(s: Link, t: Link, u: Link, a: seq<Sent>, b: seq<Sent>)
    requires Balanced(s, t, a) && Balanced(t, u, b)
    ensures Balanced(s, u, a + b)
  {
    hide Wires, Msgs, Naks;
    SendsAppend(a, b);
    WiresAppend(Msgs(a), Msgs(b));
    Assoc(s.wire, Wires(Msgs(a)), Wires(Msgs(b)));
    CountsAdd(s, t, u, |a|, |b|, Naks(a), Naks(b));
  }

  lemma CountsAdd(s: Link, t: Link, u: Link, a: int, b: int, x: int, y: int)
    requires t.tx == (s.tx + a) % TWO32 && u.tx == (t.tx + b) % TWO32
    requires (t.badCrc + t.badLen) % TWO32 == (s.badCrc + s.badLen + x) % TWO32
    requires (u.badCrc + u.badLen) % TWO32 == (t.badCrc + t.badLen + y) % TWO32
    requires t.ok == (s.ok + a - x) % TWO32 && u.ok == (t.ok + b - y) % TWO32
    ensures u.tx == (s.tx + (a + b)) % TWO32
    ensures (u.badCrc + u.badLen) % TWO32 == (s.badCrc + s.badLen + (x + y)) % TWO32
    ensures u.ok == (s.ok + (a + b) - (x + y)) % TWO32
  {
    ModAdd(s.tx + a, b);
    ModAdd(s.badCrc + s.badLen + x, y);
    ModAdd(t.badCrc + t.badLen, y);
    ModAdd(s.ok + a - x, b - y);
  }

  // Over any bytes: the wire carries exactly the frames sent, tx counts them all, the
  // receiver's NAKs are its CRC failures and impossible lengths, and the rest are one
  // reply for each frame delivered.
  lemma {:induction false} RunSendsBalance(s: Link, q: seq<octet>)
    ensures Balanced(s, Run(s, q).0, RunSends(s, q))
    ensures |RunSends(s, q)| - Naks(RunSends(s, q)) == |Run(s, q).1|
    decreases |q|
  {
    hide Step, StepSends, Balanced;
    if q == [] {
      NothingSent(s, s);
    } else {
      var t := Step(s, q[0]).0;
      StepBalanced(s, q[0]);
      StepReplies(s, q[0]);
      RunSendsBalance(t, q[1..]);
      BothBalanced(s, t, Run(t, q[1..]).0, StepSends(s, q[0]), RunSends(t, q[1..]));
      SendsAppend(StepSends(s, q[0]), RunSends(t, q[1..]));
    }
  }

  lemma StepReplies(s: Link, c: octet)
    ensures |StepSends(s, c)| - Naks(StepSends(s, c)) == |Step(s, c).1|
  {
    hide Feed, Handle, Reply, DataSends;
    var r := AnswerSends(Feed(s, c));
    if r != [] { OneSent(r[0]); }
    DataSendsNaks(s.(esc := false), c ^ 0x20);
    DataSendsNaks(s, c);
    SendsAppend(DataSends(s.(esc := false), c ^ 0x20), r);
    SendsAppend(DataSends(s, c), r);
    SendsAppend([], r);
  }

  lemma DataSendsNaks(s: Link, c: octet)
    ensures Naks(DataSends(s, c)) == |DataSends(s, c)|
    ensures forall x <- DataSends(s, c) :: x.FromReceiver? && x.msg == NakMsg(x.msg.seqno)
  {
    hide CrcOf, Join;
    if DataSends(s, c) != [] { OneSent(DataSends(s, c)[0]); }
  }

  // From reset, over any bytes: bodies begun = delivered + bad_crc + resync + 1 if one
  // is open; NAKs sent by the receiver = bad_crc + bad_len; one reply per delivery; and
  // these are all the frames on the wire, counted by tx.
  lemma EveryRunBalances(q: seq<octet>)
    ensures var (t, out) := (Run(FRESH, q).0, RunSends(FRESH, q));
            && (t.ok + t.badCrc + t.resync + (if t.body != [] then 1 else 0)) % TWO32 == Begun(FRESH, q) % TWO32
            && Naks(out) % TWO32 == (t.badCrc + t.badLen) % TWO32
            && |out| - Naks(out) == |Run(FRESH, q).1|
            && t.wire == Wires(Msgs(out)) && t.tx == |out| % TWO32
  {
    hide Run, RunSends, Wires, Msgs, Naks, Begun;
    RunAccounts(FRESH, q);
    RunSendsBalance(FRESH, q);
    Empty(Wires(Msgs(RunSends(FRESH, q))));
    var t := Run(FRESH, q).0;
    ModAdd(t.ok + t.badCrc + t.resync, if t.body != [] then 1 else 0);
  }
}
