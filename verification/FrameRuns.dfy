// Whole runs of the link: what the collecting buffer can hold, what the counters
// add up to, and that it does not matter how the bytes are cut into polls.
module FrameRuns {
  import opened Words
  import opened Seqs
  import opened Crc
  import opened FrameSpec
  import opened FrameLaws

  // ------------------------------------------------------ the buffer --

  // A body under collection is always short of complete; one with an impossible
  // length stops at its first byte.
  ghost predicate Inv(s: Link) {
    s.body != [] ==>
      && s.inFrame
      && if Value(s.body[0]) > MAX_PAYLOAD then |s.body| == 1 else |s.body| < Value(s.body[0]) + 5
  }

  // Answering a frame only sends one.
  lemma HandleSends(s: Link, f: Frame)
    ensures Handle(s, f) == s.(tx := Inc(s.tx), wire := Handle(s, f).wire)
  {
    hide Wire;
  }

  lemma CompleteInv(s: Link)
    requires s.inFrame && s.body != []
    requires if Value(s.body[0]) > MAX_PAYLOAD then |s.body| == 1 else |s.body| <= Value(s.body[0]) + 5
    ensures Inv(Complete(s).0)
  {
    hide Wire, CrcOf, Join, Delivered;
  }

  lemma DataInv(s: Link, c: octet)
    requires Inv(s)
    ensures Inv(Answer(Data(s, c)).0)
  {
    hide Wire, CrcOf, Complete, Handle;
    var t := s.(body := s.body + [c]);
    if s.inFrame && !(|s.body| == 1 && Value(s.body[0]) > MAX_PAYLOAD) {
      if s.body != [] { assert t.body[0] == s.body[0]; }
      if !(|t.body| == 1 && Value(c) > MAX_PAYLOAD) { CompleteInv(t); }
    }
    var (u, f) := Data(s, c);
    if f.Some? { HandleSends(u, f.value); }
  }

  lemma StepInv(s: Link, c: octet)
    requires Inv(s)
    ensures Inv(Step(s, c).0)
  {
    hide Data, Answer;
    if s.esc { DataInv(s.(esc := false), c ^ 0x20); } else { DataInv(s, c); }
    StepCases(s, c);
  }

  lemma StepCases(s: Link, c: octet)
    ensures s.esc ==> Step(s, c) == Answer(Data(s.(esc := false), c ^ 0x20))
    ensures !s.esc && c == FLAG ==> Step(s, c) == (Open(s), [])
    ensures !s.esc && c == ESC ==> Step(s, c) == (s.(esc := true), [])
    ensures !s.esc && c != FLAG && c != ESC ==> Step(s, c) == Answer(Data(s, c))
  {
    hide Data;
  }

  lemma {:induction false} RunInv(s: Link, q: seq<octet>)
    requires Inv(s)
    ensures Inv(Run(s, q).0)
    decreases |q|
  {
    hide Step;
    if q != [] {
      StepInv(s, q[0]);
      RunInv(Step(s, q[0]).0, q[1..]);
    }
  }

  // So the over-length branch of the receiver is never taken, and a body that is
  // judged always fits its length byte exactly.
  lemma GuardUnreachable(s: Link)
    requires Inv(s)
    ensures |s.body| < BODY_MAX
    ensures forall c :: s.inFrame && !(|s.body| == 1 && Value(s.body[0]) > MAX_PAYLOAD)
                        && |s.body + [c]| >= 2 && Value((s.body + [c])[0]) + 5 <= |s.body + [c]|
                        ==> Proper(s.body + [c])
  {
    forall c: octet | s.inFrame && !(|s.body| == 1 && Value(s.body[0]) > MAX_PAYLOAD)
                      && |s.body + [c]| >= 2 && Value((s.body + [c])[0]) + 5 <= |s.body + [c]|
      ensures Proper(s.body + [c])
    {
      assert (s.body + [c])[0] == s.body[0];
    }
  }

  // ------------------------------------------------------ accounting --

  // 1 when this byte starts a new body.
  function Begins(s: Link, c: octet): nat {
    if s.body == [] && Step(s, c).0.body != [] then 1 else 0
  }

  function Begun(s: Link, q: seq<octet>): nat
    decreases |q|
  {
    if q == [] then 0 else Begins(s, q[0]) + Begun(Step(s, q[0]).0, q[1..])
  }

  // Bodies accounted for, on 32-bit counters: delivered, rejected, cut short, or
  // still open.
  function Accounted(s: Link): int {
    (Sum(s.ok, s.badCrc, s.resync) + (if s.body != [] then 1 else 0)) % TWO32
  }

  // Three counters added up on 32 bits.
  function Sum(a: word, b: word, c: word): word { (a + b + c) % TWO32 }

  function Replies(s: Link): int { Sum(s.ok, s.badCrc, s.badLen) }

  // What one data byte may do to the counters.
  ghost predicate Moves(s: Link, t: Link) {
    && t.resync == s.resync
    && ( || (Counts(t, s.ok, s.badCrc, s.badLen, s.tx) && (s.body != [] ==> t.body != []))
         || (Counts(t, s.ok, s.badCrc, Inc(s.badLen), Inc(s.tx)) && s.body == [] && t.body != [])
         || (Counts(t, Inc(s.ok), s.badCrc, s.badLen, Inc(s.tx)) && s.body != [] && t.body == [])
         || (Counts(t, s.ok, Inc(s.badCrc), s.badLen, Inc(s.tx)) && s.body != [] && t.body == []))
  }

  predicate Counts(t: Link, ok: word, badCrc: word, badLen: word, tx: word) {
    t.ok == ok && t.badCrc == badCrc && t.badLen == badLen && t.tx == tx
  }

  lemma GrownMoves(s: Link, c: octet)
    requires s.inFrame && |s.body| < BODY_MAX && !(|s.body| == 1 && Value(s.body[0]) > MAX_PAYLOAD)
    ensures Moves(s, Answer(Grown(s.(body := s.body + [c]), c)).0)
  {
    hide Wire, CrcOf, Handle, Delivered, Join;
    var (u, f) := Grown(s.(body := s.body + [c]), c);
    if f.Some? { HandleSends(u, f.value); }
  }

  lemma DataMoves(s: Link, c: octet)
    requires Inv(s)
    ensures Moves(s, Answer(Data(s, c)).0)
  {
    hide Wire, Grown, Handle;
    GuardUnreachable(s);
    if s.inFrame && !(|s.body| == 1 && Value(s.body[0]) > MAX_PAYLOAD) { GrownMoves(s, c); }
  }

  // A flag closes whatever body was open.
  ghost predicate Closes(s: Link, t: Link) {
    && t.resync == (if s.body != [] then Inc(s.resync) else s.resync) && t.body == []
    && t.ok == s.ok && t.badCrc == s.badCrc && t.badLen == s.badLen && t.tx == s.tx
  }

  lemma SumFirst(a: word, b: word, c: word)
    ensures Sum(Inc(a), b, c) == Inc(Sum(a, b, c))
  {
    ModAdd(a + b + c, 1);
    ModAdd(a + 1, b + c);
  }

  lemma SumSwap(a: word, b: word, c: word)
    ensures Sum(a, b, c) == Sum(b, a, c) == Sum(c, a, b)
  {
  }

  lemma SumBump(a: word, b: word, c: word)
    ensures Sum(Inc(a), b, c) == Inc(Sum(a, b, c))
    ensures Sum(a, Inc(b), c) == Inc(Sum(a, b, c))
    ensures Sum(a, b, Inc(c)) == Inc(Sum(a, b, c))
  {
    hide *;
    SumFirst(a, b, c);
    SumFirst(b, a, c);
    SumFirst(c, a, b);
    SumSwap(a, b, c);
    SumSwap(a, Inc(b), c);
    SumSwap(a, b, Inc(c));
  }

  lemma AccountedAfter(s: Link, t: Link, begins: nat)
    requires begins == if s.body == [] && t.body != [] then 1 else 0
    requires Moves(s, t) || Closes(s, t)
    ensures Accounted(t) == (Accounted(s) + begins) % TWO32
  {
    hide Inc, Sum;
    SumBump(s.ok, s.badCrc, s.resync);
    IncIs(Sum(s.ok, s.badCrc, s.resync));
  }

  lemma IncIs(a: word)
    ensures Inc(a) == (a + 1) % TWO32 && a % TWO32 == a
  {
  }

  lemma RepliesAfter(s: Link, t: Link)
    requires (Moves(s, t) || Closes(s, t)) && s.tx == Replies(s)
    ensures t.tx == Replies(t)
  {
    hide Inc, Sum;
    SumBump(s.ok, s.badCrc, s.badLen);
  }

  lemma StepAccounts(s: Link, c: octet)
    requires Inv(s)
    ensures Accounted(Step(s, c).0) == (Accounted(s) + Begins(s, c)) % TWO32
    ensures s.tx == Replies(s) ==> Step(s, c).0.tx == Replies(Step(s, c).0)
  {
    hide Data, Answer, Step, Accounted, Replies;
    StepCases(s, c);
    if s.esc {
      DataMoves(s.(esc := false), c ^ 0x20);
    } else {
      DataMoves(s, c);
    }
    var t := Step(s, c).0;
    assert Moves(s, t) || Closes(s, t);
    AccountedAfter(s, t, Begins(s, c));
    if s.tx == Replies(s) { RepliesAfter(s, t); }
  }

  // Over any run, every body begun was delivered, rejected by its CRC, cut short by
  // a flag, or is still open; and every frame sent answers a delivery, a CRC
  // failure or an impossible length. (Counters are 32-bit, so modulo 2^32.)
  lemma {:induction false} RunAccounts(s: Link, q: seq<octet>)
    requires Inv(s)
    ensures Accounted(Run(s, q).0) == (Accounted(s) + Begun(s, q)) % TWO32
    ensures s.tx == Replies(s) ==> Run(s, q).0.tx == Replies(Run(s, q).0)
    decreases |q|
  {
    hide Step, Replies;
    if q == [] {
      ModAdd(s.ok + s.badCrc + s.resync + (if s.body != [] then 1 else 0), 0);
    } else {
      hide Accounted;
      var t := Step(s, q[0]).0;
      StepInv(s, q[0]);
      StepAccounts(s, q[0]);
      RunAccounts(t, q[1..]);
      ModAdd(Accounted(s) + Begins(s, q[0]), Begun(t, q[1..]));
    }
  }

  // ------------------------------------------------------ polling --

  lemma {:induction false} PollIsRun(s: Link, q: seq<octet>)
    ensures var (t, rest, f) := Poll(s, q);
            var (u, fs) := Answer((t, f));
            && |rest| <= |q| && (f.None? ==> rest == [])
            && Run(s, q).0 == Run(u, rest).0
            && Run(s, q).1 == fs + Run(u, rest).1
    decreases |q|
  {
    hide Feed, Handle;
    if q != [] {
      var (t, f) := Feed(s, q[0]);
      if f.None? {
        PollIsRun(t, q[1..]);
        Empty(Run(t, q[1..]).1);
      }
    } else {
      Empty(Run(s, q).1);
    }
  }

  // The application loop while input trickles in: each round some bytes arrive,
  // one poll is made, and a delivered frame is answered. Gives the final state,
  // the bytes not yet looked at, and the frames delivered.
  function Serve(s: Link, pending: seq<octet>, chunks: seq<seq<octet>>): (Link, seq<octet>, seq<Frame>)
    decreases |chunks|
  {
    if chunks == [] then (s, pending, [])
    else
      var (t, rest, f) := Poll(s, pending + chunks[0]);
      var (u, fs) := Answer((t, f));
      var (v, left, gs) := Serve(u, rest, chunks[1..]);
      (v, left, fs + gs)
  }

  // However the stream is cut into polls, nothing is lost, repeated or reordered:
  // the frames delivered, followed by those still in the unread bytes, are the
  // frames of the whole stream.
  lemma {:induction false} ChunkingDoesNotMatter(s: Link, pending: seq<octet>, chunks: seq<seq<octet>>)
    ensures var (v, left, fs) := Serve(s, pending, chunks);
            && Run(s, pending + Flat(chunks)).0 == Run(v, left).0
            && Run(s, pending + Flat(chunks)).1 == fs + Run(v, left).1
    decreases |chunks|
  {
    hide Poll, Answer;
    if chunks == [] {
      assert pending + [] == pending;
      Empty(Run(s, pending).1);
    } else {
      var q := pending + chunks[0];
      Assoc(pending, chunks[0], Flat(chunks[1..]));
      var (t, rest, f) := Poll(s, q);
      var (u, fs) := Answer((t, f));
      PollIsRun(s, q);
      RunAppend(s, q, Flat(chunks[1..]));
      RunAppend(u, rest, Flat(chunks[1..]));
      ChunkingDoesNotMatter(u, rest, chunks[1..]);
      var (v, left, gs) := Serve(u, rest, chunks[1..]);
      Assoc(fs, Run(u, rest).1, Run(Run(u, rest).0, Flat(chunks[1..])).1);
      Assoc(fs, gs, Run(v, left).1);
    }
  }

  // Any list of messages sent back to back arrives as sent, under any cutting of
  // the wire bytes into polls that reads them all.
  lemma SentIsReceived(ms: seq<Msg>, chunks: seq<seq<octet>>)
    requires forall i :: 0 <= i < |ms| ==> |ms[i].payload| <= MAX_PAYLOAD
    requires Flat(chunks) == Wires(ms)
    ensures var (v, left, fs) := Serve(FRESH, [], chunks);
            left == [] ==>
              && fs == Marked(ms, false, 0)
              && v.ok == |ms| % TWO32 && v.badCrc == 0 && v.badLen == 0 && v.resync == 0
  {
    hide Wires, Serve, Flat;
    ChunkingDoesNotMatter(FRESH, [], chunks);
    assert [] + Flat(chunks) == Wires(ms);
    EveryFrameArrives(FRESH, ms);
    var (v, left, fs) := Serve(FRESH, [], chunks);
    if left == [] { Empty(fs); }
  }

  // ------------------------------------------------------ both ends --

  // The reply to a message the server takes in state s: repeated for a duplicate or
  // an echo request, the counters for a statistics request, a NAK for anything else.
  function ReplyTo(s: Link, m: Msg): Msg {
    if (s.haveLast && s.lastSeq == m.seqno) || m.cmd == CMD_ECHO then m
    else if m.cmd == CMD_STATS then
      Msg(m.seqno, CMD_STATS, [Octet(Inc(s.ok)), Octet(s.badCrc), Octet(s.badLen), Octet(Cut(s)), Octet(s.dup)])
    else Msg(m.seqno, 0x00, [0xFF])
  }

  // The resync counter once a flag has arrived.
  function Cut(s: Link): word { if s.inFrame && s.body != [] then Inc(s.resync) else s.resync }

  lemma ServerReplies(s: Link, m: Msg)
    requires !s.esc && |m.payload| <= MAX_PAYLOAD
    ensures Run(s, Wire(m)).0.wire == s.wire + Wire(ReplyTo(s, m))
  {
    hide Body, Wire, Framed, Complete, Octet;
    BodyIsProper(m);
    WireIs(m);
    ProperIsWhole(Body(m));
    FramedBody(s, Body(m));
    CompleteGood(Open(s).(body := Body(m)), m);
  }

  // A request goes out, exactly one reply comes back, and the client at the other
  // end, in any state without a pending escape, receives it intact.
  lemma RequestIsAnswered(server: Link, client: Link, m: Msg)
    requires !server.esc && !client.esc && |m.payload| <= MAX_PAYLOAD
    ensures var (t, reply) := (Run(server, Wire(m)).0, ReplyTo(server, m));
            && t.wire == server.wire + Wire(reply) && reply.seqno == m.seqno
            && Run(client, Wire(reply)).1 == [Frame(reply, client.haveLast && client.lastSeq == m.seqno)]
  {
    hide Run, Wire, Octet;
    ServerReplies(server, m);
    GoodFrame(client, ReplyTo(server, m));
  }

  // A new command, by its number: 1 is sent back as it came, 2 is answered with the
  // low bytes of the five counters as they stand afterwards, any other with a NAK.
  lemma CommandsAnswered(s: Link, m: Msg)
    requires !s.esc && |m.payload| <= MAX_PAYLOAD && !(s.haveLast && s.lastSeq == m.seqno)
    ensures var t := Run(s, Wire(m)).0;
            t.wire == s.wire + Wire(
                        if m.cmd == 1 then m
                        else if m.cmd == 2 then
                          Msg(m.seqno, 2,
                              [Octet(t.ok), Octet(t.badCrc), Octet(t.badLen), Octet(t.resync), Octet(t.dup)])
                        else Msg(m.seqno, 0, [0xFF]))
  {
    hide Run, Wire, Octet;
    GoodFrame(s, m);
    ServerReplies(s, m);
  }

  // So is the NAK for any body, whatever its length byte, whose check bytes turned out
  // wrong.
  lemma DamageIsReported(server: Link, client: Link, b: seq<octet>)
    requires !server.esc && !client.esc && Whole(b) && !Accepts(Judged(b))
    ensures var (t, nak) := (Run(server, Framed(b)).0, Msg(b[1], 0x00, [0xFF]));
            && t.wire == server.wire + Wire(nak)
            && Run(client, Wire(nak)).1 == [Frame(nak, client.haveLast && client.lastSeq == b[1])]
  {
    hide Run, Wire, Framed, Accepts;
    BadBody(server, b);
    GoodFrame(client, Msg(b[1], 0x00, [0xFF]));
  }
}
