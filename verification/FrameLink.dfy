// The link as it runs: a fixed body buffer and static counters updated byte by
// byte, a transmitter that stuffs as it goes, and the application loop.
module FrameLink {
  import opened Words
  import opened Seqs
  import opened CrcBits
  import opened Crc
  import opened FrameSpec
  import opened FrameRuns

  // ------------------------------------------------------ the CRC loops --

  lemma CrcSnoc(c: bv16, p: seq<octet>, i: nat)
    requires i < |p|
    ensures CrcFrom(c, p[..i + 1]) == CrcByte(CrcFrom(c, p[..i]), p[i])
  {
    hide CrcByte;
    assert p[..i + 1] == p[..i] + [p[i]];
    CrcAppend(c, p[..i], [p[i]]);
    assert [p[i]][1..] == [];
  }

  // Run the register over the bytes of p: the loop frame.c writes out three times.
  method CrcOver(start: bv16, p: seq<octet>) returns (crc: bv16)
    ensures crc == CrcFrom(start, p)
  {
    hide Shift, CrcByte, High, Xor;
    crc := start;
    assert p[..0] == [];
    for i := 0 to |p|
      invariant crc == CrcFrom(start, p[..i])
    {
      CrcSnoc(start, p, i);
      crc := Xor(crc, High(p[i]));
      ghost var c := crc;
      for b := 0 to 8
        invariant crc == Shifts(c, b)
      {
        crc := Shift(crc);
      }
      CrcByteIs(CrcFrom(start, p[..i]), p[i]);
    }
    assert p[..|p|] == p;
  }

  lemma StuffSnoc(p: seq<octet>, i: nat)
    requires i < |p|
    ensures Stuff(p[..i + 1]) == Stuff(p[..i]) + StuffByte(p[i])
  {
    hide StuffByte;
    StuffAppend(p[..i], [p[i]]);
    assert p[..i + 1] == p[..i] + [p[i]];
    assert [p[i]][1..] == [];
    assert Stuff([p[i]]) == StuffByte(p[i]) + [];
  }

  lemma {:induction false} StuffAppend(p: seq<octet>, q: seq<octet>)
    ensures Stuff(p + q) == Stuff(p) + Stuff(q)
    decreases |p|
  {
    hide StuffByte;
    if p == [] {
      assert p + q == q;
    } else {
      assert (p + q)[0] == p[0] && (p + q)[1..] == p[1..] + q;
      StuffAppend(p[1..], q);
      Assoc(StuffByte(p[0]), Stuff(p[1..]), Stuff(q));
    }
  }

  lemma StuffPair(a: octet, b: octet)
    ensures Stuff([a, b]) == StuffByte(a) + StuffByte(b)
  {
    hide StuffByte;
    assert [a, b][1..] == [b] && [b][1..] == [];
    assert Stuff([b]) == StuffByte(b) + Stuff([b][1..]);
  }

  lemma WireInPieces(m: Msg)
    ensures var c := CrcOf(Head(m));
            Wire(m) == [FLAG] + Stuff([Octet(|m.payload|), m.seqno, m.cmd]) + Stuff(m.payload)
                       + StuffByte(Hi(c)) + StuffByte(Lo(c)) + [FLAG]
  {
    hide Stuff, StuffByte, Hi, Lo, CrcOf;
    var (h, c) := ([Octet(|m.payload|), m.seqno, m.cmd], CrcOf(Head(m)));
    StuffAppend(h, m.payload);
    StuffAppend(Head(m), [Hi(c), Lo(c)]);
    StuffPair(Hi(c), Lo(c));
  }

  // ------------------------------------------------------ the link --

  class Peer {
    const body: array<octet>
    var blen: nat
    var inFrame: bool
    var esc: bool
    var lastSeq: octet
    var haveLast: bool
    var ok: word
    var badCrc: word
    var badLen: word
    var resync: word
    var dup: word
    var tx: word
    var wire: seq<octet>   // bytes handed to the UART so far
    var input: seq<octet>  // bytes the receive path still holds

    ghost function View(): Link
      requires blen <= body.Length
      reads this, body
    {
      Link(body[..blen], inFrame, esc, lastSeq, haveLast, ok, badCrc, badLen, resync, dup, tx, wire)
    }

    ghost predicate Valid()
      reads this, body
    {
      body.Length == BODY_MAX && blen <= BODY_MAX
    }

    constructor ()
      ensures Valid() && View() == FRESH && input == []
    {
      body := new octet[BODY_MAX](_ => 0);
      blen, inFrame, esc, lastSeq, haveLast := 0, false, false, 0, false;
      ok, badCrc, badLen, resync, dup, tx := 0, 0, 0, 0, 0, 0;
      wire, input := [], [];
      new;
      assert body[..0] == [];
    }

    // ------------------------------------------------------ sending --

    method TxByte(b: octet)
      modifies this`wire
      ensures wire == old(wire) + StuffByte(b)
    {
      if b == FLAG || b == ESC {
        wire := wire + [ESC];
        wire := wire + [b ^ 0x20];
      } else {
        wire := wire + [b];
      }
    }

    method TxBytes(p: seq<octet>)
      modifies this`wire
      ensures wire == old(wire) + Stuff(p)
    {
      hide StuffByte;
      assert p[..0] == [];
      for i := 0 to |p|
        invariant wire == old(wire) + Stuff(p[..i])
      {
        StuffSnoc(p, i);
        Assoc(old(wire), Stuff(p[..i]), StuffByte(p[i]));
        TxByte(p[i]);
      }
      assert p[..|p|] == p;
    }

    method FrameSend(m: Msg)
      requires blen <= body.Length && |m.payload| < 0x100
      modifies this`wire, this`tx
      ensures View() == Send(old(View()), m)
    {
      hide Stuff, StuffByte, CrcFrom, Hi, Lo, Wire;
      var head := [Octet(|m.payload|), m.seqno, m.cmd];
      wire := wire + [FLAG];
      TxBytes(head);
      TxBytes(m.payload);
      var crc := CrcOver(0xFFFF, head);
      crc := CrcOver(crc, m.payload);
      CrcAppend(0xFFFF, head, m.payload);
      TxByte(Hi(crc));
      TxByte(Lo(crc));
      wire := wire + [FLAG];
      tx := Inc(tx);
      WireInPieces(m);
      Regroup(old(wire), [FLAG], Stuff(head), Stuff(m.payload), StuffByte(Hi(crc)), StuffByte(Lo(crc)), [FLAG]);
    }

    method SendNak(seqno: octet)
      requires blen <= body.Length
      modifies this`wire, this`tx
      ensures View() == Nak(old(View()), seqno)
    {
      FrameSend(Msg(seqno, 0x00, [0xFF]));
    }

    // ------------------------------------------------------ receiving --

    // Drop the body being collected and wait for a flag.
    method Discard()
      modifies this`blen, this`inFrame
      ensures blen == 0 && body[..0] == [] && !inFrame
    {
      blen, inFrame := 0, false;
    }

    method Deliver(n: nat) returns (frame: Frame)
      requires n <= MAX_PAYLOAD && n + 5 <= blen <= body.Length == BODY_MAX
      modifies this
      ensures Valid() && input == old(input)
      ensures frame == Delivered(old(View()), n) && View() == Accept(old(View()), frame)
      ensures |frame.msg.payload| == n
    {
      assert body[..blen][3..3 + n] == body[3..3 + n];
      frame := Frame(Msg(body[1], body[2], body[3..3 + n]), haveLast && body[1] == lastSeq);
      Remember(frame);
    }

    // Count a delivery and note its sequence number.
    method Remember(f: Frame)
      requires Valid()
      modifies this
      ensures Valid() && input == old(input) && View() == Accept(old(View()), f)
    {
      hide Inc;
      if f.dup { dup := Inc(dup); }
      lastSeq, haveLast := f.msg.seqno, true;
      ok := Inc(ok);
      Discard();
    }

    method Refuse()
      requires Valid() && blen >= 2
      modifies this
      ensures Valid() && View() == Reject(old(View())) && input == old(input)
    {
      hide Wire;
      badCrc := Inc(badCrc);
      SendNak(body[1]);
      Discard();
    }

    method CheckBytesMatch(n: nat) returns (good: bool)
      requires n + 5 <= blen <= body.Length
      ensures good <==> CrcOf(View().body[..n + 3]) == Join(View().body[n + 3], View().body[n + 4])
    {
      hide CrcFrom, Join;
      var crc := CrcOver(0xFFFF, body[..n + 3]);
      assert body[..blen][..n + 3] == body[..n + 3];
      good := crc == Join(body[n + 3], body[n + 4]);
    }

    method BodyComplete() returns (f: Option<Frame>)
      requires Valid()
      modifies this
      ensures Valid() && (View(), f) == Complete(old(View()))
      ensures input == old(input)
      ensures f.Some? ==> |f.value.msg.payload| <= MAX_PAYLOAD
    {
      hide Reject, Accept, CrcOf, Join, Delivered;
      if blen < 1 { return None; }
      var n := Value(body[0]);
      if n > MAX_PAYLOAD { return None; }
      if blen < n + 5 { return None; }
      var good := CheckBytesMatch(n);
      if !good {
        Refuse();
        return None;
      }
      var frame := Deliver(n);
      return Some(frame);
    }

    method TakeData(c: octet) returns (f: Option<Frame>)
      requires Valid()
      modifies this, body
      ensures Valid() && (View(), f) == Data(old(View()), c)
      ensures input == old(input)
      ensures f.Some? ==> |f.value.msg.payload| <= MAX_PAYLOAD
    {
      hide Nak, Grown, Inc;
      if !inFrame { return None; }
      if blen == 1 && Value(body[0]) > MAX_PAYLOAD { return None; }
      if blen >= BODY_MAX {
        RefuseLength();
        Discard();
        return None;
      }
      PutByte(c);
      f := JudgeGrown(c);
    }

    method JudgeGrown(c: octet) returns (f: Option<Frame>)
      requires Valid() && blen > 0 && body[blen - 1] == c
      modifies this
      ensures Valid() && (View(), f) == Grown(old(View()), c)
      ensures input == old(input)
      ensures f.Some? ==> |f.value.msg.payload| <= MAX_PAYLOAD
    {
      hide Nak, Complete, Inc;
      if blen == 1 && Value(body[0]) > MAX_PAYLOAD {
        RefuseLength();
        return None;
      }
      f := BodyComplete();
    }

    method PutByte(c: octet)
      requires Valid() && blen < BODY_MAX
      modifies this`blen, body
      ensures Valid() && View() == old(View()).(body := old(View()).body + [c])
      ensures blen > 0 && body[blen - 1] == c
    {
      body[blen] := c;
      blen := blen + 1;
      assert body[..blen] == old(body[..blen]) + [c];
    }

    method RefuseLength()
      requires Valid()
      modifies this`badLen, this`wire, this`tx
      ensures View() == Nak(old(View()).(badLen := Inc(old(View()).badLen)), 0)
    {
      hide Nak, Inc;
      badLen := Inc(badLen);
      SendNak(0);
    }

    method TakeByte(c: octet) returns (f: Option<Frame>)
      requires Valid()
      modifies this, body
      ensures Valid() && (View(), f) == Feed(old(View()), c)
      ensures input == old(input)
      ensures f.Some? ==> |f.value.msg.payload| <= MAX_PAYLOAD
    {
      hide Data;
      f := None;
      if esc {
        esc := false;
        f := TakeData(c ^ 0x20);
      } else if c == FLAG {
        if inFrame && blen > 0 { resync := Inc(resync); }
        blen, inFrame := 0, true;
        assert body[..0] == [];
      } else if c == ESC {
        esc := true;
      } else {
        f := TakeData(c);
      }
    }

    // frame_poll: take bytes until one completes a frame or none are left.
    method Poll() returns (f: Option<Frame>)
      requires Valid()
      modifies this, body
      ensures Valid() && (View(), input, f) == FrameSpec.Poll(old(View()), old(input))
      ensures f.Some? ==> |f.value.msg.payload| <= MAX_PAYLOAD
    {
      hide Feed;
      ghost var (start, all) := (View(), input);
      while input != []
        invariant Valid() && FrameSpec.Poll(View(), input) == FrameSpec.Poll(start, all)
        decreases |input|
      {
        var c := input[0];
        input := input[1..];
        f := TakeByte(c);
        if f.Some? { return; }
      }
      f := None;
    }

    // ------------------------------------------------------ answering --

    method Answer(f: Frame)
      requires Valid() && |f.msg.payload| <= MAX_PAYLOAD
      modifies this`wire, this`tx
      ensures Valid() && View() == Handle(old(View()), f)
    {
      var m := f.msg;
      if f.dup {
        FrameSend(m);
        return;
      }
      if m.cmd == CMD_ECHO {
        FrameSend(Msg(m.seqno, CMD_ECHO, m.payload));
      } else if m.cmd == CMD_STATS {
        FrameSend(Msg(m.seqno, CMD_STATS, [Octet(ok), Octet(badCrc), Octet(badLen), Octet(resync), Octet(dup)]));
      } else {
        SendNak(m.seqno);
      }
    }

    // The application loop on whatever input is pending: poll, and answer each
    // delivered frame, until a poll finds nothing.
    method Serve() returns (frames: seq<Frame>)
      requires Valid()
      modifies this, body
      ensures Valid() && input == []
      ensures (View(), frames) == Run(old(View()), old(input))
    {
      hide Run;
      frames := [];
      ghost var (start, all) := (View(), input);
      var more := true;
      Empty(Run(start, all).1);
      while more
        invariant Valid() && (!more ==> input == [])
        invariant Run(start, all).0 == Run(View(), input).0
        invariant Run(start, all).1 == frames + Run(View(), input).1
        decreases more, |input|
      {
        var fs;
        fs, more := ServeOne();
        Assoc(frames, fs, Run(View(), input).1);
        frames := frames + fs;
      }
      RunNothing(View());
      Empty(frames);
    }

    // One poll, and the answer to what it delivers.
    method ServeOne() returns (frames: seq<Frame>, more: bool)
      requires Valid()
      modifies this, body
      ensures Valid() && if more then |input| < |old(input)| else input == []
      ensures Run(old(View()), old(input)).0 == Run(View(), input).0
      ensures Run(old(View()), old(input)).1 == frames + Run(View(), input).1
    {
      hide Run, FrameSpec.Poll, Handle;
      PollIsRun(View(), input);
      PollShrinks(View(), input);
      var f := Poll();
      if f.None? { return [], false; }
      Answer(f.value);
      return [f.value], true;
    }
  }

  lemma RunNothing(s: Link)
    ensures Run(s, []) == (s, [])
  {
  }

  lemma {:induction false} PollShrinks(s: Link, q: seq<octet>)
    ensures FrameSpec.Poll(s, q).2.Some? ==> |FrameSpec.Poll(s, q).1| < |q|
    decreases |q|
  {
    hide Feed;
    if q != [] { PollShrinks(Feed(s, q[0]).0, q[1..]); }
  }
}
