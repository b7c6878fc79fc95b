// The software receive path as a bounded queue, and what its readers promise.
module RingSpec {
  import opened Words
  import opened Seqs

  const UART_RX_RING: nat := 256
  const CAPACITY: nat := 255
  const CR: byte := 13
  const LF: byte := 10

  // One status reading that finds a byte ready, and whether it shows the sticky
  // overrun flag; a burst ends with a reading that finds none.
  datatype Ready = Ready(overrun: bool, byte: byte)
  datatype Burst = Burst(ready: seq<Ready>, overrun: bool)

  datatype Rx = Rx(q: seq<byte>, bytes: word, dropped: word, overruns: word)

  function Noted(s: Rx, overrun: bool): Rx { if overrun then s.(overruns := Inc(s.overruns)) else s }

  // A full queue drops the byte and counts it.
  function Stage(s: Rx, r: Ready): Rx {
    var t := Noted(s, r.overrun);
    if |t.q| >= CAPACITY then t.(dropped := Inc(t.dropped))
    else t.(q := t.q + [r.byte], bytes := Inc(t.bytes))
  }

  function StageAll(s: Rx, r: seq<Ready>): Rx
    decreases |r|
  {
    if r == [] then s else StageAll(Stage(s, r[0]), r[1..])
  }

  function Pump(s: Rx, b: Burst): Rx { Noted(StageAll(s, b.ready), b.overrun) }

  function Rest(s: Rx): Rx
    requires s.q != []
  {
    s.(q := s.q[1..])
  }

  function Min(a: nat, b: nat): nat { if a < b then a else b }

  // ------------------------------------------------------ a line --

  datatype Outcome = Done | TimedOut | Waiting

  // One pass of the reading loop: what the pump finds, and the clock if it is read.
  datatype Round = Round(burst: Burst, now: word)

  predicate Expired(now: word, start: word, timeout: word) {
    timeout != 0 && (now - start) % TWO32 >= timeout
  }

  // A byte of the line joins it while there is room; CR never does.
  function Put(line: seq<byte>, c: byte, room: nat): seq<byte> {
    if c == CR || |line| >= room then line else line + [c]
  }

  // The loop over the passes that happen; it is still waiting when they run out.
  function Collect(s: Rx, rounds: seq<Round>, start: word, timeout: word, room: nat, line: seq<byte>)
    : (Rx, seq<byte>, Outcome)
    decreases |rounds|
  {
    if rounds == [] then (s, line, Waiting)
    else
      var t := Pump(s, rounds[0].burst);
      if t.q == [] then
        if Expired(rounds[0].now, start, timeout) then (t, line, TimedOut)
        else Collect(t, rounds[1..], start, timeout, room, line)
      else if t.q[0] == LF then (Rest(t), line, Done)
      else Collect(Rest(t), rounds[1..], start, timeout, room, Put(line, t.q[0], room))
  }

  // ------------------------------------------------------ what was taken --

  function BytesOf(r: seq<Ready>): (b: seq<byte>)
    ensures |b| == |r|
  {
    seq(|r|, k requires 0 <= k < |r| => r[k].byte)
  }

  // Of a burst, a queue holding `held` bytes takes as many as fit.
  function Accepted(held: nat, r: seq<Ready>): seq<byte>
    requires held <= CAPACITY
  {
    BytesOf(r)[..Min(|r|, CAPACITY - held)]
  }

  predicate Bounded(s: Rx) { |s.q| <= CAPACITY }

  lemma {:induction false} StageAllLaw(s: Rx, r: seq<Ready>)
    requires Bounded(s)
    ensures var (t, a) := (StageAll(s, r), Accepted(|s.q|, r));
            && t.q == s.q + a && Bounded(t)
            && t.bytes == (s.bytes + |a|) % TWO32
            && t.dropped == (s.dropped + |r| - |a|) % TWO32
    decreases |r|
  {
    hide BytesOf, Accepted, Stage, Inc;
    if r == [] {
      AcceptedNone(|s.q|);
      Empty(s.q);
    } else {
      var u := Stage(s, r[0]);
      StageOne(s, r[0]);
      AcceptedUnfold(|s.q|, r);
      var a := Accepted(|u.q|, r[1..]);
      StageAllLaw(u, r[1..]);
      CountOn(s.bytes, |a|);
      CountOn(s.dropped, |r| - 1 - |a|);
      Assoc(s.q, [r[0].byte], a);
    }
  }

  lemma StageOne(s: Rx, r: Ready)
    requires Bounded(s)
    ensures var t := Stage(s, r);
            if |s.q| < CAPACITY then t.q == s.q + [r.byte] && t.bytes == Inc(s.bytes) && t.dropped == s.dropped
            else t.q == s.q && t.bytes == s.bytes && t.dropped == Inc(s.dropped)
  {
    hide Inc;
  }

  lemma AcceptedNone(held: nat)
    requires held <= CAPACITY
    ensures Accepted(held, []) == []
  {
  }

  lemma AcceptedUnfold(held: nat, r: seq<Ready>)
    requires held <= CAPACITY && r != []
    ensures Accepted(held, r) == if held < CAPACITY then [r[0].byte] + Accepted(held + 1, r[1..]) else []
    ensures |Accepted(held, r)| <= |r|
    ensures held == CAPACITY ==> Accepted(held, r[1..]) == []
  {
    assert BytesOf(r) == [r[0].byte] + BytesOf(r[1..]);
  }

  lemma CountOn(w: word, n: int)
    ensures (Inc(w) + n) % TWO32 == (w + n + 1) % TWO32
  {
    ModAdd(w + 1, n);
  }

  // The pump keeps arrival order, keeps the oldest bytes when it must drop, and every
  // byte it takes from the hardware is counted once, staged or dropped.
  lemma PumpLaw(s: Rx, b: Burst)
    requires Bounded(s)
    ensures var (t, a) := (Pump(s, b), Accepted(|s.q|, b.ready));
            && t.q == s.q + a && Bounded(t)
            && t.bytes == (s.bytes + |a|) % TWO32
            && t.dropped == (s.dropped + |b.ready| - |a|) % TWO32
  {
    hide StageAll, Accepted;
    StageAllLaw(s, b.ready);
  }

  // Status readings of a burst that show the overrun flag.
  function Flags(r: seq<Ready>): nat
    decreases |r|
  {
    if r == [] then 0 else (if r[0].overrun then 1 else 0) + Flags(r[1..])
  }

  lemma {:induction false} StageAllFlags(s: Rx, r: seq<Ready>)
    ensures StageAll(s, r).overruns == (s.overruns + Flags(r)) % TWO32
    decreases |r|
  {
    if r != [] {
      StageAllFlags(Stage(s, r[0]), r[1..]);
      CountOn(s.overruns, Flags(r[1..]));
    }
  }

  // The flag is sticky and cleared by taking a byte, so it is counted at every reading.
  lemma PumpCountsOverruns(s: Rx, b: Burst)
    ensures Pump(s, b).overruns == (s.overruns + Flags(b.ready) + if b.overrun then 1 else 0) % TWO32
  {
    hide StageAll;
    StageAllFlags(s, b.ready);
    ModAdd(s.overruns + Flags(b.ready), 1);
  }

  // Bytes staged over the passes of a line read.
  function Staged(s: Rx, rounds: seq<Round>, start: word, timeout: word): seq<byte>
    requires Bounded(s)
    decreases |rounds|
  {
    if rounds == [] then []
    else
      var a := Accepted(|s.q|, rounds[0].burst.ready);
      var t := Pump(s, rounds[0].burst);
      PumpLaw(s, rounds[0].burst);
      if t.q == [] then
        if Expired(rounds[0].now, start, timeout) then a
        else a + Staged(t, rounds[1..], start, timeout)
      else if t.q[0] == LF then a
      else a + Staged(Rest(t), rounds[1..], start, timeout)
  }

  // Bytes handed to the line read.
  function Handed(s: Rx, rounds: seq<Round>, start: word, timeout: word): seq<byte>
    decreases |rounds|
  {
    if rounds == [] then []
    else
      var t := Pump(s, rounds[0].burst);
      if t.q == [] then
        if Expired(rounds[0].now, start, timeout) then [] else Handed(t, rounds[1..], start, timeout)
      else if t.q[0] == LF then [LF]
      else [t.q[0]] + Handed(Rest(t), rounds[1..], start, timeout)
  }

  // Nothing is lost or reordered between the pump and the reader.
  lemma {:induction false} LineConserves(s: Rx, rounds: seq<Round>, start: word, timeout: word, room: nat,
                                         line: seq<byte>)
    requires Bounded(s)
    ensures var t := Collect(s, rounds, start, timeout, room, line).0;
            && Bounded(t)
            && Handed(s, rounds, start, timeout) + t.q == s.q + Staged(s, rounds, start, timeout)
    decreases |rounds|
  {
    hide Pump, Accepted, Expired, Put;
    if rounds == [] {
      assert s.q + [] == [] + s.q;
    } else {
      var (a, t) := (Accepted(|s.q|, rounds[0].burst.ready), Pump(s, rounds[0].burst));
      PumpLaw(s, rounds[0].burst);
      if t.q == [] {
        assert s.q + a == [];
        if !Expired(rounds[0].now, start, timeout) {
          LineConserves(t, rounds[1..], start, timeout, room, line);
          Assoc(s.q, a, Staged(t, rounds[1..], start, timeout));
        }
      } else {
        Front(t.q);
        if t.q[0] != LF {
          var next := Put(line, t.q[0], room);
          LineConserves(Rest(t), rounds[1..], start, timeout, room, next);
          var u := Collect(Rest(t), rounds[1..], start, timeout, room, next).0;
          Assoc(s.q, a, Staged(Rest(t), rounds[1..], start, timeout));
          Assoc([t.q[0]], Handed(Rest(t), rounds[1..], start, timeout), u.q);
          Assoc([t.q[0]], t.q[1..], Staged(Rest(t), rounds[1..], start, timeout));
        }
      }
    }
  }

  lemma Front(q: seq<byte>)
    requires q != []
    ensures q == [q[0]] + q[1..]
  {
  }

  function NoCR(s: seq<byte>): seq<byte> {
    if s == [] then [] else (if s[0] == CR then [] else [s[0]]) + NoCR(s[1..])
  }

  // A line with more of its bytes: cut to the room there is.
  function Cut(s: seq<byte>, room: nat): seq<byte> { s[..Min(|s|, room)] }

  // What a read has taken off the stream: no line end, until it is done.
  ghost predicate UpToLine(handed: seq<byte>, content: seq<byte>, o: Outcome) {
    && handed == (if o == Done then content + [LF] else content)
    && LF !in content
  }

  function Content(handed: seq<byte>, o: Outcome): seq<byte> {
    if o == Done && handed != [] then handed[..|handed| - 1] else handed
  }

  lemma {:induction false} LineLaw(s: Rx, rounds: seq<Round>, start: word, timeout: word, room: nat, line: seq<byte>)
    requires |line| <= room
    ensures var (t, got, o) := Collect(s, rounds, start, timeout, room, line);
            var handed := Handed(s, rounds, start, timeout);
            && UpToLine(handed, Content(handed, o), o)
            && got == Cut(line + NoCR(Content(handed, o)), room)
    decreases |rounds|
  {
    hide Pump, Expired, Cut;
    if rounds == [] {
      CutNothing(line, room);
    } else {
      var t := Pump(s, rounds[0].burst);
      if t.q == [] {
        if Expired(rounds[0].now, start, timeout) {
          CutNothing(line, room);
        } else {
          LineLaw(t, rounds[1..], start, timeout, room, line);
        }
      } else if t.q[0] == LF {
        CutNothing(line, room);
      } else {
        var (c, next) := (t.q[0], Put(line, t.q[0], room));
        LineLaw(Rest(t), rounds[1..], start, timeout, room, next);
        var o := Collect(Rest(t), rounds[1..], start, timeout, room, next).2;
        var h := Handed(Rest(t), rounds[1..], start, timeout);
        ContentCons(c, h, o);
        CutPut(line, c, NoCR(Content(h, o)), room);
      }
    }
  }

  lemma CutNothing(line: seq<byte>, room: nat)
    requires |line| <= room
    ensures line == Cut(line + NoCR([]), room)
  {
    assert line + [] == line;
  }

  lemma ContentCons(c: byte, h: seq<byte>, o: Outcome)
    requires UpToLine(h, Content(h, o), o) && c != LF
    ensures Content([c] + h, o) == [c] + Content(h, o)
    ensures UpToLine([c] + h, Content([c] + h, o), o)
    ensures NoCR(Content([c] + h, o)) == (if c == CR then [] else [c]) + NoCR(Content(h, o))
  {
    assert ([c] + Content(h, o))[1..] == Content(h, o);
  }

  lemma CutPut(line: seq<byte>, c: byte, rest: seq<byte>, room: nat)
    requires |line| <= room
    ensures Cut(Put(line, c, room) + rest, room) == Cut(line + ((if c == CR then [] else [c]) + rest), room)
  {
  }

  // A completed read from an empty start: the bytes before the next line end, without
  // carriage returns, cut to the room there is; the line end itself is consumed, and
  // all of it is the front of what was queued and staged.
  lemma ReadLineLaw(s: Rx, rounds: seq<Round>, start: word, timeout: word, n: nat)
    requires Bounded(s) && n > 0
    requires Collect(s, rounds, start, timeout, n - 1, []).2 == Done
    ensures var (t, got, o) := Collect(s, rounds, start, timeout, n - 1, []);
            exists x: seq<byte> ::
              && LF !in x && got == Cut(NoCR(x), n - 1)
              && x + [LF] + t.q == s.q + Staged(s, rounds, start, timeout)
  {
    hide Collect, Handed, Staged, Cut, NoCR;
    LineLaw(s, rounds, start, timeout, n - 1, []);
    LineConserves(s, rounds, start, timeout, n - 1, []);
    var x := Content(Handed(s, rounds, start, timeout), Done);
    assert [] + NoCR(x) == NoCR(x);
  }
}
