// The receive path as it runs: a ring of 256 bytes with one place kept empty.
module Ring {
  import opened Words
  import opened RingSpec

  type index = x: int | 0 <= x < 256

  function Next(i: index): index { (i + 1) % UART_RX_RING }

  function Used(head: index, tail: index): nat { (head - tail) % UART_RX_RING }

  function At(tail: index, k: nat): index { (tail + k) % UART_RX_RING }

  // The bytes from tail up to head, round the ring.
  function Contents(ring: seq<byte>, head: index, tail: index): (q: seq<byte>)
    requires |ring| == UART_RX_RING
    ensures |q| == Used(head, tail) <= CAPACITY
    ensures forall k :: 0 <= k < |q| ==> q[k] == ring[At(tail, k)]
  {
    seq(Used(head, tail), k requires 0 <= k < Used(head, tail) => ring[At(tail, k)])
  }

  // The same, without remainders.
  lemma NextIs(i: index)
    ensures Next(i) == if i == 255 then 0 else i + 1
  {
  }

  lemma UsedIs(head: index, tail: index)
    ensures Used(head, tail) == if head >= tail then head - tail else head - tail + 256
  {
  }

  lemma AtIs(tail: index, k: nat)
    ensures k < 256 ==> At(tail, k) == if tail + k < 256 then tail + k else tail + k - 256
    ensures At(Next(tail), k) == At(tail, k + 1)
  {
  }

  lemma UsedAfterPut(head: index, tail: index)
    ensures Next(head) == tail <==> Used(head, tail) == CAPACITY
    ensures Next(head) != tail ==> Used(Next(head), tail) == Used(head, tail) + 1
    ensures At(tail, Used(head, tail)) == head
    ensures forall k :: 0 <= k < Used(head, tail) ==> At(tail, k) != head
  {
    hide Next, Used, At;
    NextIs(head);
    UsedIs(head, tail);
    UsedIs(Next(head), tail);
    AtIs(tail, Used(head, tail));
    forall k | 0 <= k < Used(head, tail)
      ensures At(tail, k) != head
    {
      AtIs(tail, k);
    }
  }

  lemma UsedAfterTake(head: index, tail: index)
    ensures head == tail <==> Used(head, tail) == 0
    ensures head != tail ==> Used(head, Next(tail)) == Used(head, tail) - 1
    ensures At(tail, 0) == tail && forall k: nat :: At(Next(tail), k) == At(tail, k + 1)
  {
    hide Next, Used, At;
    NextIs(tail);
    UsedIs(head, tail);
    UsedIs(head, Next(tail));
    AtIs(tail, 0);
    forall k: nat
      ensures At(Next(tail), k) == At(tail, k + 1)
    {
      AtIs(tail, k);
    }
  }

  lemma PutContents(ring: seq<byte>, head: index, tail: index, c: byte)
    requires |ring| == UART_RX_RING && Next(head) != tail
    ensures Contents(ring[head := c], Next(head), tail) == Contents(ring, head, tail) + [c]
  {
    hide Next, Used, At;
    UsedAfterPut(head, tail);
    var (a, b) := (Contents(ring[head := c], Next(head), tail), Contents(ring, head, tail) + [c]);
    assert forall k :: 0 <= k < |b| ==> a[k] == b[k];
  }

  lemma TakeContents(ring: seq<byte>, head: index, tail: index)
    requires |ring| == UART_RX_RING && head != tail
    ensures Contents(ring, head, tail) != [] && ring[tail] == Contents(ring, head, tail)[0]
    ensures Contents(ring, head, Next(tail)) == Contents(ring, head, tail)[1..]
  {
    hide Next, Used, At;
    UsedAfterTake(head, tail);
    var (a, b) := (Contents(ring, head, Next(tail)), Contents(ring, head, tail)[1..]);
    assert forall k :: 0 <= k < |b| ==> a[k] == b[k];
  }

  class UartRx {
    const ring: array<byte>
    var head: index
    var tail: index
    var nBytes: word
    var nDropped: word
    var nOverruns: word

    ghost predicate Valid() { ring.Length == UART_RX_RING }

    ghost function View(): Rx
      requires Valid()
      reads this, ring
    {
      Rx(Contents(ring[..], head, tail), nBytes, nDropped, nOverruns)
    }

    constructor ()
      ensures Valid() && View() == Rx([], 0, 0, 0) && fresh(ring)
    {
      ring := new byte[UART_RX_RING](_ => 0);
      head, tail, nBytes, nDropped, nOverruns := 0, 0, 0, 0, 0;
    }

    // What the pump does with one status reading that has a byte.
    method StageOne(r: Ready)
      requires Valid()
      modifies this, ring
      ensures View() == Stage(old(View()), r)
    {
      hide Contents, Used, Next, At;
      if r.overrun { nOverruns := Inc(nOverruns); }
      var next := Next(head);
      UsedAfterPut(head, tail);
      ContentsSize(ring[..], head, tail);
      if next == tail {
        nDropped := Inc(nDropped);
        return;
      }
      PutContents(ring[..], head, tail, r.byte);
      ring[head] := r.byte;
      head := next;
      nBytes := Inc(nBytes);
      assert ring[..] == old(ring[..])[old(head) := r.byte];
    }

    // uart_rx_pump: read the status until no byte is ready.
    method PumpNow(b: Burst)
      requires Valid()
      modifies this, ring
      ensures View() == Pump(old(View()), b)
    {
      hide Contents, Stage;
      assert b.ready[0..] == b.ready;
      for i := 0 to |b.ready|
        invariant StageAll(View(), b.ready[i..]) == StageAll(old(View()), b.ready)
      {
        assert b.ready[i..][0] == b.ready[i] && b.ready[i..][1..] == b.ready[i + 1..];
        StageOne(b.ready[i]);
      }
      if b.overrun { nOverruns := Inc(nOverruns); }
    }

    method Available() returns (n: nat)
      requires Valid()
      ensures n == |View().q| <= CAPACITY
    {
      n := (head - tail) % UART_RX_RING;
    }

    // -1 when nothing is queued.
    method Getc() returns (c: int)
      requires Valid()
      modifies this`tail
      ensures c == -1 <==> old(View()).q == []
      ensures c == -1 ==> View() == old(View())
      ensures c != -1 ==> 0 <= c < 0x100 && c == old(View()).q[0] && View() == Rest(old(View()))
    {
      hide Contents, Used, Next, At;
      UsedAfterTake(head, tail);
      ContentsSize(ring[..], head, tail);
      if head == tail { return -1; }
      TakeContents(ring[..], head, tail);
      c := ring[tail];
      tail := Next(tail);
    }

    // The first n queued bytes, or all of them.
    method Read(dst: array<byte>, n: nat) returns (got: nat)
      requires Valid() && n <= dst.Length && dst != ring
      modifies this`tail, dst
      ensures got == Min(n, |old(View()).q|)
      ensures dst[..got] == old(View()).q[..got] && dst[got..] == old(dst[got..])
      ensures View() == old(View()).(q := old(View()).q[got..])
    {
      hide Contents;
      got := 0;
      ghost var s := View();
      assert s.q[0..] == s.q;
      while got < n
        invariant got <= n && got <= |s.q|
        invariant View() == s.(q := s.q[got..])
        invariant dst[..got] == s.q[..got] && dst[got..] == old(dst[..])[got..]
      {
        var c := Getc();
        if c < 0 { break; }
        assert s.q[got..][1..] == s.q[got + 1..];
        dst[got] := c;
        got := got + 1;
        assert dst[..got] == s.q[..got - 1] + [s.q[got - 1]];
      }
    }

    // The reading loop. The passes that happen, and the clock readings, are given; the
    // call is still waiting when they run out.
    method Getline(dst: array<byte>, n: nat, timeout: word, start: word, rounds: seq<Round>)
      returns (r: int, o: Outcome)
      requires Valid() && n <= dst.Length && dst != ring
      modifies this, ring, dst
      ensures n == 0 ==> r == 0 && o == Done && View() == old(View()) && dst[..] == old(dst[..])
      ensures n > 0 ==>
                var (t, line, oc) := Collect(old(View()), rounds, start, timeout, n - 1, []);
                && View() == t && o == oc && |line| < n
                && r == (if o == TimedOut then -1 else |line|)
                && if o == Waiting then Holding(dst[..], old(dst[..]), line)
                   else Holding(dst[..], old(dst[..]), line + [0])
    {
      hide Contents, Pump, Expired, Collect, Holding, Put, Rest;
      if n == 0 { return 0, Done; }
      var i := 0;
      ghost var line: seq<byte> := [];
      HoldingNone(dst[..]);
      ghost var final := Collect(View(), rounds, start, timeout, n - 1, []);
      assert rounds[0..] == rounds;
      for j := 0 to |rounds|
        invariant i == |line| < n && Holding(dst[..], old(dst[..]), line)
        invariant Collect(View(), rounds[j..], start, timeout, n - 1, line) == final
      {
        CollectStep(View(), rounds, j, start, timeout, n - 1, line);
        PumpNow(rounds[j].burst);
        var c := Getc();
        if c >= 0 {
          PutIs(line, c, n - 1);
          if c == CR {
            continue;
          }
          HoldMore(dst[..], old(dst[..]), line, if c == LF then 0 else c);
          if c == LF {
            dst[i] := 0;
            return i, Done;
          }
          if i + 1 < n {
            dst[i] := c;
            line := line + [c];
            i := i + 1;
          }
          continue;
        }
        if Expired(rounds[j].now, start, timeout) {
          HoldMore(dst[..], old(dst[..]), line, 0);
          dst[i] := 0;
          return -1, TimedOut;
        }
      }
      assert rounds[|rounds|..] == [];
      CollectEnd(View(), start, timeout, n - 1, line);
      r, o := i, Waiting;
    }
  }

  // A buffer whose front has been overwritten with `line`, and nothing else.
  ghost predicate Holding(now: seq<byte>, was: seq<byte>, line: seq<byte>) {
    |line| <= |was| && now == line + was[|line|..]
  }

  lemma HoldingNone(was: seq<byte>)
    ensures Holding(was, was, [])
  {
  }

  lemma HoldMore(now: seq<byte>, was: seq<byte>, line: seq<byte>, c: byte)
    requires Holding(now, was, line) && |line| < |now|
    ensures Holding(now[|line| := c], was, line + [c])
  {
  }

  lemma PutIs(line: seq<byte>, c: byte, room: nat)
    ensures Put(line, c, room) == if c == CR || |line| >= room then line else line + [c]
  {
  }

  lemma ContentsSize(ring: seq<byte>, head: index, tail: index)
    requires |ring| == UART_RX_RING
    ensures |Contents(ring, head, tail)| == Used(head, tail)
  {
  }

  lemma CollectStep(s: Rx, rounds: seq<Round>, j: nat, start: word, timeout: word, room: nat, line: seq<byte>)
    requires j < |rounds|
    ensures var (t, rest) := (Pump(s, rounds[j].burst), rounds[j + 1..]);
            Collect(s, rounds[j..], start, timeout, room, line) ==
            if t.q == [] then
              if Expired(rounds[j].now, start, timeout) then (t, line, TimedOut)
              else Collect(t, rest, start, timeout, room, line)
            else if t.q[0] == LF then (Rest(t), line, Done)
            else Collect(Rest(t), rest, start, timeout, room, Put(line, t.q[0], room))
  {
    assert rounds[j..][1..] == rounds[j + 1..];
  }

  lemma CollectEnd(s: Rx, start: word, timeout: word, room: nat, line: seq<byte>)
    ensures Collect(s, [], start, timeout, room, line) == (s, line, Waiting)
  {
  }
}
