// When a line read ends, by the true time: on the passes it makes and the cycle counter
// behind its 32-bit clock.
module RingTime {
  import opened Words
  import opened RingSpec

  function Taken(s: Rx): Rx { if s.q == [] then s else Rest(s) }

  // The queue pass k finds after its pump, when every pass before it has taken a byte if
  // there was one.
  function Found(s: Rx, rounds: seq<Round>, k: nat): Rx
    requires k < |rounds|
    decreases k
  {
    var t := Pump(s, rounds[0].burst);
    if k == 0 then t else Found(Taken(t), rounds[1..], k - 1)
  }

  // Pass k has nothing to take.
  predicate Idle(s: Rx, rounds: seq<Round>, k: nat)
    requires k < |rounds|
  {
    Found(s, rounds, k).q == []
  }

  // Pass k takes a line end.
  predicate LineEnds(s: Rx, rounds: seq<Round>, k: nat)
    requires k < |rounds|
  {
    var q := Found(s, rounds, k).q;
    q != [] && q[0] == LF
  }

  // Clock readings are the low words of true times, none more than 2^32 - 1 cycles after
  // the start.
  ghost predicate Clocked(rounds: seq<Round>, times: seq<nat>, begin: nat) {
    && |times| == |rounds|
    && forall k :: 0 <= k < |rounds| ==> rounds[k].now == times[k] % TWO32 && begin <= times[k] < begin + TWO32
  }

  // Pass k has waited long enough, by the true time.
  predicate Overdue(s: Rx, rounds: seq<Round>, times: seq<nat>, begin: nat, timeout: word, k: nat)
    requires |times| == |rounds| && k < |rounds|
  {
    Idle(s, rounds, k) && timeout != 0 && times[k] >= begin + timeout
  }

  // Pass k is the first at which the read ends.
  ghost predicate Ends(s: Rx, rounds: seq<Round>, times: seq<nat>, begin: nat, timeout: word, k: nat)
    requires |times| == |rounds|
  {
    && k < |rounds|
    && (LineEnds(s, rounds, k) || Overdue(s, rounds, times, begin, timeout, k))
    && forall j :: 0 <= j < k ==> !LineEnds(s, rounds, j) && !Overdue(s, rounds, times, begin, timeout, j)
  }

  // The word test sees the elapsed time modulo 2^32.
  lemma ExpiredIff(time: nat, begin: nat, timeout: word)
    requires begin <= time
    ensures Expired(time % TWO32, begin % TWO32, timeout) <==> timeout != 0 && (time - begin) % TWO32 >= timeout
  {
    var (qt, qb) := (time / TWO32, begin / TWO32);
    assert time % TWO32 - begin % TWO32 == time - begin - (qt - qb) * TWO32;
    Shifted(time - begin, qt - qb);
  }

  lemma Shifted(a: int, k: int)
    ensures (a - k * TWO32) % TWO32 == a % TWO32
  {
  }

  // So it is the true one between readings less than 2^32 cycles apart, across a
  // rollover of the clock too; one that comes exactly then misses every timeout.
  lemma ExpiredIsTrue(time: nat, begin: nat, timeout: word)
    requires begin <= time
    ensures time < begin + TWO32 ==>
              (Expired(time % TWO32, begin % TWO32, timeout) <==> timeout != 0 && time >= begin + timeout)
    ensures time == begin + TWO32 ==> !Expired(time % TWO32, begin % TWO32, timeout)
  {
    hide Expired;
    ExpiredIff(time, begin, timeout);
  }

  lemma FirstPass(s: Rx, rounds: seq<Round>)
    requires rounds != []
    ensures Found(s, rounds, 0) == Pump(s, rounds[0].burst)
    ensures forall k: nat :: k + 1 < |rounds| ==>
              Found(s, rounds, k + 1) == Found(Taken(Pump(s, rounds[0].burst)), rounds[1..], k)
  {
    hide Pump;
  }

  // A read that goes past its first pass ends where the rest of it does.
  lemma EndsLater(s: Rx, rounds: seq<Round>, times: seq<nat>, begin: nat, timeout: word)
    requires rounds != [] && |times| == |rounds|
    requires !LineEnds(s, rounds, 0) && !Overdue(s, rounds, times, begin, timeout, 0)
    ensures !Ends(s, rounds, times, begin, timeout, 0)
    ensures var u := Taken(Pump(s, rounds[0].burst));
            forall k: nat :: k + 1 < |rounds| ==>
              && (Ends(s, rounds, times, begin, timeout, k + 1)
                  <==> Ends(u, rounds[1..], times[1..], begin, timeout, k))
              && (Idle(s, rounds, k + 1) <==> Idle(u, rounds[1..], k))
              && (LineEnds(s, rounds, k + 1) <==> LineEnds(u, rounds[1..], k))
  {
    var u := Taken(Pump(s, rounds[0].burst));
    FirstPass(s, rounds);
    hide Pump, Taken, Found;
    forall k: nat | k + 1 < |rounds|
      ensures Ends(s, rounds, times, begin, timeout, k + 1) <==> Ends(u, rounds[1..], times[1..], begin, timeout, k)
    {
      assert forall j :: 0 <= j <= k ==> times[1..][j] == times[j + 1];
      assert forall j: nat :: j <= k ==>
               (LineEnds(s, rounds, j + 1) <==> LineEnds(u, rounds[1..], j))
               && (Overdue(s, rounds, times, begin, timeout, j + 1)
                   <==> Overdue(u, rounds[1..], times[1..], begin, timeout, j));
      if Ends(u, rounds[1..], times[1..], begin, timeout, k) {
        forall j | 0 <= j < k + 1
          ensures !LineEnds(s, rounds, j) && !Overdue(s, rounds, times, begin, timeout, j)
        {
          if j > 0 { assert !LineEnds(u, rounds[1..], j - 1); }
        }
      }
      if Ends(s, rounds, times, begin, timeout, k + 1) {
        forall j | 0 <= j < k
          ensures !LineEnds(u, rounds[1..], j) && !Overdue(u, rounds[1..], times[1..], begin, timeout, j)
        {
          assert !LineEnds(s, rounds, j + 1);
        }
      }
    }
  }

  ghost predicate EndsBy(s: Rx, rounds: seq<Round>, times: seq<nat>, begin: nat, timeout: word, line: bool)
    requires |times| == |rounds|
  {
    exists k :: 0 <= k < |rounds| && Ends(s, rounds, times, begin, timeout, k) && (line <==> LineEnds(s, rounds, k))
  }

  // The first pass ends the read.
  lemma EndsAtOnce(s: Rx, rounds: seq<Round>, times: seq<nat>, begin: nat, timeout: word)
    requires rounds != [] && |times| == |rounds|
    requires LineEnds(s, rounds, 0) || Overdue(s, rounds, times, begin, timeout, 0)
    ensures forall line :: EndsBy(s, rounds, times, begin, timeout, line) <==> line == LineEnds(s, rounds, 0)
  {
    hide Found, LineEnds, Overdue;
    assert Ends(s, rounds, times, begin, timeout, 0);
    forall k | 0 < k < |rounds| ensures !Ends(s, rounds, times, begin, timeout, k) { }
  }

  lemma EndsWithRest(s: Rx, rounds: seq<Round>, times: seq<nat>, begin: nat, timeout: word)
    requires rounds != [] && |times| == |rounds|
    requires !LineEnds(s, rounds, 0) && !Overdue(s, rounds, times, begin, timeout, 0)
    ensures var u := Taken(Pump(s, rounds[0].burst));
            forall line ::
              EndsBy(s, rounds, times, begin, timeout, line)
              <==> EndsBy(u, rounds[1..], times[1..], begin, timeout, line)
  {
    EndsLater(s, rounds, times, begin, timeout);
    hide Pump, Taken, Found, LineEnds, Overdue, Ends;
    var u := Taken(Pump(s, rounds[0].burst));
    forall line
      ensures EndsBy(s, rounds, times, begin, timeout, line)
              <==> EndsBy(u, rounds[1..], times[1..], begin, timeout, line)
    {
      if EndsBy(s, rounds, times, begin, timeout, line) {
        var k :| 0 <= k < |rounds| && Ends(s, rounds, times, begin, timeout, k) && (line <==> LineEnds(s, rounds, k));
        assert k > 0;
        assert Ends(u, rounds[1..], times[1..], begin, timeout, k - 1);
      }
      if EndsBy(u, rounds[1..], times[1..], begin, timeout, line) {
        var k :| 0 <= k < |rounds[1..]| && Ends(u, rounds[1..], times[1..], begin, timeout, k)
                 && (line <==> LineEnds(u, rounds[1..], k));
        assert Ends(s, rounds, times, begin, timeout, k + 1);
      }
    }
  }

  // What the first pass leaves to do.
  lemma CollectFirst(s: Rx, rounds: seq<Round>, times: seq<nat>, begin: nat, timeout: word, room: nat, line: seq<byte>)
    returns (next: seq<byte>)
    requires rounds != [] && Clocked(rounds, times, begin)
    ensures var (u, o) := (Taken(Pump(s, rounds[0].burst)), Collect(s, rounds, begin % TWO32, timeout, room, line).2);
            if LineEnds(s, rounds, 0) then o == Done
            else if Overdue(s, rounds, times, begin, timeout, 0) then o == TimedOut
            else o == Collect(u, rounds[1..], begin % TWO32, timeout, room, next).2
  {
    hide Pump, Expired, Put;
    ExpiredIsTrue(times[0], begin, timeout);
    var t := Pump(s, rounds[0].burst);
    next := if t.q == [] then line else Put(line, t.q[0], room);
  }

  // A read times out exactly when a pass with nothing to take comes at least `timeout`
  // cycles of true time after the start, before any pass takes a line end and with a
  // timeout given; it is done exactly when a line end comes first; otherwise it waits.
  lemma {:induction false} OutcomeIff(s: Rx, rounds: seq<Round>, times: seq<nat>, begin: nat, timeout: word,
                                      room: nat, line: seq<byte>)
    requires Clocked(rounds, times, begin)
    ensures var o := Collect(s, rounds, begin % TWO32, timeout, room, line).2;
            && (o == TimedOut <==> EndsBy(s, rounds, times, begin, timeout, false))
            && (o == Done <==> EndsBy(s, rounds, times, begin, timeout, true))
    decreases |rounds|
  {
    hide Pump, LineEnds, Overdue, Taken, EndsBy;
    if rounds == [] {
      NoneEnds(s, times, begin, timeout);
    } else {
      hide Collect;
      var next := CollectFirst(s, rounds, times, begin, timeout, room, line);
      if LineEnds(s, rounds, 0) || Overdue(s, rounds, times, begin, timeout, 0) {
        EndsAtOnce(s, rounds, times, begin, timeout);
      } else {
        var u := Taken(Pump(s, rounds[0].burst));
        EndsWithRest(s, rounds, times, begin, timeout);
        OutcomeIff(u, rounds[1..], times[1..], begin, timeout, room, next);
      }
    }
  }

  lemma NoneEnds(s: Rx, times: seq<nat>, begin: nat, timeout: word)
    requires times == []
    ensures forall line :: !EndsBy(s, [], times, begin, timeout, line)
  {
  }

  // No read times out before `timeout` cycles are over, and none at all without a
  // timeout; a pass with nothing to take that comes later ends it, line or not.
  lemma TimeoutBounds(s: Rx, rounds: seq<Round>, times: seq<nat>, begin: nat, timeout: word, room: nat)
    requires Clocked(rounds, times, begin)
    ensures var o := Collect(s, rounds, begin % TWO32, timeout, room, []).2;
            && (o == TimedOut ==> timeout != 0 && exists k :: 0 <= k < |times| && times[k] >= begin + timeout)
            && (timeout != 0 && (exists k :: 0 <= k < |rounds| && Idle(s, rounds, k) && times[k] >= begin + timeout)
                ==> o != Waiting)
  {
    hide Pump, LineEnds, Collect, Idle;
    OutcomeIff(s, rounds, times, begin, timeout, room, []);
    if k :| timeout != 0 && 0 <= k < |rounds| && Idle(s, rounds, k) && times[k] >= begin + timeout {
      var e := FirstEnd(s, rounds, times, begin, timeout, k);
    }
  }

  lemma {:induction false} FirstEnd(s: Rx, rounds: seq<Round>, times: seq<nat>, begin: nat, timeout: word, k: nat)
    returns (e: nat)
    requires |times| == |rounds| && k < |rounds| && Overdue(s, rounds, times, begin, timeout, k)
    ensures e <= k && Ends(s, rounds, times, begin, timeout, e)
    decreases k
  {
    hide LineEnds, Overdue;
    if j :| 0 <= j < k && Overdue(s, rounds, times, begin, timeout, j) {
      e := FirstEnd(s, rounds, times, begin, timeout, j);
    } else if j :| 0 <= j < k && LineEnds(s, rounds, j) {
      e := FirstLine(s, rounds, times, begin, timeout, j);
    } else {
      e := k;
    }
  }

  lemma {:induction false} FirstLine(s: Rx, rounds: seq<Round>, times: seq<nat>, begin: nat, timeout: word, k: nat)
    returns (e: nat)
    requires |times| == |rounds| && k < |rounds| && LineEnds(s, rounds, k)
    requires forall j :: 0 <= j < k ==> !Overdue(s, rounds, times, begin, timeout, j)
    ensures e <= k && Ends(s, rounds, times, begin, timeout, e)
    decreases k
  {
    hide LineEnds, Overdue;
    if j :| 0 <= j < k && LineEnds(s, rounds, j) {
      e := FirstLine(s, rounds, times, begin, timeout, j);
    } else {
      e := k;
    }
  }
}
