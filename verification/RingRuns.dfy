// Any interleaving of the pump and the readers: what was handed out and what is
// queued are what was staged, and every byte taken from the hardware is counted once.
module RingRuns {
  import opened Words
  import opened Seqs
  import opened RingSpec

  datatype Event =
    | PumpCall(b: Burst)
    | GetcCall
    | ReadCall(n: nat)
    | LineCall(n: nat, start: word, timeout: word, rounds: seq<Round>)

  // What a call hands to its caller, what it puts in the queue, and how many bytes it
  // takes from the hardware.
  datatype Moved = Moved(handed: seq<byte>, staged: seq<byte>, popped: nat)

  function Apply(s: Rx, e: Event): Rx {
    match e
    case PumpCall(b) => Pump(s, b)
    case GetcCall => if s.q == [] then s else Rest(s)
    case ReadCall(n) => s.(q := s.q[Min(n, |s.q|)..])
    case LineCall(n, start, timeout, rounds) =>
      if n == 0 then s else Collect(s, rounds, start, timeout, n - 1, []).0
  }

  function Effect(s: Rx, e: Event): Moved
    requires Bounded(s)
  {
    match e
    case PumpCall(b) => Moved([], Accepted(|s.q|, b.ready), |b.ready|)
    case GetcCall => Moved(if s.q == [] then [] else [s.q[0]], [], 0)
    case ReadCall(n) => Moved(s.q[..Min(n, |s.q|)], [], 0)
    case LineCall(n, start, timeout, rounds) =>
      if n == 0 then Moved([], [], 0)
      else
        Moved(Handed(s, rounds, start, timeout), Staged(s, rounds, start, timeout),
              Popped(s, rounds, start, timeout))
  }

  // Bytes a line read takes from the hardware: those of the passes it makes.
  function Popped(s: Rx, rounds: seq<Round>, start: word, timeout: word): nat
    decreases |rounds|
  {
    if rounds == [] then 0
    else
      var t := Pump(s, rounds[0].burst);
      |rounds[0].burst.ready| +
      (if t.q == [] then
         if Expired(rounds[0].now, start, timeout) then 0 else Popped(t, rounds[1..], start, timeout)
       else if t.q[0] == LF then 0
       else Popped(Rest(t), rounds[1..], start, timeout))
  }

  // The counters have moved on by what was staged and what was dropped.
  ghost predicate Counted(s: Rx, t: Rx, staged: nat, popped: nat) {
    t.bytes == (s.bytes + staged) % TWO32 && t.dropped == (s.dropped + popped - staged) % TWO32
  }

  lemma CountedTwice(s: Rx, t: Rx, u: Rx, a: nat, p: nat, b: nat, r: nat)
    requires Counted(s, t, a, p) && Counted(t, u, b, r)
    ensures Counted(s, u, a + b, p + r)
  {
    ModAdd(s.bytes + a, b);
    ModAdd(s.dropped + p - a, r - b);
  }

  lemma {:induction false} LineCounted(s: Rx, rounds: seq<Round>, start: word, timeout: word, room: nat,
                                       line: seq<byte>)
    requires Bounded(s)
    ensures Counted(s, Collect(s, rounds, start, timeout, room, line).0,
                    |Staged(s, rounds, start, timeout)|, Popped(s, rounds, start, timeout))
    decreases |rounds|
  {
    hide Pump, Accepted, Expired, Put, Counted;
    if rounds == [] {
      NothingCounted(s);
    } else {
      var b := rounds[0].burst;
      var (a, t) := (Accepted(|s.q|, b.ready), Pump(s, b));
      PumpLaw(s, b);
      PumpCounted(s, b);
      if t.q == [] {
        if !Expired(rounds[0].now, start, timeout) {
          LineCounted(t, rounds[1..], start, timeout, room, line);
          CountedTwice(s, t, Collect(t, rounds[1..], start, timeout, room, line).0, |a|, |b.ready|,
                       |Staged(t, rounds[1..], start, timeout)|, Popped(t, rounds[1..], start, timeout));
        }
      } else {
        RestCounted(s, t, |a|, |b.ready|);
        if t.q[0] != LF {
          var (u, next) := (Rest(t), Put(line, t.q[0], room));
          LineCounted(u, rounds[1..], start, timeout, room, next);
          CountedTwice(s, u, Collect(u, rounds[1..], start, timeout, room, next).0, |a|, |b.ready|,
                       |Staged(u, rounds[1..], start, timeout)|, Popped(u, rounds[1..], start, timeout));
        }
      }
    }
  }

  lemma NothingCounted(s: Rx)
    ensures Counted(s, s, 0, 0)
  {
  }

  lemma PumpCounted(s: Rx, b: Burst)
    requires Bounded(s)
    ensures Counted(s, Pump(s, b), |Accepted(|s.q|, b.ready)|, |b.ready|)
  {
    hide Pump, Accepted;
    PumpLaw(s, b);
  }

  lemma RestCounted(s: Rx, t: Rx, a: nat, p: nat)
    requires t.q != [] && Counted(s, t, a, p)
    ensures Counted(s, Rest(t), a, p)
  {
  }

  lemma OneCall(s: Rx, e: Event)
    requires Bounded(s)
    ensures var (t, m) := (Apply(s, e), Effect(s, e));
            && Bounded(t) && Counted(s, t, |m.staged|, m.popped)
            && m.handed + t.q == s.q + m.staged
  {
    hide Pump, Accepted, Collect, Handed, Staged, Popped;
    match e
    case PumpCall(b) => PumpLaw(s, b); Empty(Pump(s, b).q);
    case GetcCall => if s.q != [] { Front(s.q); } Empty(s.q);
    case ReadCall(n) => Empty(s.q); Parts(s.q, Min(n, |s.q|));
    case LineCall(n, start, timeout, rounds) =>
      Empty(s.q);
      if n > 0 {
        LineConserves(s, rounds, start, timeout, n - 1, []);
        LineCounted(s, rounds, start, timeout, n - 1, []);
      }
  }

  lemma Parts(q: seq<byte>, n: nat)
    requires n <= |q|
    ensures q[..n] + q[n..] == q
  {
  }

  function Run(s: Rx, ev: seq<Event>): Rx
    decreases |ev|
  {
    if ev == [] then s else Run(Apply(s, ev[0]), ev[1..])
  }

  function Total(s: Rx, ev: seq<Event>): Moved
    requires Bounded(s)
    decreases |ev|
  {
    if ev == [] then Moved([], [], 0)
    else
      OneCall(s, ev[0]);
      var (m, rest) := (Effect(s, ev[0]), Total(Apply(s, ev[0]), ev[1..]));
      Moved(m.handed + rest.handed, m.staged + rest.staged, m.popped + rest.popped)
  }

  lemma {:induction false} RunConserves(s: Rx, ev: seq<Event>)
    requires Bounded(s)
    ensures var (t, m) := (Run(s, ev), Total(s, ev));
            && Bounded(t) && Counted(s, t, |m.staged|, m.popped)
            && m.handed + t.q == s.q + m.staged
    decreases |ev|
  {
    hide Apply, Effect, Counted;
    if ev == [] {
      NothingCounted(s);
      Empty(s.q);
    } else {
      OneCall(s, ev[0]);
      var (t, m) := (Apply(s, ev[0]), Effect(s, ev[0]));
      RunConserves(t, ev[1..]);
      var (u, r) := (Run(t, ev[1..]), Total(t, ev[1..]));
      CountedTwice(s, t, u, |m.staged|, m.popped, |r.staged|, r.popped);
      Assoc(m.handed, r.handed, u.q);
      Assoc(m.handed, t.q, r.staged);
      Assoc(s.q, m.staged, r.staged);
    }
  }

  // From reset, over any calls: a queue of at most 255, handing out in order exactly
  // what was staged and is no longer held; staged and dropped bytes add up to those
  // taken from the hardware.
  lemma FromReset(ev: seq<Event>)
    ensures var (t, m) := (Run(Rx([], 0, 0, 0), ev), Total(Rx([], 0, 0, 0), ev));
            && |t.q| <= CAPACITY
            && m.handed + t.q == m.staged
            && (t.bytes + t.dropped) % TWO32 == m.popped % TWO32
            && t.bytes == |m.staged| % TWO32
  {
    hide Run, Total;
    var s := Rx([], 0, 0, 0);
    RunConserves(s, ev);
    var (t, m) := (Run(s, ev), Total(s, ev));
    Empty(m.staged);
    ModAdd(|m.staged|, t.dropped);
    ModAdd(m.popped - |m.staged|, |m.staged|);
  }
}
