// The receiver on top of the ring: each poll first pumps the hardware into the ring
// and then takes bytes from it until a frame completes or the ring is empty.
module FrameRing {
  import opened Words
  import opened Seqs
  import opened FrameSpec
  import opened FrameLaws
  import opened FrameRuns
  import L = FrameLink
  import R = RingSpec
  import U = Ring

  function Octets(s: seq<byte>): (r: seq<octet>)
    ensures |r| == |s|
  {
    seq(|s|, k requires 0 <= k < |s| => Octet(s[k]))
  }

  lemma OctetsAppend(a: seq<byte>, b: seq<byte>)
    ensures Octets(a + b) == Octets(a) + Octets(b)
  {
  }

  // What is left in the ring when `left` bytes have not been taken.
  function Last(q: seq<byte>, left: nat): seq<byte>
    requires left <= |q|
  {
    q[|q| - left..]
  }

  // frame_poll.
  function RingPoll(s: Link, rx: R.Rx, b: R.Burst): (Link, R.Rx, Option<Frame>) {
    var t := R.Pump(rx, b);
    var (u, rest, f) := Poll(s, Octets(t.q));
    PollIsRun(s, Octets(t.q));
    (u, t.(q := Last(t.q, |rest|)), f)
  }

  // The application loop, a burst of arrivals before each poll.
  function RingServe(s: Link, rx: R.Rx, bursts: seq<R.Burst>): (Link, R.Rx, seq<Frame>)
    decreases |bursts|
  {
    if bursts == [] then (s, rx, [])
    else
      var (t, mid, f) := RingPoll(s, rx, bursts[0]);
      var (u, fs) := Answer((t, f));
      var (v, end, gs) := RingServe(u, mid, bursts[1..]);
      (v, end, fs + gs)
  }

  // The bytes the ring takes in each round.
  function Taken(s: Link, rx: R.Rx, bursts: seq<R.Burst>): seq<seq<octet>>
    requires R.Bounded(rx)
    decreases |bursts|
  {
    if bursts == [] then []
    else
      var (t, mid, f) := RingPoll(s, rx, bursts[0]);
      RingPollBounded(s, rx, bursts[0]);
      [Octets(R.Accepted(|rx.q|, bursts[0].ready))] + Taken(Answer((t, f)).0, mid, bursts[1..])
  }

  lemma RingPollBounded(s: Link, rx: R.Rx, b: R.Burst)
    requires R.Bounded(rx)
    ensures R.Bounded(RingPoll(s, rx, b).1)
  {
    hide R.Pump, R.Accepted, Poll;
    R.PumpLaw(rx, b);
    PollIsRun(s, Octets(R.Pump(rx, b).q));
  }

  lemma {:induction false} PollLeaves(s: Link, q: seq<octet>)
    ensures |Poll(s, q).1| <= |q| && Poll(s, q).1 == q[|q| - |Poll(s, q).1|..]
    decreases |q|
  {
    hide Feed;
    if q != [] && Feed(s, q[0]).1.None? {
      PollLeaves(Feed(s, q[0]).0, q[1..]);
    }
  }

  lemma RingPollIs(s: Link, rx: R.Rx, b: R.Burst)
    requires R.Bounded(rx)
    ensures var (t, mid, f) := RingPoll(s, rx, b);
            Poll(s, Octets(rx.q) + Octets(R.Accepted(|rx.q|, b.ready))) == (t, Octets(mid.q), f)
  {
    hide R.Pump, R.Accepted, Poll, Octets, Last;
    R.PumpLaw(rx, b);
    OctetsAppend(rx.q, R.Accepted(|rx.q|, b.ready));
    var q := R.Pump(rx, b).q;
    PollLeaves(s, Octets(q));
    LastOctets(q, Poll(s, Octets(q)).1);
  }

  lemma LastOctets(q: seq<byte>, rest: seq<octet>)
    requires |rest| <= |q| && rest == Octets(q)[|q| - |rest|..]
    ensures Octets(Last(q, |rest|)) == rest
  {
  }

  // The ring is invisible to the protocol: it acts as the bytes it takes, in order.
  lemma {:induction false} RingIsTransparent(s: Link, rx: R.Rx, bursts: seq<R.Burst>)
    requires R.Bounded(rx)
    ensures var (v, end, fs) := RingServe(s, rx, bursts);
            Serve(s, Octets(rx.q), Taken(s, rx, bursts)) == (v, Octets(end.q), fs)
    decreases |bursts|
  {
    hide RingPoll, Poll, Answer;
    if bursts != [] {
      var (t, mid, f) := RingPoll(s, rx, bursts[0]);
      RingPollIs(s, rx, bursts[0]);
      RingPollBounded(s, rx, bursts[0]);
      RingIsTransparent(Answer((t, f)).0, mid, bursts[1..]);
      var u := Answer((t, f)).0;
      var c := Octets(R.Accepted(|rx.q|, bursts[0].ready));
      assert Taken(s, rx, bursts)[0] == c && Taken(s, rx, bursts)[1..] == Taken(u, mid, bursts[1..]);
    }
  }

  // Each burst finds room for all of its bytes.
  predicate Fits(s: Link, rx: R.Rx, bursts: seq<R.Burst>)
    decreases |bursts|
  {
    bursts == []
    || (|rx.q| + |bursts[0].ready| <= R.CAPACITY
        && var (t, mid, f) := RingPoll(s, rx, bursts[0]);
           Fits(Answer((t, f)).0, mid, bursts[1..]))
  }

  function Arrivals(bursts: seq<R.Burst>): seq<octet>
    decreases |bursts|
  {
    if bursts == [] then [] else Octets(R.BytesOf(bursts[0].ready)) + Arrivals(bursts[1..])
  }

  // Then nothing is dropped, and the bytes taken are those that arrived.
  lemma {:induction false} NothingDropped(s: Link, rx: R.Rx, bursts: seq<R.Burst>)
    requires R.Bounded(rx) && Fits(s, rx, bursts)
    ensures Flat(Taken(s, rx, bursts)) == Arrivals(bursts)
    ensures RingServe(s, rx, bursts).1.dropped == rx.dropped
    decreases |bursts|
  {
    hide RingPoll, Poll, Answer;
    if bursts != [] {
      var (t, mid, f) := RingPoll(s, rx, bursts[0]);
      RingPollBounded(s, rx, bursts[0]);
      RoomForAll(s, rx, bursts[0]);
      var u := Answer((t, f)).0;
      NothingDropped(u, mid, bursts[1..]);
      assert Taken(s, rx, bursts)[1..] == Taken(u, mid, bursts[1..]);
    }
  }

  lemma RoomForAll(s: Link, rx: R.Rx, b: R.Burst)
    requires |rx.q| + |b.ready| <= R.CAPACITY
    ensures R.Accepted(|rx.q|, b.ready) == R.BytesOf(b.ready)
    ensures RingPoll(s, rx, b).1.dropped == rx.dropped
  {
    R.PumpLaw(rx, b);
    var a := R.BytesOf(b.ready);
    assert a[..|a|] == a;
    hide R.Pump, Poll;
    assert (rx.dropped + |b.ready| - |a|) % TWO32 == rx.dropped;
  }

  // End to end: messages sent back to back, arriving in any bursts that fit the ring,
  // are delivered exactly, in order, without an error, once the ring has been read.
  lemma FramesCrossTheRing(ms: seq<Msg>, bursts: seq<R.Burst>)
    requires forall i :: 0 <= i < |ms| ==> |ms[i].payload| <= MAX_PAYLOAD
    requires Arrivals(bursts) == Wires(ms) && Fits(FRESH, R.Rx([], 0, 0, 0), bursts)
    ensures var (v, end, fs) := RingServe(FRESH, R.Rx([], 0, 0, 0), bursts);
            && end.dropped == 0
            && (end.q == [] ==>
                  && fs == Marked(ms, false, 0)
                  && v.ok == |ms| % TWO32 && v.badCrc == 0 && v.badLen == 0 && v.resync == 0)
  {
    hide RingServe, Taken, Fits, Wires, Serve, Arrivals;
    var rx := R.Rx([], 0, 0, 0);
    NothingDropped(FRESH, rx, bursts);
    RingIsTransparent(FRESH, rx, bursts);
    assert Octets([]) == [];
    SentIsReceived(ms, Taken(FRESH, rx, bursts));
  }

  // ------------------------------------------------------ as it runs --

  // One byte taken from the ring.
  lemma PollFirst(s: Link, q: seq<byte>)
    requires q != []
    ensures Octets(q) == [Octet(q[0])] + Octets(q[1..])
    ensures Poll(s, Octets(q)) ==
            var (t, f) := Feed(s, Octet(q[0]));
            if f.Some? then (t, Octets(q[1..]), f) else Poll(t, Octets(q[1..]))
  {
    hide Feed;
    assert Octets(q) == [Octet(q[0])] + Octets(q[1..]);
    assert Octets(q)[1..] == Octets(q[1..]);
  }

  // The polling loop, byte by byte from the ring's queue.
  function Drain(s: Link, rx: R.Rx): (Link, R.Rx, Option<Frame>)
    decreases |rx.q|
  {
    if rx.q == [] then (s, rx, None)
    else
      var (t, f) := Feed(s, Octet(rx.q[0]));
      if f.Some? then (t, R.Rest(rx), f) else Drain(t, R.Rest(rx))
  }

  lemma {:induction false} DrainIsPoll(s: Link, rx: R.Rx)
    ensures var (u, rest, f) := Poll(s, Octets(rx.q));
            |rest| <= |rx.q| && Drain(s, rx) == (u, rx.(q := Last(rx.q, |rest|)), f)
    decreases |rx.q|
  {
    hide Feed, Octets, Poll, Last;
    PollIsRun(s, Octets(rx.q));
    LastRest(rx.q, |Poll(s, Octets(rx.q)).1|);
    if rx.q == [] {
      PollNone(s);
    } else {
      PollFirst(s, rx.q);
      var (t, f) := Feed(s, Octet(rx.q[0]));
      if f.None? { DrainIsPoll(t, R.Rest(rx)); }
    }
  }

  lemma LastRest(q: seq<byte>, n: nat)
    requires n <= |q|
    ensures Last(q, |q|) == q
    ensures n < |q| ==> Last(q, n) == Last(q[1..], n) && Last(q, |q| - 1) == q[1..]
  {
  }

  lemma PollNone(s: Link)
    ensures Poll(s, Octets([])) == (s, [], None)
  {
    assert Octets([]) == [];
  }

  // frame_poll over the real ring: pump, then take bytes until one completes a frame or
  // none are left.
  method PollRing(peer: L.Peer, rx: U.UartRx, b: R.Burst) returns (f: Option<Frame>)
    requires peer.Valid() && rx.Valid()
    modifies peer, peer.body, rx, rx.ring
    ensures peer.Valid() && peer.input == old(peer.input)
    ensures (peer.View(), rx.View(), f) == RingPoll(old(peer.View()), old(rx.View()), b)
    ensures f.Some? ==> |f.value.msg.payload| <= MAX_PAYLOAD
  {
    hide Feed, Poll, R.Pump, Octets, Last, L.Peer.View, U.UartRx.View;
    rx.PumpNow(b);
    DrainIsPoll(peer.View(), rx.View());
    ghost var end := Drain(peer.View(), rx.View());
    while true
      invariant peer.Valid() && peer.input == old(peer.input)
      invariant Drain(peer.View(), rx.View()) == end
      decreases |rx.View().q|
    {
      var c := rx.Getc();
      if c < 0 { break; }
      f := peer.TakeByte(Octet(c));
      if f.Some? { return; }
    }
    f := None;
  }

  // The application over the real ring: a burst, a poll, and the answer.
  method ServeRing(peer: L.Peer, rx: U.UartRx, bursts: seq<R.Burst>) returns (frames: seq<Frame>)
    requires peer.Valid() && rx.Valid()
    modifies peer, peer.body, rx, rx.ring
    ensures peer.Valid()
    ensures (peer.View(), rx.View(), frames) == RingServe(old(peer.View()), old(rx.View()), bursts)
  {
    hide RingPoll, Handle;
    frames := [];
    ghost var whole := RingServe(peer.View(), rx.View(), bursts);
    assert bursts[0..] == bursts;
    Empty(whole.2);
    for i := 0 to |bursts|
      invariant peer.Valid()
      invariant var (v, end, gs) := RingServe(peer.View(), rx.View(), bursts[i..]);
                whole == (v, end, frames + gs)
    {
      ServeStep(peer.View(), rx.View(), bursts, i, frames);
      var f := PollRing(peer, rx, bursts[i]);
      if f.Some? {
        peer.Answer(f.value);
        frames := frames + [f.value];
      } else {
        Empty(frames);
      }
    }
    assert bursts[|bursts|..] == [];
    Empty(frames);
  }

  lemma ServeStep(s: Link, rx: R.Rx, bursts: seq<R.Burst>, i: nat, before: seq<Frame>)
    requires i < |bursts|
    ensures var (t, mid, f) := RingPoll(s, rx, bursts[i]);
            var (u, fs) := Answer((t, f));
            var (v, end, gs) := RingServe(s, rx, bursts[i..]);
            var (v2, end2, gs2) := RingServe(u, mid, bursts[i + 1..]);
            v == v2 && end == end2 && before + gs == before + fs + gs2
  {
    hide RingPoll, Handle;
    assert bursts[i..][1..] == bursts[i + 1..];
    var (t, mid, f) := RingPoll(s, rx, bursts[i]);
    var (u, fs) := Answer((t, f));
    Assoc(before, fs, RingServe(u, mid, bursts[i + 1..]).2);
  }
}
