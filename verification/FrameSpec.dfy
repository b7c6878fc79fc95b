// The framed link: its wire format, and the receiver as a function of one byte.
module FrameSpec {
  import opened Words
  import opened Seqs
  import opened Crc

  const FLAG: octet := 0x7E
  const ESC: octet := 0x7D
  const MAX_PAYLOAD: nat := 32
  const BODY_MAX: nat := 3 + MAX_PAYLOAD + 2

  const CMD_ECHO: octet := 0x01
  const CMD_STATS: octet := 0x02

  function Octet(n: nat): octet { (n % 0x100) as bv8 }
  function Value(b: octet): nat { b as int }

  lemma OctetValue(n: nat)
    requires n < 0x100
    ensures Value(Octet(n)) == n
  {
  }

  // A message as the peers see it.
  datatype Msg = Msg(seqno: octet, cmd: octet, payload: seq<octet>)

  function Head(m: Msg): seq<octet> { [Octet(|m.payload|), m.seqno, m.cmd] + m.payload }

  function Body(m: Msg): seq<octet> { Head(m) + [Hi(CrcOf(Head(m))), Lo(CrcOf(Head(m)))] }

  function StuffByte(b: octet): seq<octet> {
    if b == FLAG || b == ESC then [ESC, b ^ 0x20] else [b]
  }

  function Stuff(s: seq<octet>): seq<octet> {
    if s == [] then [] else StuffByte(s[0]) + Stuff(s[1..])
  }

  // A stuffed body between its flags.
  function Framed(body: seq<octet>): seq<octet> { [FLAG] + Stuff(body) + [FLAG] }

  function Wire(m: Msg): seq<octet> { Framed(Body(m)) }

  // ------------------------------------------------------ the link's state --

  datatype Frame = Frame(msg: Msg, dup: bool)

  datatype Link = Link(
    body: seq<octet>, inFrame: bool, esc: bool,
    lastSeq: octet, haveLast: bool,
    ok: word, badCrc: word, badLen: word, resync: word, dup: word, tx: word,
    wire: seq<octet>)

  // The state frame_init leaves, with nothing sent yet.
  const FRESH: Link := Link([], false, false, 0, false, 0, 0, 0, 0, 0, 0, [])

  function Send(s: Link, m: Msg): Link { s.(wire := s.wire + Wire(m), tx := Inc(s.tx)) }

  function Nak(s: Link, seqno: octet): Link { Send(s, Msg(seqno, 0x00, [0xFF])) }

  // ------------------------------------------------------ receiving --

  function Delivered(s: Link, n: nat): Frame
    requires |s.body| >= n + 5
  {
    Frame(Msg(s.body[1], s.body[2], s.body[3..3 + n]), s.haveLast && s.body[1] == s.lastSeq)
  }

  // A complete body whose check bytes are wrong: count it and answer with a NAK.
  function Reject(s: Link): Link
    requires |s.body| >= 2
  {
    Nak(s.(badCrc := Inc(s.badCrc)), s.body[1]).(body := [], inFrame := false)
  }

  // A complete body that passes: remember its sequence number.
  function Accept(s: Link, f: Frame): Link {
    s.(dup := if f.dup then Inc(s.dup) else s.dup, lastSeq := f.msg.seqno, haveLast := true,
       ok := Inc(s.ok), body := [], inFrame := false)
  }

  // What a body that may be complete amounts to.
  function Complete(s: Link): (Link, Option<Frame>) {
    if |s.body| < 1 then (s, None)
    else
      var n := Value(s.body[0]);
      if n > MAX_PAYLOAD || |s.body| < n + 5 then (s, None)
      else if CrcOf(s.body[..n + 3]) != Join(s.body[n + 3], s.body[n + 4]) then (Reject(s), None)
      else (Accept(s, Delivered(s, n)), Some(Delivered(s, n)))
  }

  // One unescaped data byte.
  function Data(s: Link, c: octet): (Link, Option<Frame>) {
    if !s.inFrame then (s, None)
    else if |s.body| == 1 && Value(s.body[0]) > MAX_PAYLOAD then (s, None)
    else if |s.body| >= BODY_MAX then
      (Nak(s.(badLen := Inc(s.badLen)), 0).(body := [], inFrame := false), None)
    else
      Grown(s.(body := s.body + [c]), c)
  }

  // The body has just grown by c: an impossible length is refused at once.
  function Grown(t: Link, c: octet): (Link, Option<Frame>) {
    if |t.body| == 1 && Value(c) > MAX_PAYLOAD then (Nak(t.(badLen := Inc(t.badLen)), 0), None)
    else Complete(t)
  }

  // A flag drops whatever was being collected and opens a body.
  function Open(s: Link): Link {
    s.(resync := if s.inFrame && s.body != [] then Inc(s.resync) else s.resync, body := [], inFrame := true)
  }

  // One byte off the wire.
  function Feed(s: Link, c: octet): (Link, Option<Frame>) {
    if s.esc then Data(s.(esc := false), c ^ 0x20)
    else if c == FLAG then (Open(s), None)
    else if c == ESC then (s.(esc := true), None)
    else Data(s, c)
  }

  // frame_poll: bytes are taken until one completes a frame or none are left.
  function Poll(s: Link, q: seq<octet>): (Link, seq<octet>, Option<Frame>)
    decreases |q|
  {
    if q == [] then (s, [], None)
    else
      var (t, f) := Feed(s, q[0]);
      if f.Some? then (t, q[1..], f) else Poll(t, q[1..])
  }

  // ------------------------------------------------------ answering --

  function Stats(s: Link): seq<octet> {
    [Octet(s.ok), Octet(s.badCrc), Octet(s.badLen), Octet(s.resync), Octet(s.dup)]
  }

  // The application's reply to a delivered frame.
  function Handle(s: Link, f: Frame): Link {
    var m := f.msg;
    if f.dup then Send(s, m)
    else if m.cmd == CMD_ECHO then Send(s, m)
    else if m.cmd == CMD_STATS then Send(s, Msg(m.seqno, CMD_STATS, Stats(s)))
    else Nak(s, m.seqno)
  }

  function Answer(r: (Link, Option<Frame>)): (Link, seq<Frame>) {
    match r.1
    case None => (r.0, [])
    case Some(f) => (Handle(r.0, f), [f])
  }

  function Step(s: Link, c: octet): (Link, seq<Frame>) { Answer(Feed(s, c)) }

  // The application on a whole byte stream: the final state and every frame
  // delivered, in order.
  function Run(s: Link, q: seq<octet>): (Link, seq<Frame>)
    decreases |q|
  {
    if q == [] then (s, [])
    else
      var (t, f) := Step(s, q[0]);
      var (u, fs) := Run(t, q[1..]);
      (u, f + fs)
  }
}
