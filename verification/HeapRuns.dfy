// Whole runs of the allocator, interleaved with client stores, refine a simple
// memory: a map from payload address to bytes.
module HeapRuns {
  import opened Words
  import opened Seqs
  import opened HeapBlocks
  import opened HeapSpec
  import opened HeapLaws
  import opened HeapCheck
  import H = Heap

  datatype Op =
    | Malloc(n: word)
    | Free(p: Ptr)
    | Calloc(n: word, size: word)
    | Realloc(p: Ptr, n: word)
    | Write(addr: int, i: nat, v: byte)

  // The request does not overflow a size computation.
  predicate InRange(op: Op, limit: nat) {
    match op
    case Malloc(n) => Fits32(n)
    case Calloc(n, size) => ProductFits(limit, n, size)
    case Realloc(p, n) => Fits32(n)
    case _ => true
  }

  ghost predicate Sound(m: Mem, limit: nat) {
    WellFormed(m.blocks, limit) && limit <= ARENA_MAX
  }

  ghost function Step(m: Mem, op: Op): (Mem, Ptr)
    requires Sound(m, Total(m.blocks)) && InRange(op, Total(m.blocks))
  {
    match op
    case Malloc(n) => var (out, q) := MallocF(m.blocks, n); (m.(blocks := out), q)
    case Free(p) => (FreeF(m, p), Null)
    case Calloc(n, size) => var (out, q) := CallocF(m.blocks, n, size); (m.(blocks := out), q)
    case Realloc(p, n) => ReallocF(m, p, n)
    case Write(a, i, v) => (WriteF(m, a, i, v), Null)
  }

  type Memory = map<int, seq<byte>>

  // A new block of n bytes, rounded up, at an address not in use, is all that changes.
  ghost predicate Granted(was: Memory, n: nat, q: Ptr, now: Memory) {
    match q
    case Null => now == was
    case At(a) => a !in was && a in now && now == was[a := now[a]] && Snug(|now[a]|, n)
  }

  function Stored(s: seq<byte>, i: nat, v: byte): seq<byte>
    requires i < |s|
  {
    s[i := v]
  }

  // What each call may do to the client's memory.
  ghost predicate Allowed(was: Memory, op: Op, q: Ptr, now: Memory) {
    match op
    case Malloc(n) => Granted(was, n, q, now)
    case Calloc(n, size) => Granted(was, n * size, q, now) && (q.At? ==> Repeat<byte>(0, n * size) <= now[q.addr])
    case Free(p) => now == if p.At? then was - {p.addr} else was
    case Realloc(p, n) =>
      if p == Null then Granted(was, n, q, now)
      else if p.addr !in was then q == Null && now == was
      else if n == 0 then q == Null && now == was - {p.addr}
      else Moved(was, p.addr, n, q, now)
    case Write(a, i, v) =>
      now == if a in was && i < |was[a]| then was[a := Stored(was[a], i, v)] else was
  }

  lemma WriteLaw(m: Mem, a: int, i: nat, v: byte, limit: nat)
    requires WellFormed(m.blocks, limit)
    ensures WellFormed(WriteF(m, a, i, v).blocks, limit)
    ensures Allowed(Live(m.blocks), Write(a, i, v), Null, Live(WriteF(m, a, i, v).blocks))
  {
    LiveIndexIsKey(m.blocks, At(a));
    var k := LiveIndex(m.blocks, At(a));
    if k >= 0 && i < |m.blocks[k].data| {
      SetDataLaw(m.blocks, k, m.blocks[k].data[i := v], limit);
    }
  }

  // Every call keeps the arena well formed and does what the memory model allows.
  lemma StepLaw(m: Mem, op: Op, limit: nat)
    requires Sound(m, limit) && InRange(op, limit)
    ensures Sound(m, Total(m.blocks))
    ensures Sound(Step(m, op).0, limit)
    ensures Allowed(Live(m.blocks), op, Step(m, op).1, Live(Step(m, op).0.blocks))
  {
    hide Lives, Coalesce, First, Find, Carve, Total;
    match op
    case Malloc(n) =>
      MallocLaw(m.blocks, n, limit);
      NeedExact(n);
    case Calloc(n, size) =>
      CallocLaw(m.blocks, n, size, limit);
    case Free(p) =>
      FreeLaw(m, p, limit);
    case Write(a, i, v) =>
      WriteLaw(m, a, i, v, limit);
    case Realloc(p, n) =>
      LiveIndexIsKey(m.blocks, p);
      if p == Null {
        MallocLaw(m.blocks, n, limit);
        NeedExact(n);
      } else if n == 0 {
        FreeLaw(m, p, limit);
      } else if p.addr in Live(m.blocks) {
        ReallocLaw(m, p, n, limit);
      }
  }

  // ------------------------------------------------------ runs --

  ghost predicate AllInRange(ops: seq<Op>, limit: nat) {
    forall i :: 0 <= i < |ops| ==> InRange(ops[i], limit)
  }

  ghost function Run(m: Mem, ops: seq<Op>): Mem
    requires Sound(m, Total(m.blocks)) && AllInRange(ops, Total(m.blocks))
    decreases |ops|
  {
    if ops == [] then m
    else
      StepLaw(m, ops[0], Total(m.blocks));
      Run(Step(m, ops[0]).0, ops[1..])
  }

  // Each step of the run is one the memory model allows.
  ghost predicate Refines(m: Mem, ops: seq<Op>)
    requires Sound(m, Total(m.blocks)) && AllInRange(ops, Total(m.blocks))
    decreases |ops|
  {
    ops == [] ||
    (StepLaw(m, ops[0], Total(m.blocks));
     var (next, q) := Step(m, ops[0]);
     Allowed(Live(m.blocks), ops[0], q, Live(next.blocks)) && Refines(next, ops[1..]))
  }

  // A heap fresh from heap_init: one free block over whatever bytes were there.
  function Init(stale: seq<byte>): Mem { Mem([Block(false, stale)], 0) }

  // From a sound heap, every run of calls and client stores ends in an arena that
  // heap_check accepts, with the live blocks 8-aligned, in bounds and disjoint,
  // and every step on the way is one the memory model allows.
  lemma {:induction false} RunLaw(m: Mem, ops: seq<Op>, limit: nat)
    requires Sound(m, limit) && AllInRange(ops, limit)
    ensures Sound(m, Total(m.blocks))
    ensures Sound(Run(m, ops), limit) && Refines(m, ops)
    ensures Coherent(Encode(Run(m, ops).blocks)) && |Encode(Run(m, ops).blocks)| == limit
    ensures Separated(Live(Run(m, ops).blocks), 0, limit)
    decreases |ops|
  {
    hide Step, Allowed, Lives, Separated;
    if ops == [] {
      EncodeLength(m.blocks);
      assert Sized(m.blocks, HDR);
      LivesSeparated(m.blocks, 0);
    } else {
      StepLaw(m, ops[0], limit);
      RunLaw(Step(m, ops[0]).0, ops[1..], limit);
    }
  }

  lemma EveryRunFromInit(stale: seq<byte>, ops: seq<Op>)
    requires |stale| % 8 == 0 && 8 <= |stale| && HDR + |stale| <= ARENA_MAX && AllInRange(ops, HDR + |stale|)
    ensures Sound(Init(stale), Total(Init(stale).blocks))
    ensures var m := Run(Init(stale), ops);
            && Coherent(Encode(m.blocks))
            && Separated(Live(m.blocks), 0, HDR + |stale|)
            && Refines(Init(stale), ops)
  {
    TotalTwo(Block(false, stale), Block(false, stale));
    RunLaw(Init(stale), ops, HDR + |stale|);
  }

  // ------------------------------------------------------ caller errors --

  // The call names a block that is not live.
  ghost predicate Wild(was: Memory, op: Op) {
    match op
    case Free(p) => p.At? && p.addr !in was
    case Realloc(p, _) => p.At? && p.addr !in was
    case _ => false
  }

  lemma StepErrors(m: Mem, op: Op, limit: nat)
    requires Sound(m, limit) && InRange(op, limit)
    ensures Sound(m, Total(m.blocks))
    ensures Step(m, op).0.errors == if Wild(Live(m.blocks), op) then (m.errors + 1) % TWO32 else m.errors
  {
    assert Sound(m, Total(m.blocks));
    hide Live, FreeF, MallocF, CallocF, ReallocF, WellFormed;
    match op
    case Free(p) =>
      FreeLaw(m, p, limit);
    case Realloc(p, n) =>
      if p == Null {
        ReallocNull(m, n, limit);
      } else {
        ReallocEdges(m, p, n, limit);
        if p.addr in Live(m.blocks) && n > 0 { ReallocLaw(m, p, n, limit); }
      }
    case _ =>
  }

  // Wild calls along a run.
  ghost function WildCalls(m: Mem, ops: seq<Op>): nat
    requires Sound(m, Total(m.blocks)) && AllInRange(ops, Total(m.blocks))
    decreases |ops|
  {
    if ops == [] then 0
    else
      StepLaw(m, ops[0], Total(m.blocks));
      (if Wild(Live(m.blocks), ops[0]) then 1 else 0) + WildCalls(Step(m, ops[0]).0, ops[1..])
  }

  // Over any run, the error counter moves on by exactly the double and wild frees and
  // reallocs.
  lemma {:induction false} ErrorsAreWildCalls(m: Mem, ops: seq<Op>, limit: nat)
    requires Sound(m, limit) && AllInRange(ops, limit)
    ensures Sound(m, Total(m.blocks))
    ensures Run(m, ops).errors == (m.errors + WildCalls(m, ops)) % TWO32
    decreases |ops|
  {
    hide Step, Wild, Live;
    if ops != [] {
      StepLaw(m, ops[0], limit);
      StepErrors(m, ops[0], limit);
      ErrorsAreWildCalls(Step(m, ops[0]).0, ops[1..], limit);
      ModAdd(m.errors + 1, WildCalls(Step(m, ops[0]).0, ops[1..]));
    }
  }

  // ------------------------------------------------------ the soak --

  // One operation on the real arena.
  method Perform(h: H.Heap, op: Op) returns (q: Ptr)
    requires h.Valid() && InRange(op, h.limit)
    requires op.Write? ==> op.addr in Live(h.blocks) && op.i < |Live(h.blocks)[op.addr]|
    modifies h`blocks, h`errors, h.arena
    ensures h.Valid() && Sound(old(h.View()), h.limit)
    ensures (h.View(), q) == Step(old(h.View()), op)
  {
    hide Lives, Coalesce, First, Find, Carve, Encode, MallocF, CallocF, ReallocF, FreeF;
    q := Null;
    match op {
      case Malloc(n) => q := h.Malloc(n);
      case Free(p) => h.Free(p);
      case Calloc(n, size) => q := h.Calloc(n, size);
      case Realloc(p, n) => q := h.Realloc(p, n);
      case Write(a, i, v) => h.Write(a, i, v);
    }
  }

  // Clients store only inside payloads that are live at that point of the run.
  ghost predicate Polite(m: Mem, ops: seq<Op>)
    requires Sound(m, Total(m.blocks)) && AllInRange(ops, Total(m.blocks))
    decreases |ops|
  {
    ops == [] ||
    (StepLaw(m, ops[0], Total(m.blocks));
     && (ops[0].Write? ==> ops[0].addr in Live(m.blocks) && ops[0].i < |Live(m.blocks)[ops[0].addr]|)
     && Polite(Step(m, ops[0]).0, ops[1..]))
  }

  // The soak: heap_check after every operation of any run, and it never fails.
  method Soak(h: H.Heap, ops: seq<Op>) returns (ok: bool)
    requires h.Valid() && AllInRange(ops, h.limit) && Polite(h.View(), ops)
    modifies h`blocks, h`errors, h.arena
    ensures h.Valid() && Sound(old(h.View()), h.limit)
    ensures ok && h.View() == Run(old(h.View()), ops)
  {
    hide Step, Lives, Encode;
    ok := true;
    var i := 0;
    ghost var start := h.View();
    assert ops[0..] == ops;
    while i < |ops|
      invariant i <= |ops| && h.Valid() && ok
      invariant Polite(h.View(), ops[i..]) && Run(h.View(), ops[i..]) == Run(start, ops)
    {
      assert ops[i..][0] == ops[i] && ops[i..][1..] == ops[i + 1..];
      StepLaw(h.View(), ops[i], h.limit);
      var q := Perform(h, ops[i]);
      var good := h.CheckPasses();
      if !good { ok := false; }
      i := i + 1;
    }
  }

  // ------------------------------------------------------ accounting --

  function FreeCount(bs: seq<Block>): nat {
    if bs == [] then 0 else (if bs[0].live then 0 else 1) + FreeCount(bs[1..])
  }

  function LiveSize(bs: seq<Block>): nat {
    if bs == [] then 0 else (if bs[0].live then bs[0].Size() else 0) + LiveSize(bs[1..])
  }

  // Free payload, one header per free block, and the live blocks make up the arena.
  lemma {:induction false} SpaceIsConserved(bs: seq<Block>)
    ensures FreeBytes(bs) + HDR * FreeCount(bs) + LiveSize(bs) == Total(bs)
  {
    if bs != [] { SpaceIsConserved(bs[1..]); }
  }

  lemma LiveHasKey(bs: seq<Block>, k: nat)
    requires k < |bs| && bs[k].live
    ensures Total(bs[..k]) + HDR in Live(bs)
  {
    assert bs == bs[..k] + [bs[k]] + bs[k + 1..];
    LivesSplit(bs[..k], [bs[k]], bs[k + 1..]);
    LivesOne(bs[k], Total(bs[..k]));
  }

  lemma NoneLive(bs: seq<Block>, k: nat)
    requires k < |bs| && Live(bs) == map[]
    ensures !bs[k].live
  {
    if bs[k].live { LiveHasKey(bs, k); }
  }

  // With nothing live, the whole arena is one free block again.
  lemma EmptyHeapIsOneBlock(bs: seq<Block>, limit: nat)
    requires WellFormed(bs, limit) && limit > 0 && Live(bs) == map[]
    ensures |bs| == 1 && !bs[0].live && LargestFree(bs) == limit - HDR
  {
    if |bs| >= 2 {
      NoneLive(bs, 0);
      NoneLive(bs, 1);
    }
    NoneLive(bs, 0);
    assert bs == [bs[0]];
    TotalTwo(bs[0], bs[0]);
    assert LargestFree(bs[1..]) == 0;
  }

  // Freeing every live block, in any order, gives the whole arena back without a
  // complaint.
  lemma {:induction false} FreeEverything(m: Mem, ps: seq<int>, limit: nat)
    requires Sound(m, limit) && limit > 0
    requires forall i, j :: 0 <= i < j < |ps| ==> ps[i] != ps[j]
    requires Live(m.blocks).Keys == set i | 0 <= i < |ps| :: ps[i]
    ensures AllInRange(Frees(ps), limit) && Sound(m, Total(m.blocks))
    ensures var end := Run(m, Frees(ps));
            |end.blocks| == 1 && LargestFree(end.blocks) == limit - HDR && end.errors == m.errors
    decreases |ps|
  {
    if ps == [] {
      assert Live(m.blocks) == map[];
      EmptyHeapIsOneBlock(m.blocks, limit);
    } else {
      hide FreeF, WellFormed, Lives, Sound, Total, FreeCount;
      SoundFree(m, ps[0], limit);
      var (next, rest) := (FreeF(m, At(ps[0])), ps[1..]);
      KeysLeft(Live(m.blocks), ps, Live(next.blocks));
      FreeEverything(next, rest, limit);
      assert Frees(ps)[1..] == Frees(rest);
    }
  }

  lemma SoundFree(m: Mem, p: int, limit: nat)
    requires Sound(m, limit) && p in Live(m.blocks)
    ensures Sound(m, Total(m.blocks)) && Total(m.blocks) == limit
    ensures var next := FreeF(m, At(p));
            Sound(next, limit) && Live(next.blocks) == Live(m.blocks) - {p} && next.errors == m.errors
  {
    FreeLaw(m, At(p), limit);
  }

  lemma KeysLeft(was: map<int, seq<byte>>, ps: seq<int>, now: map<int, seq<byte>>)
    requires ps != [] && now == was - {ps[0]}
    requires forall i, j :: 0 <= i < j < |ps| ==> ps[i] != ps[j]
    requires was.Keys == set i | 0 <= i < |ps| :: ps[i]
    ensures now.Keys == set i | 0 <= i < |ps[1..]| :: ps[1..][i]
  {
    var rest := ps[1..];
    forall p
      ensures p in now.Keys <==> p in set i | 0 <= i < |rest| :: rest[i]
    {
      if p in now.Keys {
        var i :| 0 <= i < |ps| && ps[i] == p;
        assert i > 0 && rest[i - 1] == p;
      }
      if p in set i | 0 <= i < |rest| :: rest[i] {
        var i :| 0 <= i < |rest| && rest[i] == p;
        assert ps[i + 1] == p;
      }
    }
  }

  function Frees(ps: seq<int>): seq<Op> {
    seq(|ps|, i requires 0 <= i < |ps| => Free(At(ps[i])))
  }
}
