// What each allocator call does to the block list, and what a client sees of it.
module HeapSpec {
  import opened Words
  import opened Seqs
  import opened HeapBlocks

  // The largest arena whose offsets, and sums of sizes within it, fit 32 bits.
  const ARENA_MAX: nat := 0xFFFF_FFF0

  datatype Ptr = Null | At(addr: int)

  // ------------------------------------------------------- request sizes --

  // align_up in 32-bit arithmetic, and the block size computed for a request.
  function AlignUp(n: nat): nat { (n + 7) % TWO32 / 8 * 8 }

  function Need(n: word): nat { AlignUp((HDR + n) % TWO32) }

  // The request does not overflow the size computation.
  predicate Fits32(n: word) { n + 15 < TWO32 }

  function RoundUp8(n: nat): nat { (n + 7) / 8 * 8 }

  lemma NeedExact(n: word)
    ensures Fits32(n) ==> Need(n) == RoundUp8(n) + HDR && n <= RoundUp8(n) < n + 8 && Need(n) % 8 == 0
    ensures Fits32(n) && n > 0 ==> Need(n) >= 16
    ensures !Fits32(n) ==> Need(n) == 0 || Need(n) == 8
    ensures Need(n) == 0 <==> TWO32 - 15 <= n <= TWO32 - 8
  {
    if n + 8 < TWO32 {
      if n + 15 < TWO32 {
        assert (n + 15) / 8 * 8 == (n + 7) / 8 * 8 + 8;
      } else {
        assert (n + 15) % TWO32 == n + 15 - TWO32 < 7;
      }
    } else {
      assert (n + 8) % TWO32 == n + 8 - TWO32 < 8;
    }
  }

  // A block too small for a request holds no more than the request.
  lemma PayloadBelow(payload: nat, n: word)
    requires Fits32(n) && payload % 8 == 0 && payload + HDR < Need(n)
    ensures payload <= n
  {
    NeedExact(n);
    hide Need;
  }

  // ------------------------------------------------------- the operations --

  // Index of the lowest free block of at least `need` bytes, or |bs|.
  function First(bs: seq<Block>, need: nat): (k: nat)
    ensures k <= |bs|
    ensures k < |bs| ==> !bs[k].live && bs[k].Size() >= need
    ensures forall j :: 0 <= j < k ==> bs[j].live || bs[j].Size() < need
  {
    if bs == [] then 0
    else if !bs[0].live && bs[0].Size() >= need then 0
    else 1 + First(bs[1..], need)
  }

  // Index of the block whose payload starts at offset p, or |bs|.
  function Find(bs: seq<Block>, p: int): (k: nat)
    ensures k <= |bs|
  {
    if bs == [] then 0
    else if p == HDR then 0
    else 1 + Find(bs[1..], p - bs[0].Size())
  }

  function Offset(bs: seq<Block>, k: nat): nat
    requires k <= |bs|
  {
    Total(bs[..k])
  }

  // The search for a payload from block k on.
  function FindFrom(bs: seq<Block>, k: nat, p: int): nat
    requires k <= |bs|
  {
    k + Find(bs[k..], p - Offset(bs, k))
  }

  lemma FindFromStart(bs: seq<Block>, p: int)
    ensures FindFrom(bs, 0, p) == Find(bs, p)
  {
    hide Find;
    assert bs[0..] == bs && bs[..0] == [];
  }

  lemma FindFromEnd(bs: seq<Block>, p: int)
    ensures FindFrom(bs, |bs|, p) == |bs|
  {
    hide Offset;
    assert bs[|bs|..] == [];
  }

  lemma FindFromStep(bs: seq<Block>, k: nat, p: int)
    requires k < |bs| && Offset(bs, k + 1) == Offset(bs, k) + bs[k].Size()
    ensures FindFrom(bs, k, p) == if p == Offset(bs, k) + HDR then k else FindFrom(bs, k + 1, p)
  {
    hide Offset;
    assert bs[k..][1..] == bs[k + 1..];
  }

  function Place(bs: seq<Block>, k: nat, need: nat): seq<Block>
    requires k < |bs| && HDR <= need <= bs[k].Size()
  {
    bs[..k] + Carve(bs[k].data, need) + bs[k + 1..]
  }

  function MallocF(bs: seq<Block>, n: word): (seq<Block>, Ptr)
    requires Fits32(n)
  {
    NeedExact(n);
    var k := First(bs, Need(n));
    if n == 0 || Need(n) > Total(bs) || k == |bs| then (bs, Null)
    else (Place(bs, k, Need(n)), At(Offset(bs, k) + HDR))
  }

  // A heap: its blocks, and the caller-error counter (a 32-bit unsigned).
  datatype Mem = Mem(blocks: seq<Block>, errors: word) {
    function Complain(): Mem { Mem(blocks, (errors + 1) % TWO32) }
  }

  // The index found for a pointer, when it names a live block.
  function LiveIndex(bs: seq<Block>, p: Ptr): (k: int)
    ensures -1 <= k < |bs|
    ensures k >= 0 ==> bs[k].live
  {
    if p.At? && Find(bs, p.addr) < |bs| && bs[Find(bs, p.addr)].live then Find(bs, p.addr) else -1
  }

  lemma LiveIndexIs(bs: seq<Block>, p: int)
    ensures var k := Find(bs, p);
            LiveIndex(bs, At(p)) == if k < |bs| && bs[k].live then k else -1
  {
    hide Find;
  }

  function FreeF(m: Mem, p: Ptr): Mem {
    var k := LiveIndex(m.blocks, p);
    if p == Null then m
    else if k < 0 then m.Complain()
    else m.(blocks := Coalesce(m.blocks[k := m.blocks[k].(live := false)]))
  }

  // Overwrite the first bytes of block k's payload.
  function Fill(bs: seq<Block>, k: nat, w: seq<byte>): seq<Block>
    requires k < |bs| && |w| <= |bs[k].data|
  {
    bs[k := bs[k].(data := w + bs[k].data[|w|..])]
  }

  lemma QuotientOf(n: nat, s: nat)
    requires n > 0
    ensures n * s / n == s
  {
    var q := n * s / n;
    assert n * s == n * q + n * s % n;
    if q < s {
      MulMono(q + 1, s, n);
      assert false;
    } else if s < q {
      MulMono(s + 1, q, n);
      assert false;
    }
  }

  // calloc's division test decides exactly whether the product overflowed.
  lemma OverflowTest(n: nat, size: nat)
    requires n > 0
    ensures n * size % TWO32 / n == size <==> n * size < TWO32
  {
    QuotientOf(n, size);
    var t := n * size % TWO32;
    assert t == n * (t / n) + t % n;
  }

  // The product calloc passes on does not overflow malloc's size computation.
  predicate ProductFits(limit: nat, n: word, size: word) {
    n <= limit && size <= limit && n * size < TWO32 ==> Fits32(n * size)
  }

  // In an arena of up to 65528 bytes no product can; the source's has 4096.
  lemma SmallArenaFits(limit: nat, n: word, size: word)
    requires limit <= 65528
    ensures ProductFits(limit, n, size)
    ensures n <= limit && size <= limit ==> n * size < TWO32
  {
    if n <= limit && size <= limit {
      MulMono(n, 65528, size);
      MulMono(size, 65528, 65528);
    }
  }

  function CallocF(bs: seq<Block>, n: word, size: word): (seq<Block>, Ptr)
    requires Sized(bs, MIN_SPLIT) && Total(bs) <= ARENA_MAX && ProductFits(Total(bs), n, size)
  {
    if n == 0 || size == 0 || n > Total(bs) || size > Total(bs) || n * size >= TWO32 then (bs, Null)
    else
      MulMono(1, n, size);
      Cleared(bs, n * size)
  }

  // malloc and zeros over the request.
  function Cleared(bs: seq<Block>, total: word): (seq<Block>, Ptr)
    requires Sized(bs, MIN_SPLIT) && 0 < total && Fits32(total)
  {
    var (out, q) := MallocF(bs, total);
    if q == Null then (bs, Null)
    else
      var k := First(bs, Need(total));
      PlaceAt(bs, k, Need(total), total);
      (Fill(out, k, Repeat<byte>(0, total)), q)
  }

  lemma PlaceAt(bs: seq<Block>, k: nat, need: nat, n: word)
    requires Fits32(n) && 0 < n && need == Need(n)
    requires Sized(bs, MIN_SPLIT) && k < |bs| && need <= bs[k].Size()
    ensures k < |Place(bs, k, need)| && Place(bs, k, need)[k].live
    ensures n <= |Place(bs, k, need)[k].data|
    ensures Place(bs, k, need)[..k] == bs[..k]
    ensures Place(bs, k, need)[k].data <= bs[k].data
  {
    NeedExact(n);
    var c := Carve(bs[k].data, need);
    assert Place(bs, k, need)[k] == c[0];
  }

  function ReallocF(m: Mem, p: Ptr, n: word): (Mem, Ptr)
    requires Sized(m.blocks, MIN_SPLIT) && Fits32(n)
  {
    var bs := m.blocks;
    var k := LiveIndex(bs, p);
    if p == Null then
      var (out, q) := MallocF(bs, n);
      (m.(blocks := out), q)
    else if n == 0 then (FreeF(m, p), Null)
    else if k < 0 then (m.Complain(), Null)
    else
      NeedExact(n);
      var need := Need(n);
      var have := bs[k].Size();
      if need <= have then
        if have - need >= MIN_SPLIT then (m.(blocks := Coalesce(Place(bs, k, need))), p) else (m, p)
      else if k + 1 < |bs| && !bs[k + 1].live && have + bs[k + 1].Size() >= need then
        (m.(blocks := Absorb(bs, k, need)), p)
      else
        var (out, q) := MallocF(bs, n);
        if q == Null then (m, Null)
        else
          var j := First(bs, need);
          PlaceAt(bs, j, need, n);
          (FreeF(m.(blocks := Fill(out, j, bs[k].data)), p), q)
  }

  // Block k takes over its free right neighbour and is cut back to `need`.
  function Absorb(bs: seq<Block>, k: nat, need: nat): seq<Block>
    requires k + 1 < |bs| && HDR <= need <= bs[k].Size() + bs[k + 1].Size()
  {
    bs[..k] + Carve(Merge(bs[k], bs[k + 1]).data, need) + bs[k + 2..]
  }

  // A client's store of one byte at index i of the payload at p.
  function WriteF(m: Mem, p: int, i: nat, v: byte): Mem {
    var k := LiveIndex(m.blocks, At(p));
    if k >= 0 && i < |m.blocks[k].data|
    then m.(blocks := m.blocks[k := m.blocks[k].(data := m.blocks[k].data[i := v])])
    else m
  }

  // ------------------------------------------------- statistics --

  function FreeBytes(bs: seq<Block>): nat {
    if bs == [] then 0
    else (if bs[0].live then 0 else |bs[0].data|) + FreeBytes(bs[1..])
  }

  function LargestFree(bs: seq<Block>): nat {
    if bs == [] then 0
    else
      var r := LargestFree(bs[1..]);
      if !bs[0].live && |bs[0].data| > r then |bs[0].data| else r
  }
}
