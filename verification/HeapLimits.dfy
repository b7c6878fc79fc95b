// Requests near 2^32, whose size computation wraps: what malloc and realloc leave
// behind, and exactly which requests they serve.
module HeapLimits {
  import opened Words
  import opened Seqs
  import opened HeapBlocks
  import opened HeapSpec
  import opened HeapLaws
  import opened HeapCheck

  // ------------------------------------------------- requests near 2^32 --

  // A walk that succeeds gets past every block in front of it.
  lemma {:induction false} WalkReaches(p: seq<byte>, pre: seq<Block>, r: seq<byte>, prevFree: bool) returns (free: bool)
    requires Sized(pre, HDR) && |p| % 8 == 0 && |p + Encode(pre) + r| % 8 == 0 && Total(pre) < TWO32
    requires WalkOk(p + Encode(pre) + r, |p|, prevFree)
    ensures |p + Encode(pre)| % 8 == 0
    ensures WalkOk(p + Encode(pre) + r, |p + Encode(pre)|, free)
    decreases |pre|
  {
    hide Block.Bytes, SizeIn, MagicIn;
    if pre == [] {
      free := prevFree;
      assert p + Encode(pre) == p;
    } else {
      var b, rest := pre[0], pre[1..];
      HeaderIn(p, b, Encode(rest) + r);
      Assoc(p, b.Bytes(), Encode(rest));
      Assoc(p + b.Bytes(), Encode(rest), r);
      SumOfEights(|p|, b.Size());
      assert p + b.Bytes() + (Encode(rest) + r) == p + Encode(pre) + r;
      free := WalkReaches(p + b.Bytes(), rest, r, !b.live);
    }
  }

  lemma ZeroedHeader(e: seq<byte>, off: nat, size: nat, s: seq<byte>, f: seq<byte>, z: seq<byte>, u: seq<byte>)
    requires |s| == |f| == |z| == |u| == 4 && off + 8 <= |e|
    ensures var a := Patch(Patch(Patch(Patch(e, off, s), off + 4, f), off, z), off + 4, u);
            a[off..off + 4] == z && a[..off] == e[..off]
  {
  }

  lemma ZeroSizePlaced(bs: seq<Block>, k: nat)
    requires k < |bs| && Sized(bs, MIN_SPLIT) && Total(bs) < TWO32
    ensures var (a, off) := (PlaceImage(bs, k, 0), Offset(bs, k));
            && |a| == Total(bs) && off + HDR <= |a| && off == |Encode(bs[..k])|
            && SizeIn(a, off) == 0 && a[..off] == Encode(bs[..k])
  {
    hide Block.Bytes, StoreLE, LoadLE, Encode, Total;
    Parts(bs, k);
    var size := bs[k].Size();
    assert size >= MIN_SPLIT;
    hide Sized;
    ZeroedHeader(Encode(bs), Offset(bs, k), size, StoreLE(size), StoreLE(MAGIC_FREE), StoreLE(0), StoreLE(MAGIC_USED));
    LoadStore(0);
    assert Encode(bs)[..Offset(bs, k)] == Encode(bs[..k]);
  }

  // Block k's new header, with its size field zeroed, stops the walk for good.
  lemma ZeroSizeFails(bs: seq<Block>, k: nat)
    requires k < |bs| && Sized(bs, MIN_SPLIT) && Total(bs) < TWO32
    ensures Total(bs) % 8 == 0
    ensures SizeIn(PlaceImage(bs, k, 0), Offset(bs, k)) == 0
    ensures !WalkOk(PlaceImage(bs, k, 0), 0, false)
  {
    hide PlaceImage, Encode, Offset, SizeIn, MagicIn, Total, Sized;
    ZeroSizePlaced(bs, k);
    TotalPrefix(bs, k);
    var (a, off) := (PlaceImage(bs, k, 0), Offset(bs, k));
    if WalkOk(a, 0, false) {
      var free := WalkPast(bs[..k], a);
    }
  }

  lemma WalkPast(pre: seq<Block>, a: seq<byte>) returns (free: bool)
    requires Sized(pre, HDR) && Total(pre) < TWO32 && |a| % 8 == 0
    requires |Encode(pre)| <= |a| && a[..|Encode(pre)|] == Encode(pre) && WalkOk(a, 0, false)
    ensures |Encode(pre)| % 8 == 0 && WalkOk(a, |Encode(pre)|, free)
  {
    hide Encode, SizeIn, MagicIn, WalkOk, Total, Sized;
    var (e, r) := (Encode(pre), a[|Encode(pre)|..]);
    assert [] + e + r == a && [] + e == e;
    free := WalkReaches([], pre, r, false);
  }

  lemma TotalPrefix(bs: seq<Block>, k: nat)
    requires k < |bs| && Sized(bs, MIN_SPLIT)
    ensures Total(bs[..k]) <= Total(bs) && Sized(bs[..k], HDR) && Total(bs) % 8 == 0
  {
    hide Encode;
    TotalAligned(bs);
    Parts(bs, k);
  }

  // Placing any aligned size keeps every size aligned and at least a header.
  lemma PlaceAligned(bs: seq<Block>, k: nat, need: nat)
    requires Sized(bs, MIN_SPLIT) && k < |bs| && HDR <= need <= bs[k].Size() && need % 8 == 0
    ensures Sized(Place(bs, k, need), HDR) && Total(Place(bs, k, need)) == Total(bs)
    ensures k < |Place(bs, k, need)| && Place(bs, k, need)[k] == Carve(bs[k].data, need)[0]
    ensures Place(bs, k, need)[..k] == bs[..k]
  {
    var c := Carve(bs[k].data, need);
    CarveShape(bs[k].data, need);
    assert c != [] && Place(bs, k, need) == bs[..k] + c + bs[k + 1..] && Total(c) == bs[k].Size();
    hide *;
    SizedAround(bs, k, c);
    TotalAround(bs, k, c);
    FrontOf(bs[..k], c, bs[k + 1..]);
  }

  lemma FrontOf(pre: seq<Block>, c: seq<Block>, post: seq<Block>)
    requires c != []
    ensures (pre + c + post)[|pre|] == c[0] && (pre + c + post)[..|pre|] == pre
  {
  }

  lemma TotalAround(bs: seq<Block>, k: nat, c: seq<Block>)
    requires k < |bs| && Total(c) == bs[k].Size()
    ensures Total(bs[..k] + c + bs[k + 1..]) == Total(bs)
  {
    hide Encode, Total;
    var (pre, post) := (bs[..k], bs[k + 1..]);
    EncodeSplit(pre, c, post);
    EncodeSplit(pre, [bs[k]], post);
    EncodeOne(bs[k]);
    assert bs == pre + [bs[k]] + post;
  }

  lemma SizedAround(bs: seq<Block>, k: nat, c: seq<Block>)
    requires k < |bs| && Sized(bs, MIN_SPLIT) && Sized(c, HDR)
    ensures Sized(bs[..k] + c + bs[k + 1..], HDR)
  {
    var b := bs[..k] + c + bs[k + 1..];
    forall i | 0 <= i < |b|
      ensures b[i].Size() % 8 == 0 && b[i].Size() >= HDR
    {
      SameBlock(bs, k, c, i);
    }
  }

  lemma SameBlock(bs: seq<Block>, k: nat, c: seq<Block>, i: nat)
    requires k < |bs| && i < |bs[..k] + c + bs[k + 1..]|
    ensures var b := bs[..k] + c + bs[k + 1..];
            || (i < k && b[i] == bs[i]) || (k <= i < k + |c| && b[i] == c[i - k])
            || (i >= k + |c| && b[i] == bs[i - |c| + 1])
  {
  }

  lemma PlaceTidy(bs: seq<Block>, k: nat, need: nat)
    requires Tidy(bs) && k < |bs| && !bs[k].live && HDR <= need <= bs[k].Size()
    ensures Tidy(Place(bs, k, need))
  {
    var (pre, c, post) := (bs[..k], Carve(bs[k].data, need), bs[k + 1..]);
    assert c[0].live;
    assert post != [] ==> post[0].live;
    hide Carve;
    TidyJoin(pre, c, post);
  }

  lemma PlaceCoherent(bs: seq<Block>, k: nat, need: nat, n: nat)
    requires WellFormed(bs, n) && n < TWO32 && k < |bs| && !bs[k].live
    requires HDR <= need <= bs[k].Size() && need % 8 == 0
    ensures Coherent(PlaceImage(bs, k, need))
    ensures SizeIn(PlaceImage(bs, k, need), Offset(bs, k)) == Carve(bs[k].data, need)[0].Size()
  {
    hide Block.Bytes, StoreLE, LoadLE, Encode, Place, PlaceImage, Carve, Total, Sized, Tidy;
    PlaceAligned(bs, k, need);
    PlaceTidy(bs, k, need);
    PlaceImageIs(bs, k, need);
    var b := Place(bs, k, need);
    assert Encode(b) == PlaceImage(bs, k, need);
    BlockAt(b, k);
  }

  // When a block is found for a request of n bytes: heap_check still passes
  // afterwards unless n lies in [2^32 - 15, 2^32 - 8], where the computed size
  // wraps to zero; and the block both keeps the arena coherent and can hold n
  // bytes exactly when n + 15 does not overflow 32 bits.
  lemma RequestLimit(bs: seq<Block>, n: word, limit: nat)
    requires WellFormed(bs, limit) && limit < TWO32 && n > 0
    requires First(bs, Need(n)) < |bs|
    ensures var k := First(bs, Need(n));
            var after := PlaceImage(bs, k, Need(n));
            && Offset(bs, k) + HDR <= |after|
            && (Coherent(after) <==> !(TWO32 - 15 <= n <= TWO32 - 8))
            && (Coherent(after) && SizeIn(after, Offset(bs, k)) >= HDR + n <==> Fits32(n))
  {
    hide SizeIn, Coherent, PlaceImage, Need, First, Total;
    NeedExact(n);
    var k := First(bs, Need(n));
    if Need(n) == 0 {
      ZeroSizeFails(bs, k);
      WalkOkIffCoherent(PlaceImage(bs, k, 0));
    } else {
      assert Need(n) % 8 == 0;
      PlaceCoherent(bs, k, Need(n), limit);
      CarvedSize(bs[k].data, Need(n), n);
    }
  }

  lemma CarvedSize(d: seq<byte>, need: nat, n: word)
    requires HDR <= need <= HDR + |d| && need % 8 == 0 && |d| % 8 == 0
    requires need == Need(n)
    ensures Carve(d, need)[0].Size() >= HDR + n <==> Fits32(n)
  {
    NeedExact(n);
    if Fits32(n) && n > 0 { CarveShape(d, need); }
  }

  // The concrete request that shows it: malloc(0xFFFFFFF1) on a fresh 4096-byte
  // heap returns a pointer and leaves an arena that heap_check rejects.
  lemma WrappedRequestBreaksHeap(stale: seq<byte>)
    requires |stale| == 4088
    ensures var bs := [Block(false, stale)];
            var n: word := 0xFFFF_FFF1;
            && WellFormed(bs, 4096) && Need(n) == 0 && First(bs, Need(n)) == 0
            && !Coherent(PlaceImage(bs, 0, Need(n)))
  {
    var bs := [Block(false, stale)];
    TotalTwo(bs[0], bs[0]);
    NeedExact(0xFFFF_FFF1);
    RequestLimit(bs, 0xFFFF_FFF1, 4096);
  }

  // ------------------------------------------------- coalescing, on bytes --

  predicate BothFree(a: seq<byte>, off: nat, next: nat)
    requires off + 8 <= |a| && next + 8 <= |a|
  {
    MagicIn(a, off) == MAGIC_FREE && MagicIn(a, next) == MAGIC_FREE
  }

  // The coalescing loop as the code makes it, from the header at `off`: Some(bytes)
  // if it is over after at most `fuel` passes. A size that is no multiple of 8 is not
  // followed.
  function CoalesceRun(a: seq<byte>, off: nat, fuel: nat): Option<seq<byte>>
    requires |a| % 8 == 0 && off % 8 == 0
    decreases fuel
  {
    if off >= |a| then Some(a)
    else
      var next := (off + SizeIn(a, off)) % TWO32;
      if next >= |a| || next % 8 != 0 then Some(a)
      else if fuel == 0 then None
      else if BothFree(a, off, next)
      then CoalesceRun(Patch(a, off, StoreLE(SizeIn(a, off) + SizeIn(a, next))), off, fuel - 1)
      else CoalesceRun(a, next, fuel - 1)
  }

  // Over the image of a block list the loop ends, with the image of the merged list.
  lemma {:induction false} CoalesceRunMerges(bs: seq<Block>, k: nat, fuel: nat)
    requires k <= |bs| && Sized(bs, HDR) && Total(bs) < TWO32 && k + fuel >= |bs|
    ensures Total(bs) % 8 == 0 && |Encode(bs)| == Total(bs) && Offset(bs, k) % 8 == 0
    ensures CoalesceRun(Encode(bs), Offset(bs, k), fuel) == Some(Encode(Settled(bs, k)))
    decreases |bs| - k
  {
    hide *;
    OffsetsAligned(bs, k);
    if k + 1 >= |bs| {
      SettledEnd(bs, k);
      LastPass(bs, k, fuel);
    } else {
      CoalesceStep(bs, k);
      if !bs[k].live && !bs[k + 1].live {
        MergePass(bs, k, fuel);
        CoalesceRunMerges(MergeAt(bs, k), k, fuel - 1);
      } else {
        StepPass(bs, k, fuel);
        CoalesceRunMerges(bs, k + 1, fuel - 1);
      }
    }
  }

  // A pass over two free neighbours leaves the bytes of the list with them merged.
  lemma MergePass(bs: seq<Block>, k: nat, fuel: nat)
    requires k + 1 < |bs| && Sized(bs, HDR) && Total(bs) < TWO32 && fuel > 0
    requires !bs[k].live && !bs[k + 1].live
    ensures |MergeAt(bs, k)| == |bs| - 1 && Sized(MergeAt(bs, k), HDR) && Total(MergeAt(bs, k)) == Total(bs)
    ensures |Encode(bs)| == Total(bs) == |Encode(MergeAt(bs, k))| && Total(bs) % 8 == 0
    ensures Offset(MergeAt(bs, k), k) == Offset(bs, k) && Offset(bs, k) % 8 == 0
    ensures CoalesceRun(Encode(bs), Offset(bs, k), fuel)
            == CoalesceRun(Encode(MergeAt(bs, k)), Offset(bs, k), fuel - 1)
  {
    hide Encode, Total, Block.Bytes, Block.Size, SizeIn, StoreLE, Patch, CoalesceRun, Sized, MergeAt, BothFree;
    OffsetsAligned(bs, k);
    OffsetsAligned(bs, k + 1);
    TwoHeaders(bs, k);
    MergeAtImage(bs, k);
    MergeAtSized(bs, k, HDR);
    MergeAtPrefix(bs, k);
    EncodeLength(MergeAt(bs, k));
    MergesOnce(Encode(bs), Offset(bs, k), Offset(bs, k + 1), fuel);
  }

  lemma StepPass(bs: seq<Block>, k: nat, fuel: nat)
    requires k + 1 < |bs| && Sized(bs, HDR) && Total(bs) < TWO32 && fuel > 0
    requires bs[k].live || bs[k + 1].live
    ensures |Encode(bs)| == Total(bs) && Total(bs) % 8 == 0 && Offset(bs, k) % 8 == 0 && Offset(bs, k + 1) % 8 == 0
    ensures CoalesceRun(Encode(bs), Offset(bs, k), fuel) == CoalesceRun(Encode(bs), Offset(bs, k + 1), fuel - 1)
  {
    hide Encode, Total, Block.Bytes, Block.Size, SizeIn, StoreLE, CoalesceRun, Sized, Offset, BothFree;
    OffsetsAligned(bs, k);
    OffsetsAligned(bs, k + 1);
    TwoHeaders(bs, k);
    StepsOver(Encode(bs), Offset(bs, k), Offset(bs, k + 1), fuel);
  }

  // At the last block, or past it, the loop is over.
  lemma LastPass(bs: seq<Block>, k: nat, fuel: nat)
    requires k <= |bs| <= k + 1 && Sized(bs, HDR) && Total(bs) < TWO32
    requires |Encode(bs)| == Total(bs) && Total(bs) % 8 == 0 && Offset(bs, k) % 8 == 0
    ensures CoalesceRun(Encode(bs), Offset(bs, k), fuel) == Some(Encode(bs))
  {
    hide Encode, Total, Block.Bytes, SizeIn, MagicIn, StoreLE, Patch;
    assert Sized(bs, 1);
    AtEnd(bs, k);
    if k < |bs| {
      HeaderAt(bs, k);
      AtEnd(bs, k + 1);
    }
  }

  // What the loop reads at two neighbours.
  lemma TwoHeaders(bs: seq<Block>, k: nat)
    requires k + 1 < |bs| && Sized(bs, HDR) && Total(bs) < TWO32
    ensures var (a, off, next) := (Encode(bs), Offset(bs, k), Offset(bs, k + 1));
            && |a| == Total(bs) && off + HDR <= next && next + HDR <= |a|
            && SizeIn(a, off) == next - off == bs[k].Size() && SizeIn(a, next) == bs[k + 1].Size()
            && (BothFree(a, off, next) <==> !bs[k].live && !bs[k + 1].live)
  {
    hide Encode, Total, Block.Bytes, SizeIn, MagicIn, Offset, Magic;
    HeaderAt(bs, k);
    HeaderAt(bs, k + 1);
    MagicTold(bs[k].live);
    MagicTold(bs[k + 1].live);
  }

  // One pass of the loop that merges.
  lemma MergesOnce(a: seq<byte>, off: nat, next: nat, fuel: nat)
    requires |a| % 8 == 0 && |a| < TWO32 && off % 8 == 0 && next % 8 == 0
    requires off + HDR <= next && next + HDR <= |a| && SizeIn(a, off) == next - off
    requires BothFree(a, off, next)
    ensures CoalesceRun(a, off, fuel) ==
            if fuel == 0 then None
            else CoalesceRun(Patch(a, off, StoreLE(SizeIn(a, off) + SizeIn(a, next))), off, fuel - 1)
  {
    hide SizeIn, BothFree, StoreLE;
    assert (off + SizeIn(a, off)) % TWO32 == next;
  }

  lemma MergeAtPrefix(bs: seq<Block>, k: nat)
    requires k + 1 < |bs|
    ensures |MergeAt(bs, k)| == |bs| - 1 && Offset(MergeAt(bs, k), k) == Offset(bs, k)
  {
    assert MergeAt(bs, k)[..k] == bs[..k];
  }

  lemma OffsetsAligned(bs: seq<Block>, k: nat)
    requires k <= |bs| && Sized(bs, HDR)
    ensures Total(bs) % 8 == 0 && Offset(bs, k) % 8 == 0 && |Encode(bs)| == Total(bs)
  {
    assert Sized(bs, 1);
    TotalAligned(bs);
    TotalAligned(bs[..k]);
    EncodeLength(bs);
  }

  // The header of block k, where it lies in the image.
  lemma HeaderAt(bs: seq<Block>, k: nat)
    requires k < |bs| && Total(bs) < TWO32
    ensures |Encode(bs)| == Total(bs) && Offset(bs, k) + bs[k].Size() == Offset(bs, k + 1) <= Total(bs)
    ensures SizeIn(Encode(bs), Offset(bs, k)) == bs[k].Size()
    ensures MagicIn(Encode(bs), Offset(bs, k)) == Magic(bs[k].live)
  {
    hide Encode, Total, LoadLE, Magic;
    BlockAt(bs, k);
  }

  // ------------------------------------------------- realloc near 2^32 --

  // Realloc's in-place path on the live block k: the bytes after its header stores.
  ghost function ShrunkBytes(bs: seq<Block>, k: nat, need: nat): (r: seq<byte>)
    requires k < |bs| && need <= bs[k].Size()
    ensures |r| == Total(bs)
  {
    Parts(bs, k);
    SplitBytes(Encode(bs), Offset(bs, k), bs[k].Size(), need)
  }

  // The block list that path leaves, when it leaves one.
  function Shrunk(bs: seq<Block>, k: nat, need: nat): seq<Block>
    requires k < |bs| && HDR <= need <= bs[k].Size()
  {
    if bs[k].Size() - need >= MIN_SPLIT then Coalesce(Place(bs, k, need)) else bs
  }

  // The whole path: the stores, and then the coalescing loop if anything was split.
  ghost function InPlace(bs: seq<Block>, k: nat, need: nat, fuel: nat): Option<seq<byte>>
    requires k < |bs| && need <= bs[k].Size() && Total(bs) % 8 == 0
  {
    if bs[k].Size() - need >= MIN_SPLIT then CoalesceRun(ShrunkBytes(bs, k, need), 0, fuel)
    else Some(ShrunkBytes(bs, k, need))
  }

  lemma {:induction false} OneResult(a: seq<byte>, off: nat, f: nat, g: nat)
    requires |a| % 8 == 0 && off % 8 == 0
    requires CoalesceRun(a, off, f).Some? && CoalesceRun(a, off, g).Some?
    ensures CoalesceRun(a, off, f) == CoalesceRun(a, off, g)
    decreases f
  {
    hide SizeIn, BothFree, StoreLE;
    if off < |a| && f > 0 && g > 0 {
      var next := (off + SizeIn(a, off)) % TWO32;
      if next < |a| && next % 8 == 0 {
        if BothFree(a, off, next) {
          OneResult(Patch(a, off, StoreLE(SizeIn(a, off) + SizeIn(a, next))), off, f - 1, g - 1);
        } else {
          OneResult(a, next, f - 1, g - 1);
        }
      }
    }
  }

  lemma ShrunkIsPlace(bs: seq<Block>, k: nat, need: nat)
    requires k < |bs| && bs[k].live && HDR <= need <= bs[k].Size()
    ensures ShrunkBytes(bs, k, need) == Encode(Place(bs, k, need))
  {
    hide Encode, StoreLE, Total, Block.Bytes, SplitBytes;
    SplitImage(bs, k, need);
    assert CarveAs(true, bs[k].data, need) == Carve(bs[k].data, need);
  }

  lemma PlaceAll(bs: seq<Block>, k: nat, need: nat)
    requires k < |bs| && bs[k].live && HDR <= need <= bs[k].Size() && bs[k].Size() - need < MIN_SPLIT
    ensures Place(bs, k, need) == bs
  {
    assert bs[k] == Block(true, bs[k].data);
    assert bs == bs[..k] + [bs[k]] + bs[k + 1..];
  }

  // A computed size of at least a header: the path ends, in the image of a coherent
  // block list, and the block at p has the size computed, or keeps the one it had.
  lemma InPlaceResult(bs: seq<Block>, k: nat, need: nat, fuel: nat)
    requires WellFormed(bs, Total(bs)) && Total(bs) < TWO32 && Total(bs) % 8 == 0
    requires k < |bs| && bs[k].live && HDR <= need <= bs[k].Size() && need % 8 == 0
    ensures var out := Shrunk(bs, k, need);
            && (fuel >= |bs| + 1 ==> InPlace(bs, k, need, fuel) == Some(Encode(out)))
            && Sized(out, HDR) && Tidy(out) && Total(out) == Total(bs) && |Encode(out)| == Total(bs)
            && Coherent(Encode(out))
            && Offset(bs, k) + HDR <= |Encode(out)|
            && SizeIn(Encode(out), Offset(bs, k)) == if bs[k].Size() - need >= MIN_SPLIT then need else bs[k].Size()
  {
    hide Encode, Total, Block.Bytes, SizeIn, Coalesce, Carve, ShrunkBytes, Sized, Tidy, Place, CoalesceRun;
    ShrunkIsPlace(bs, k, need);
    PlaceAligned(bs, k, need);
    var x := Place(bs, k, need);
    if bs[k].Size() - need >= MIN_SPLIT {
      CarvedRoom(bs, k, need);
      PlaceLength(bs, k, need);
      OffsetsAligned(x, 0);
      SettledStart(x);
      if fuel >= |bs| + 1 { CoalesceRunMerges(x, 0, fuel); }
      CoalesceSizes(x, HDR);
      CoalesceTidy(x);
      EncodeLength(Coalesce(x));
      SizeAtKey(Coalesce(x), Offset(bs, k));
    } else {
      PlaceAll(bs, k, need);
      EncodeLength(bs);
      HeaderAt(bs, k);
    }
  }

  lemma PlaceLength(bs: seq<Block>, k: nat, need: nat)
    requires k < |bs| && HDR <= need <= bs[k].Size()
    ensures |Place(bs, k, need)| <= |bs| + 1 && Offset(Place(bs, k, need), 0) == 0
  {
  }

  // After placing and coalescing, the block at p is the one placed.
  lemma CarvedRoom(bs: seq<Block>, k: nat, need: nat)
    requires Sized(bs, MIN_SPLIT) && k < |bs| && HDR <= need && need + MIN_SPLIT <= bs[k].Size() && need % 8 == 0
    ensures var (p, m) := (Offset(bs, k) + HDR, Live(Coalesce(Place(bs, k, need))));
            p in m && |m[p]| == need - HDR
  {
    PlaceLives(bs, k, need);
    CoalesceLives(Place(bs, k, need), 0);
  }

  lemma SizeAtKey(bs: seq<Block>, off: nat)
    requires Sized(bs, HDR) && Total(bs) < TWO32 && off + HDR in Live(bs)
    ensures off + HDR <= |Encode(bs)| && SizeIn(Encode(bs), off) == HDR + |Live(bs)[off + HDR]|
  {
    hide Encode, Total, SizeIn;
    assert Sized(bs, 1);
    LiveIndexIsKey(bs, At(off + HDR));
    HeaderAt(bs, LiveIndex(bs, At(off + HDR)));
  }

  // ------------------------------------------------- the loop that never ends --

  lemma ZeroedBytes(e: seq<byte>, off: nat, s: seq<byte>, f: seq<byte>, z: seq<byte>)
    requires |s| == |f| == |z| == 4 && off + 8 <= |e|
    ensures var a := Patch(Patch(Patch(e, off, s), off + 4, f), off, z);
            a[off..off + 4] == z && a[off + 4..off + 8] == f && a[..off] == e[..off]
  {
    var y := Patch(Patch(e, off, s), off + 4, f);
    var a := Patch(y, off, z);
    assert y[off + 4..off + 8] == f && y[..off] == e[..off];
    assert a[off + 4..off + 8] == y[off + 4..off + 8] && a[..off] == y[..off];
  }

  // A computed size of zero: the remainder's header is written over the block's own,
  // and then its size is zeroed.
  lemma ZeroShrink(bs: seq<Block>, k: nat)
    requires k < |bs| && Sized(bs, MIN_SPLIT)
    ensures var (a, off) := (ShrunkBytes(bs, k, 0), Offset(bs, k));
            && off + HDR <= |a| == |Encode(bs)|
            && SizeIn(a, off) == 0 && MagicIn(a, off) == MAGIC_FREE && a[..off] == Encode(bs)[..off]
  {
    hide Block.Bytes, StoreLE, LoadLE, Encode;
    Parts(bs, k);
    LoadStore(0);
    LoadStore(MAGIC_FREE);
    ZeroedBytes(Encode(bs), Offset(bs, k), StoreLE(bs[k].Size()), StoreLE(MAGIC_FREE), StoreLE(0));
  }

  lemma RewriteSame(a: seq<byte>, off: nat)
    requires off + 8 <= |a|
    ensures Patch(a, off, StoreLE(SizeIn(a, off))) == a
  {
    hide StoreLE, LoadLE;
    StoreLoad(a[off..off + 4]);
  }

  // A free block followed by a free header of size zero: merging them changes no byte
  // and moves nowhere.
  lemma {:induction false} Stuck(a: seq<byte>, off: nat, fuel: nat)
    requires |a| % 8 == 0 && off % 8 == 0 && off + HDR <= |a|
    requires var next := (off + SizeIn(a, off)) % TWO32;
             next % 8 == 0 && next + HDR <= |a| && BothFree(a, off, next) && SizeIn(a, next) == 0
    ensures CoalesceRun(a, off, fuel) == None
    decreases fuel
  {
    hide SizeIn, StoreLE, Patch, BothFree;
    RewriteSame(a, off);
    if fuel > 0 { Stuck(a, off, fuel - 1); }
  }

  lemma SameHeader(a: seq<byte>, e: seq<byte>, off: nat, end: nat)
    requires off + 8 <= end <= |a| && end <= |e| && a[..end] == e[..end]
    ensures SizeIn(a, off) == SizeIn(e, off) && MagicIn(a, off) == MagicIn(e, off)
  {
    hide LoadLE;
    assert a[off..off + 4] == a[..end][off..off + 4] && e[off..off + 4] == e[..end][off..off + 4];
    assert a[off + 4..off + 8] == a[..end][off + 4..off + 8] && e[off + 4..off + 8] == e[..end][off + 4..off + 8];
  }

  // One pass of the loop that merges nothing.
  lemma StepsOver(a: seq<byte>, off: nat, next: nat, fuel: nat)
    requires |a| % 8 == 0 && |a| < TWO32 && off % 8 == 0 && next % 8 == 0
    requires off + HDR <= next && next + HDR <= |a| && SizeIn(a, off) == next - off
    requires !BothFree(a, off, next)
    ensures CoalesceRun(a, off, fuel) == if fuel == 0 then None else CoalesceRun(a, next, fuel - 1)
  {
    hide SizeIn, BothFree, StoreLE;
    assert (off + SizeIn(a, off)) % TWO32 == next;
  }

  lemma StuckAfter(a: seq<byte>, off: nat, next: nat, fuel: nat)
    requires |a| % 8 == 0 && |a| < TWO32 && off % 8 == 0 && next % 8 == 0
    requires off <= next && next + HDR <= |a| && SizeIn(a, off) == next - off
    requires BothFree(a, off, next) && SizeIn(a, next) == 0
    ensures CoalesceRun(a, off, fuel) == None
  {
    hide SizeIn, BothFree, StoreLE, CoalesceRun;
    assert (off + SizeIn(a, off)) % TWO32 == next;
    Stuck(a, off, fuel);
  }

  // What the loop reads at block j, in front of the zeroed one.
  lemma BeforeZero(bs: seq<Block>, k: nat, j: nat)
    requires Sized(bs, HDR) && Total(bs) < TWO32 && j < k < |bs| && Sized(bs, MIN_SPLIT)
    ensures var (a, off, next) := (ShrunkBytes(bs, k, 0), Offset(bs, j), Offset(bs, j + 1));
            && |a| == Total(bs) && off % 8 == 0 && next % 8 == 0
            && off + bs[j].Size() == next && off + HDR <= next <= Offset(bs, k) && Offset(bs, k) + HDR <= |a|
            && SizeIn(a, off) == bs[j].Size() && MagicIn(a, off) == Magic(bs[j].live)
  {
    hide Encode, Total, Block.Bytes, SizeIn, MagicIn, ShrunkBytes;
    OffsetsAligned(bs, j);
    OffsetsAligned(bs, j + 1);
    ZeroShrink(bs, k);
    HeaderAt(bs, j);
    OffsetGrows(bs, j + 1, k);
    SameHeader(ShrunkBytes(bs, k, 0), Encode(bs), Offset(bs, j), Offset(bs, k));
  }

  lemma MagicTold(live: bool)
    ensures Magic(live) == MAGIC_FREE <==> !live
  {
  }

  // Blocks j and j + 1 are both free only if j + 1 is the zeroed one.
  lemma FreePair(bs: seq<Block>, k: nat, j: nat)
    requires Sized(bs, HDR) && Sized(bs, MIN_SPLIT) && Total(bs) < TWO32 && Tidy(bs) && j < k < |bs|
    ensures var (a, off, next) := (ShrunkBytes(bs, k, 0), Offset(bs, j), Offset(bs, j + 1));
            && off + HDR <= next && next + HDR <= |a|
            && (BothFree(a, off, next) <==> j + 1 == k && !bs[j].live)
  {
    hide ShrunkBytes, Offset, Sized, MagicIn, Magic, Total, Encode, SizeIn;
    BeforeZero(bs, k, j);
    MagicTold(bs[j].live);
    if j + 1 < k {
      BeforeZero(bs, k, j + 1);
      MagicTold(bs[j + 1].live);
      assert bs[j].live || bs[j + 1].live;
    } else {
      ZeroShrink(bs, k);
    }
  }

  // From any block up to the zeroed one, the loop runs into it and stays.
  lemma {:induction false} RunsIntoZero(bs: seq<Block>, k: nat, j: nat, fuel: nat)
    requires Sized(bs, HDR) && Sized(bs, MIN_SPLIT) && Tidy(bs) && Total(bs) < TWO32 && j <= k < |bs|
    ensures Total(bs) % 8 == 0 && Offset(bs, j) % 8 == 0
    ensures CoalesceRun(ShrunkBytes(bs, k, 0), Offset(bs, j), fuel) == None
    decreases k - j, fuel
  {
    hide *;
    OffsetsAligned(bs, j);
    OffsetsAligned(bs, k);
    ZeroShrink(bs, k);
    var (a, off) := (ShrunkBytes(bs, k, 0), Offset(bs, j));
    if j == k {
      SelfFree(a, off);
      StuckAfter(a, off, off, fuel);
    } else {
      BeforeZero(bs, k, j);
      FreePair(bs, k, j);
      var next := Offset(bs, j + 1);
      if j + 1 == k && !bs[j].live {
        StuckAfter(a, off, next, fuel);
      } else {
        StepsOver(a, off, next, fuel);
        if fuel > 0 { RunsIntoZero(bs, k, j + 1, fuel - 1); }
      }
    }
  }

  lemma SelfFree(a: seq<byte>, off: nat)
    requires off + HDR <= |a| && MagicIn(a, off) == MAGIC_FREE
    ensures BothFree(a, off, off)
  {
    hide MagicIn;
  }

  lemma OffsetGrows(bs: seq<Block>, j: nat, k: nat)
    requires j <= k <= |bs|
    ensures Offset(bs, j) <= Offset(bs, k)
  {
    assert bs[..k] == bs[..j] + bs[j..k];
    TotalAppend(bs[..j], bs[j..k]);
  }

  lemma ZeroNeverEnds(bs: seq<Block>, k: nat, fuel: nat)
    requires WellFormed(bs, Total(bs)) && Total(bs) < TWO32 && k < |bs|
    ensures Total(bs) % 8 == 0 && InPlace(bs, k, 0, fuel) == None
  {
    hide ShrunkBytes, CoalesceRun;
    assert Sized(bs, HDR);
    RunsIntoZero(bs, k, 0, fuel);
    assert Offset(bs, 0) == 0;
  }

  // ------------------------------------------------- what realloc serves --

  // The in-place path on block k ends, leaves a coherent arena, and the block it
  // returns can hold n bytes.
  ghost predicate Served(bs: seq<Block>, k: nat, n: word)
    requires k < |bs| && Need(n) <= bs[k].Size() && Total(bs) % 8 == 0
  {
    exists fuel: nat ::
      var r := InPlace(bs, k, Need(n), fuel);
      r.Some? && Coherent(r.value) && Offset(bs, k) + HDR <= |r.value| && SizeIn(r.value, Offset(bs, k)) >= HDR + n
  }

  // realloc computes the same size as malloc: a request that wraps always takes the
  // in-place path, and that path serves a request exactly when it does not wrap.
  lemma ReallocLimit(bs: seq<Block>, k: nat, n: word, limit: nat)
    requires WellFormed(bs, limit) && limit <= ARENA_MAX && k < |bs| && bs[k].live && n > 0
    ensures limit % 8 == 0
    ensures !Fits32(n) ==> Need(n) <= bs[k].Size()
    ensures Need(n) <= bs[k].Size() ==> (Served(bs, k, n) <==> Fits32(n))
  {
    NeedExact(n);
    hide Need, InPlace, Encode, SizeIn, Coherent, Offset, Total;
    assert Sized(bs, 1);
    TotalAligned(bs);
    BlockFitsTotal(bs, k);
    if Need(n) == 0 {
      forall fuel: nat
        ensures InPlace(bs, k, 0, fuel) == None
      {
        ZeroNeverEnds(bs, k, fuel);
      }
    } else if Need(n) <= bs[k].Size() {
      InPlaceResult(bs, k, Need(n), |bs| + 1);
      forall fuel: nat | InPlace(bs, k, Need(n), fuel).Some?
        ensures InPlace(bs, k, Need(n), fuel) == InPlace(bs, k, Need(n), |bs| + 1)
      {
        OneInPlace(bs, k, Need(n), fuel, |bs| + 1);
      }
    }
  }

  lemma OneInPlace(bs: seq<Block>, k: nat, need: nat, f: nat, g: nat)
    requires k < |bs| && need <= bs[k].Size() && Total(bs) % 8 == 0
    requires InPlace(bs, k, need, f).Some? && InPlace(bs, k, need, g).Some?
    ensures InPlace(bs, k, need, f) == InPlace(bs, k, need, g)
  {
    hide ShrunkBytes, CoalesceRun;
    if bs[k].Size() - need >= MIN_SPLIT { OneResult(ShrunkBytes(bs, k, need), 0, f, g); }
  }

  // Whether a call of realloc returns at all.
  predicate ReallocReturns(bs: seq<Block>, p: Ptr, n: word) {
    LiveIndex(bs, p) >= 0 && n > 0 ==> Need(n) != 0
  }
}
