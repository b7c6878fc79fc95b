// heap_check: what its walk decides about an arena's bytes, and which requests
// keep it true.
module HeapCheck {
  import opened Words
  import opened Seqs
  import opened HeapBlocks
  import opened HeapSpec

  // The bytes malloc leaves behind when it takes block k for `need` bytes.
  ghost function PlaceImage(bs: seq<Block>, k: nat, need: nat): (r: seq<byte>)
    requires k < |bs| && need <= bs[k].Size()
    ensures |r| == Total(bs) && Offset(bs, k) + bs[k].Size() <= |r|
  {
    Parts(bs, k);
    Patch(SplitBytes(Encode(bs), Offset(bs, k), bs[k].Size(), need), Offset(bs, k) + 4, StoreLE(MAGIC_USED))
  }

  // As long as the block keeps room for its own header, those bytes are the image
  // of the carved block list.
  lemma PlaceImageIs(bs: seq<Block>, k: nat, need: nat)
    requires k < |bs| && HDR <= need <= bs[k].Size()
    ensures PlaceImage(bs, k, need) == Encode(Place(bs, k, need))
  {
    hide Encode, LowBytes, StoreLE, Total, Block.Bytes;
    var c := CarveAs(bs[k].live, bs[k].data, need);
    var mid := bs[..k] + c + bs[k + 1..];
    SplitImage(bs, k, need);
    SetMagicBytes(c[0], true);
    assert mid[k] == c[0] && mid[..k] == bs[..k];
    HeaderImage(mid, k, 4, MAGIC_USED, Block(true, c[0].data));
    assert mid[k := Block(true, c[0].data)] == Place(bs, k, need);
  }

  // ------------------------------------------------------------ the walk --

  function SizeIn(a: seq<byte>, off: nat): word
    requires off + 8 <= |a|
  {
    LoadLE(a[off..off + 4])
  }

  function MagicIn(a: seq<byte>, off: nat): word
    requires off + 8 <= |a|
  {
    LoadLE(a[off + 4..off + 8])
  }

  // A header heap_check accepts, given whether the block before it was free.
  predicate HeaderOk(a: seq<byte>, off: nat, prevFree: bool)
    requires off + 8 <= |a|
  {
    && SizeIn(a, off) >= HDR && SizeIn(a, off) % 8 == 0
    && (MagicIn(a, off) == MAGIC_FREE || MagicIn(a, off) == MAGIC_USED)
    && !(MagicIn(a, off) == MAGIC_FREE && prevFree)
  }

  // The verdict of a walk from `off` whose offsets never wrap.
  predicate WalkOk(a: seq<byte>, off: nat, prevFree: bool)
    requires |a| % 8 == 0 && off % 8 == 0
    decreases |a| - off
  {
    if off >= |a| then off == |a|
    else
      var size := SizeIn(a, off);
      && HeaderOk(a, off, prevFree)
      && (SumOfEights(off, size); WalkOk(a, off + size, MagicIn(a, off) == MAGIC_FREE))
  }

  // No step of the walk overflows the 32-bit offset.
  predicate Tame(a: seq<byte>, off: nat)
    requires |a| % 8 == 0 && off % 8 == 0
    decreases |a| - off
  {
    off < |a| && HeaderOk(a, off, false) ==>
      var size := SizeIn(a, off);
      off + size < TWO32 && (SumOfEights(off, size); Tame(a, off + size))
  }

  // What heap_check is for: the bytes are a sequence of blocks of legal sizes that
  // fills the arena exactly, with no two free neighbours.
  ghost predicate Coherent(a: seq<byte>) {
    exists bs :: Encode(bs) == a && Sized(bs, HDR) && Tidy(bs)
  }

  lemma HeaderIn(p: seq<byte>, b: Block, s: seq<byte>)
    requires b.Size() < TWO32
    ensures SizeIn(p + b.Bytes() + s, |p|) == b.Size()
    ensures MagicIn(p + b.Bytes() + s, |p|) == Magic(b.live)
  {
    hide StoreLE, LoadLE;
    HeaderOf(b);
    Fields(p, StoreLE(b.Size()), StoreLE(Magic(b.live)), b.data, s);
  }

  lemma {:induction false} WalkOfImage(p: seq<byte>, bs: seq<Block>, prevFree: bool)
    requires Sized(bs, HDR) && Tidy(bs) && |p| % 8 == 0
    requires prevFree && bs != [] ==> bs[0].live
    requires |p| + Total(bs) < TWO32 && |p + Encode(bs)| % 8 == 0
    ensures WalkOk(p + Encode(bs), |p|, prevFree)
    decreases |bs|
  {
    hide Block.Bytes, SizeIn, MagicIn;
    EncodeLength(bs);
    if bs != [] {
      var b, rest := bs[0], bs[1..];
      HeaderIn(p, b, Encode(rest));
      Assoc(p, b.Bytes(), Encode(rest));
      assert p + Encode(bs) == p + b.Bytes() + Encode(rest);
      assert rest != [] ==> b.live || rest[0].live by {
        if rest != [] { assert rest[0] == bs[1]; }
      }
      SumOfEights(|p|, b.Size());
      WalkOfImage(p + b.Bytes(), rest, !b.live);
    } else {
      assert p + Encode(bs) == p;
    }
  }

  // A header that passes is the image of a block's header.
  lemma HeaderImageOf(a: seq<byte>, off: nat, prevFree: bool)
    requires off + 8 <= |a| && HeaderOk(a, off, prevFree) && off + SizeIn(a, off) <= |a|
    ensures var b := Block(MagicIn(a, off) == MAGIC_USED, a[off + 8..off + SizeIn(a, off)]);
            b.Size() == SizeIn(a, off) && a[off..] == b.Bytes() + a[off + SizeIn(a, off)..]
  {
    hide StoreLE;
    StoreLoad(a[off..off + 4]);
    StoreLoad(a[off + 4..off + 8]);
    var n := SizeIn(a, off);
    assert a[off..] == a[off..off + 4] + a[off + 4..off + 8] + a[off + 8..off + n] + a[off + n..];
  }

  lemma {:induction false} WalkStopsInside(a: seq<byte>, off: nat, prevFree: bool)
    requires |a| % 8 == 0 && off % 8 == 0 && WalkOk(a, off, prevFree)
    ensures off <= |a|
  {
  }

  lemma {:induction false} ImageOfWalk(a: seq<byte>, off: nat, prevFree: bool) returns (bs: seq<Block>)
    requires |a| % 8 == 0 && off % 8 == 0 && WalkOk(a, off, prevFree)
    ensures off <= |a| && Encode(bs) == a[off..] && Sized(bs, HDR) && Tidy(bs)
    ensures prevFree && bs != [] ==> bs[0].live
    decreases |a| - off
  {
    hide Block.Bytes, SizeIn, MagicIn;
    if off >= |a| {
      bs := [];
    } else {
      var n := SizeIn(a, off);
      var rest := ImageOfWalk(a, off + n, MagicIn(a, off) == MAGIC_FREE);
      HeaderImageOf(a, off, prevFree);
      var b := Block(MagicIn(a, off) == MAGIC_USED, a[off + 8..off + n]);
      bs := [b] + rest;
      assert bs[1..] == rest;
      assert Encode(bs) == b.Bytes() + Encode(rest);
    }
  }

  lemma WalkOkIffCoherent(a: seq<byte>)
    requires |a| % 8 == 0 && |a| < TWO32
    ensures WalkOk(a, 0, false) <==> Coherent(a)
  {
    if WalkOk(a, 0, false) {
      var bs := ImageOfWalk(a, 0, false);
      assert Encode(bs) == a;
    }
    if Coherent(a) {
      var bs :| Encode(bs) == a && Sized(bs, HDR) && Tidy(bs);
      EncodeLength(bs);
      assert [] + Encode(bs) == a;
      WalkOfImage([], bs, false);
    }
  }

  lemma {:induction false} WalkIsTame(a: seq<byte>, off: nat, prevFree: bool)
    requires |a| % 8 == 0 && |a| < TWO32 && off % 8 == 0 && WalkOk(a, off, prevFree)
    ensures Tame(a, off)
    decreases |a| - off
  {
    hide SizeIn, MagicIn;
    if off < |a| {
      var n := SizeIn(a, off);
      WalkStopsInside(a, off + n, MagicIn(a, off) == MAGIC_FREE);
      WalkIsTame(a, off + n, MagicIn(a, off) == MAGIC_FREE);
    }
  }

  // ------------------------------------------------- the 32-bit walk --

  lemma NextAligned(off: nat, size: nat)
    requires off % 8 == 0 && size % 8 == 0
    ensures (off + size) % TWO32 % 8 == 0
  {
  }

  // The walk as the code makes it: the offset is a 32-bit word that wraps, and no
  // header is checked against the end of the arena. Some(verdict) if at most `fuel`
  // headers are passed.
  function Walk32(a: seq<byte>, off: nat, prevFree: bool, fuel: nat): Option<bool>
    requires |a| % 8 == 0 && off % 8 == 0
    decreases fuel
  {
    if off >= |a| then Some(off == |a|)
    else if !HeaderOk(a, off, prevFree) then Some(false)
    else if fuel == 0 then None
    else
      NextAligned(off, SizeIn(a, off));
      Walk32(a, (off + SizeIn(a, off)) % TWO32, MagicIn(a, off) == MAGIC_FREE, fuel - 1)
  }

  // One header of a walk that ends.
  lemma WalkStep(a: seq<byte>, off: nat, prevFree: bool, fuel: nat)
    requires |a| % 8 == 0 && off % 8 == 0 && off < |a| && Walk32(a, off, prevFree, fuel).Some?
    ensures off + 8 <= |a|
    ensures !HeaderOk(a, off, prevFree) ==> Walk32(a, off, prevFree, fuel) == Some(false)
    ensures HeaderOk(a, off, prevFree) ==>
              && fuel > 0 && (off + SizeIn(a, off)) % TWO32 % 8 == 0
              && Walk32(a, off, prevFree, fuel) ==
                 Walk32(a, (off + SizeIn(a, off)) % TWO32, MagicIn(a, off) == MAGIC_FREE, fuel - 1)
  {
    hide HeaderOk, SizeIn, MagicIn;
    if HeaderOk(a, off, prevFree) { NextAlignedIn(a, off, prevFree); }
  }

  lemma WalkStop(a: seq<byte>, off: nat, prevFree: bool, fuel: nat)
    requires |a| % 8 == 0 && off % 8 == 0 && off >= |a|
    ensures Walk32(a, off, prevFree, fuel) == Some(off == |a|)
  {
  }

  // heap_check returns at all, and returns 1.
  ghost predicate Ends(a: seq<byte>)
    requires |a| % 8 == 0
  {
    exists fuel: nat :: Walk32(a, 0, false, fuel).Some?
  }

  ghost predicate Accepts(a: seq<byte>)
    requires |a| % 8 == 0
  {
    exists fuel: nat :: Walk32(a, 0, false, fuel) == Some(true)
  }

  lemma {:induction false} MoreFuel(a: seq<byte>, off: nat, prevFree: bool, fuel: nat, more: nat)
    requires |a| % 8 == 0 && off % 8 == 0 && Walk32(a, off, prevFree, fuel).Some? && fuel <= more
    ensures Walk32(a, off, prevFree, more) == Walk32(a, off, prevFree, fuel)
    decreases fuel
  {
    hide HeaderOk, SizeIn, MagicIn;
    if off < |a| && HeaderOk(a, off, prevFree) {
      NextAlignedIn(a, off, prevFree);
      MoreFuel(a, (off + SizeIn(a, off)) % TWO32, MagicIn(a, off) == MAGIC_FREE, fuel - 1, more - 1);
    }
  }

  lemma NextAlignedIn(a: seq<byte>, off: nat, prevFree: bool)
    requires off + 8 <= |a| && off % 8 == 0 && HeaderOk(a, off, prevFree)
    ensures (off + SizeIn(a, off)) % TWO32 % 8 == 0
  {
    hide SizeIn, MagicIn;
    NextAligned(off, SizeIn(a, off));
  }

  lemma OneVerdict(a: seq<byte>, fuel: nat)
    requires |a| % 8 == 0 && Walk32(a, 0, false, fuel).Some?
    ensures Accepts(a) <==> Walk32(a, 0, false, fuel) == Some(true)
  {
    hide Walk32;
    if f: nat :| Walk32(a, 0, false, f) == Some(true) {
      MoreFuel(a, 0, false, if f < fuel then f else fuel, if f < fuel then fuel else f);
    }
  }

  // Where no offset wraps, the two walks agree.
  lemma {:induction false} TameWalk(a: seq<byte>, off: nat, prevFree: bool, fuel: nat)
    requires |a| % 8 == 0 && off % 8 == 0 && Tame(a, off) && off + fuel >= |a|
    ensures Walk32(a, off, prevFree, fuel) == Some(WalkOk(a, off, prevFree))
    decreases fuel
  {
    hide SizeIn, MagicIn;
    if off < |a| && HeaderOk(a, off, prevFree) {
      var n := SizeIn(a, off);
      assert HeaderOk(a, off, false);
      SumOfEights(off, n);
      TameWalk(a, off + n, MagicIn(a, off) == MAGIC_FREE, fuel - 1);
    }
  }

  // What heap_check decides: it returns 1 without an offset wrapping exactly on the
  // coherent arenas.
  lemma WalkDecidesCoherence(a: seq<byte>)
    requires |a| % 8 == 0 && |a| < TWO32
    ensures Accepts(a) && Tame(a, 0) <==> Coherent(a)
    ensures Tame(a, 0) ==> Ends(a)
  {
    hide WalkOk, Walk32, Tame, Coherent;
    WalkOkIffCoherent(a);
    if WalkOk(a, 0, false) { WalkIsTame(a, 0, false); }
    if Tame(a, 0) {
      TameWalk(a, 0, false, |a|);
      OneVerdict(a, |a|);
    }
  }

  // An arena with one more header written into it.
  function WithHeader(a: seq<byte>, off: nat, size: word, magic: word): (r: seq<byte>)
    requires off + 8 <= |a|
    ensures |r| == |a|
  {
    Patch(a, off, StoreLE(size) + StoreLE(magic))
  }

  lemma HeaderWritten(a: seq<byte>, off: nat, size: word, magic: word)
    requires off + 8 <= |a|
    ensures SizeIn(WithHeader(a, off, size, magic), off) == size
    ensures MagicIn(WithHeader(a, off, size, magic), off) == magic
  {
    hide StoreLE, LoadLE;
    var r := WithHeader(a, off, size, magic);
    LoadStore(size);
    LoadStore(magic);
    assert r[off..off + 4] == StoreLE(size) && r[off + 4..off + 8] == StoreLE(magic);
  }

  lemma HeaderKept(a: seq<byte>, off: nat, size: word, magic: word, at: nat)
    requires off + 8 <= |a| && at + 8 <= |a| && (at + 8 <= off || off + 8 <= at)
    ensures SizeIn(WithHeader(a, off, size, magic), at) == SizeIn(a, at)
    ensures MagicIn(WithHeader(a, off, size, magic), at) == MagicIn(a, at)
  {
    hide StoreLE, LoadLE;
    var r := WithHeader(a, off, size, magic);
    assert r[at..at + 4] == a[at..at + 4] && r[at + 4..at + 8] == a[at + 4..at + 8];
  }

  // Three headers whose last size wraps the offset back into the first payload: the
  // walk goes 0, 32, 16, 4096 and accepts, but the bytes are no sequence of blocks.
  function WrappedArena(stale: seq<byte>): (a: seq<byte>)
    requires |stale| == 4096
    ensures |a| == 4096
  {
    var a := WithHeader(stale, 0, 32, MAGIC_USED);
    WithHeader(WithHeader(a, 16, 4080, MAGIC_USED), 32, 0xFFFF_FFF0, MAGIC_USED)
  }

  lemma WrappedWalkAccepts(stale: seq<byte>)
    requires |stale| == 4096
    ensures var a := WrappedArena(stale);
            Accepts(a) && !Tame(a, 0) && !Coherent(a)
  {
    hide SizeIn, MagicIn, Coherent, WithHeader;
    var b := WithHeader(stale, 0, 32, MAGIC_USED);
    var c := WithHeader(b, 16, 4080, MAGIC_USED);
    var a := WithHeader(c, 32, 0xFFFF_FFF0, MAGIC_USED);
    HeaderWritten(stale, 0, 32, MAGIC_USED);
    HeaderWritten(b, 16, 4080, MAGIC_USED);
    HeaderWritten(c, 32, 0xFFFF_FFF0, MAGIC_USED);
    HeaderKept(b, 16, 4080, MAGIC_USED, 0);
    HeaderKept(c, 32, 0xFFFF_FFF0, MAGIC_USED, 0);
    HeaderKept(c, 32, 0xFFFF_FFF0, MAGIC_USED, 16);
    assert Walk32(a, 4096, false, 0) == Some(true);
    assert Walk32(a, 16, false, 1) == Some(true);
    assert Walk32(a, 32, false, 2) == Some(true);
    assert Walk32(a, 0, false, 3) == Some(true);
    assert !Tame(a, 32);
    WalkDecidesCoherence(a);
  }

  // Two headers that lead the walk back to the first.
  function LoopingArena(stale: seq<byte>): (a: seq<byte>)
    requires |stale| == 4096
    ensures |a| == 4096
  {
    WithHeader(WithHeader(stale, 0, 16, MAGIC_USED), 16, 0xFFFF_FFF0, MAGIC_USED)
  }

  lemma {:induction false} LoopingWalk(a: seq<byte>, fuel: nat)
    requires |a| % 8 == 0 && |a| >= 24
    requires SizeIn(a, 0) == 16 && MagicIn(a, 0) == MAGIC_USED
    requires SizeIn(a, 16) == 0xFFFF_FFF0 && MagicIn(a, 16) == MAGIC_USED
    ensures Walk32(a, 0, false, fuel) == None
  {
    hide SizeIn, MagicIn;
    if fuel >= 2 {
      LoopingWalk(a, fuel - 2);
      assert Walk32(a, 16, false, fuel - 1) == Walk32(a, 0, false, fuel - 2);
    }
  }

  // On such bytes heap_check never returns.
  lemma LoopingWalkNeverEnds(stale: seq<byte>)
    requires |stale| == 4096
    ensures !Ends(LoopingArena(stale))
  {
    hide WithHeader, SizeIn, MagicIn, Walk32;
    var b := WithHeader(stale, 0, 16, MAGIC_USED);
    HeaderWritten(stale, 0, 16, MAGIC_USED);
    HeaderWritten(b, 16, 0xFFFF_FFF0, MAGIC_USED);
    HeaderKept(b, 16, 0xFFFF_FFF0, MAGIC_USED, 0);
    forall fuel: nat
      ensures Walk32(LoopingArena(stale), 0, false, fuel) == None
    {
      LoopingWalk(LoopingArena(stale), fuel);
    }
  }
}
