// The allocator as it runs: headers read and rewritten in place in a byte arena.
module Heap {
  import opened Words
  import opened Seqs
  import opened HeapBlocks
  import opened HeapSpec
  import opened HeapLaws
  import opened HeapCheck
  import opened HeapLimits

  class Heap {
    const limit: nat
    const arena: array<byte>
    var errors: word
    ghost var blocks: seq<Block>

    ghost predicate Shape() {
      arena.Length == limit && limit % 8 == 0 && 16 <= limit <= ARENA_MAX
    }

    // The arena is the image of a block list of legal sizes...
    ghost predicate Imaged(least: nat)
      reads this, arena
    {
      Shape() && arena[..] == Encode(blocks) && Sized(blocks, least) && Total(blocks) == limit
    }

    // ...in which no two free blocks touch.
    ghost predicate Valid()
      reads this, arena
    {
      Imaged(MIN_SPLIT) && Tidy(blocks)
    }

    ghost function View(): Mem
      reads this
    {
      Mem(blocks, errors)
    }

    constructor (size: nat)
      requires size % 8 == 0 && 16 <= size <= ARENA_MAX
      ensures Valid() && limit == size && errors == 0 && fresh(arena)
      ensures |blocks| == 1 && !blocks[0].live
    {
      limit := size;
      arena := new byte[size](_ => 0);
      new;
      HeapInit();
    }

    // ------------------------------------------------------ header access --

    function SizeAt(off: nat): word
      requires off + 8 <= arena.Length
      reads arena
    {
      LoadLE(arena[off..off + 4])
    }

    function MagicAt(off: nat): word
      requires off + 8 <= arena.Length
      reads arena
    {
      LoadLE(arena[off + 4..off + 8])
    }

    method Store(off: nat, w: nat)
      requires off + 4 <= arena.Length
      modifies arena
      ensures arena[..] == Patch(old(arena[..]), off, StoreLE(w))
    {
      var b := StoreLE(w);
      arena[off], arena[off + 1], arena[off + 2], arena[off + 3] := b[0], b[1], b[2], b[3];
    }

    // The header of block k, read at its offset.
    lemma ReadHeader(k: nat)
      requires Imaged(HDR) && k < |blocks|
      ensures Offset(blocks, k) + blocks[k].Size() == Offset(blocks, k + 1) <= limit
      ensures SizeAt(Offset(blocks, k)) == blocks[k].Size()
      ensures MagicAt(Offset(blocks, k)) == Magic(blocks[k].live)
    {
      BlockAt(blocks, k);
      var off := Offset(blocks, k);
      assert arena[off..off + 4] == arena[..][off..off + 4];
      assert arena[off + 4..off + 8] == arena[..][off + 4..off + 8];
    }

    method HeapInit()
      requires Shape()
      modifies this`errors, this`blocks, arena
      ensures Valid() && errors == 0
      ensures blocks == [Block(false, old(arena[..])[8..])]
    {
      ghost var was := arena[..];
      Store(0, limit);
      Store(4, MAGIC_FREE);
      errors := 0;
      blocks := [Block(false, was[8..])];
      EncodeOne(blocks[0]);
    }

    // ------------------------------------------------------ malloc --

    // Split `need` bytes off the block at `off`, when the rest is worth a block.
    method Split(off: nat, size: nat, need: nat)
      requires need <= size && HDR <= size && off + size <= arena.Length
      modifies arena
      ensures arena[..] == SplitBytes(old(arena[..]), off, size, need)
    {
      hide LowBytes, StoreLE, Patch;
      if size - need >= MIN_SPLIT {
        Store(off + need, size - need);
        Store(off + need + 4, MAGIC_FREE);
        Store(off, need);
      }
    }

    // Walk to the first free block of at least `need` bytes.
    method FirstFit(need: nat) returns (off: nat, ghost k: nat)
      requires Valid()
      ensures k == First(blocks, need) && off == Offset(blocks, k)
      ensures off <= limit && (k == |blocks| <==> off == limit)
    {
      hide Encode, LoadLE;
      off, k := 0, 0;
      while off < limit
        invariant k <= |blocks| && off == Offset(blocks, k)
        invariant forall j :: 0 <= j < k ==> blocks[j].live || blocks[j].Size() < need
        decreases |blocks| - k
      {
        AtEnd(blocks, k);
        ReadHeader(k);
        if MagicAt(off) == MAGIC_FREE && SizeAt(off) >= need {
          return;
        }
        off := off + SizeAt(off);
        k := k + 1;
      }
      AtEnd(blocks, k);
    }

    // Turn the free block k into a live one of `need` bytes.
    method Take(off: nat, need: nat, n: word, ghost k: nat)
      requires Valid() && k < |blocks| && off == Offset(blocks, k) && !blocks[k].live
      requires need == Need(n) <= blocks[k].Size() && n > 0
      modifies this`blocks, arena
      ensures arena[..] == PlaceImage(old(blocks), k, need)
      ensures Fits32(n) ==> HDR <= need && Valid() && blocks == Place(old(blocks), k, need)
    {
      hide Encode, LoadLE, StoreLE, SplitBytes, Patch, Place, Need;
      ReadHeader(k);
      Split(off, SizeAt(off), need);
      Store(off + 4, MAGIC_USED);
      if Fits32(n) {
        NeedExact(n);
        PlaceImageIs(blocks, k, need);
        PlaceSized(blocks, k, need, limit);
        blocks := Place(blocks, k, need);
      }
    }

    // Every request is honoured as written, including those whose size
    // computation wraps; only the ones that fit keep the arena well formed.
    method Malloc(n: word) returns (q: Ptr)
      requires Valid()
      modifies this`blocks, arena
      ensures Fits32(n) ==> Valid() && (blocks, q) == MallocF(old(blocks), n)
      ensures q.At? <==> n != 0 && Need(n) <= limit && First(old(blocks), Need(n)) < |old(blocks)|
      ensures q == Null ==> blocks == old(blocks) && arena[..] == old(arena[..])
      ensures q.At? ==> var k := First(old(blocks), Need(n));
                        && q == At(Offset(old(blocks), k) + HDR)
                        && arena[..] == PlaceImage(old(blocks), k, Need(n))
    {
      if n == 0 { return Null; }
      var need := Need(n);
      if need > limit { return Null; }
      var off, k := FirstFit(need);
      if off >= limit { return Null; }
      Take(off, need, n, k);
      return At(off + HDR);
    }

    // A request that fits.
    method MallocFits(n: word) returns (q: Ptr)
      requires Valid() && Fits32(n)
      modifies this`blocks, arena
      ensures Valid() && (blocks, q) == MallocF(old(blocks), n)
    {
      hide MallocF, PlaceImage, First, Need, Total, Sized, Tidy;
      q := Malloc(n);
    }

    // ------------------------------------------------------ free --

    // Block k swallows its free right neighbour.
    method Swallow(off: nat, next: nat, ghost k: nat, ghost least: nat)
      requires least >= HDR && Imaged(least) && k + 1 < |blocks|
      requires off == Offset(blocks, k) && next == Offset(blocks, k + 1)
      modifies this`blocks, arena
      ensures Imaged(least) && blocks == MergeAt(old(blocks), k) && |blocks| == |old(blocks)| - 1
      ensures Offset(blocks, k) == off
    {
      hide Encode, LowBytes, StoreLE, Total, Patch;
      ReadHeader(k);
      ReadHeader(k + 1);
      MergeAtImage(blocks, k);
      MergeAtSized(blocks, k, least);
      Store(off, SizeAt(off) + SizeAt(next));
      assert MergeAt(blocks, k)[..k] == blocks[..k];
      blocks := MergeAt(blocks, k);
    }

    // One forward pass over the headers.
    method CoalesceAll(ghost least: nat)
      requires least >= HDR && Imaged(least)
      modifies this`blocks, arena
      ensures Imaged(least) && Tidy(blocks) && blocks == Coalesce(old(blocks))
    {
      assert Offset(blocks, 0) == 0;
      hide Encode, Coalesce, Settled, MergeAt, Block.Bytes, LoadLE, Sized, Total;
      var off := 0;
      ghost var k := 0;
      SettledStart(blocks);
      SizedOne(blocks, least);
      while off < limit
        invariant Imaged(least) && Sized(blocks, 1) && k <= |blocks| && off == Offset(blocks, k)
        invariant Settled(blocks, k) == Coalesce(old(blocks))
        decreases |blocks| - k
      {
        var next := NextOf(off, k, least);
        if next >= limit { break; }
        CoalesceStep(blocks, k);
        ReadBoth(k, least);
        if MagicAt(off) == MAGIC_FREE && MagicAt(next) == MAGIC_FREE {
          Swallow(off, next, k, least);
          SizedOne(blocks, least);
        } else {
          off, k := next, k + 1;
        }
      }
      AtEnd(blocks, k);
      SettledEnd(blocks, k);
      CoalesceTidy(old(blocks));
    }

    lemma SizedOne(bs: seq<Block>, least: nat)
      requires least >= HDR && Sized(bs, least)
      ensures Sized(bs, 1) && Sized(bs, HDR)
    {
    }

    // The offset after block k, and whether it is the end.
    method NextOf(off: nat, ghost k: nat, ghost least: nat) returns (next: nat)
      requires least >= HDR && Imaged(least) && k <= |blocks| && off == Offset(blocks, k) && off < limit
      ensures k < |blocks| && next == Offset(blocks, k + 1) && (next < limit <==> k + 1 < |blocks|)
    {
      hide Encode, LoadLE, Total, Sized;
      SizedOne(blocks, least);
      AtEnd(blocks, k);
      ReadHeader(k);
      next := off + SizeAt(off);
      AtEnd(blocks, k + 1);
    }

    lemma ReadBoth(k: nat, least: nat)
      requires least >= HDR && Imaged(least) && k + 1 < |blocks|
      ensures Offset(blocks, k) + HDR <= Offset(blocks, k + 1) && Offset(blocks, k + 1) + HDR <= limit
      ensures MagicAt(Offset(blocks, k)) == MAGIC_FREE <==> !blocks[k].live
      ensures MagicAt(Offset(blocks, k + 1)) == MAGIC_FREE <==> !blocks[k + 1].live
    {
      hide Encode, LoadLE, Total, Sized;
      SizedOne(blocks, least);
      ReadHeader(k);
      ReadHeader(k + 1);
    }

    // The header offset of the live block whose payload is p.
    method FindBlock(p: int) returns (found: bool, off: nat, ghost k: nat)
      requires Valid()
      ensures found <==> LiveIndex(blocks, At(p)) >= 0
      ensures found ==> k == LiveIndex(blocks, At(p)) && off == Offset(blocks, k)
    {
      assert Offset(blocks, 0) == 0 && Sized(blocks, 1) && Sized(blocks, HDR);
      hide Encode, LoadLE, Total, Sized, Tidy, Find, FindFrom, LiveIndex, Offset;
      LiveIndexIs(blocks, p);
      FindFromStart(blocks, p);
      FindFromEnd(blocks, p);
      off, k := 0, 0;
      while off < limit
        invariant k <= |blocks| && off == Offset(blocks, k)
        invariant FindFrom(blocks, k, p) == Find(blocks, p)
        decreases |blocks| - k
      {
        AtEnd(blocks, k);
        ReadHeader(k);
        FindFromStep(blocks, k, p);
        if off + HDR == p {
          return MagicAt(off) == MAGIC_USED, off, k;
        }
        off := off + SizeAt(off);
        k := k + 1;
      }
      AtEnd(blocks, k);
      return false, off, k;
    }

    method Free(p: Ptr)
      requires Valid()
      modifies this`blocks, this`errors, arena
      ensures Valid() && View() == FreeF(old(View()), p)
    {
      if p == Null { return; }
      var found, off, k := FindBlock(p.addr);
      if !found {
        errors := (errors + 1) % TWO32;
        return;
      }
      SetMagic(off, k, false);
      CoalesceAll(MIN_SPLIT);
    }

    method SetMagic(off: nat, ghost k: nat, live: bool)
      requires Imaged(MIN_SPLIT) && k < |blocks| && off == Offset(blocks, k)
      modifies this`blocks, arena
      ensures Imaged(MIN_SPLIT) && blocks == old(blocks)[k := old(blocks)[k].(live := live)]
    {
      hide Encode, LowBytes, StoreLE, Total, Block.Bytes, Patch;
      Parts(blocks, k);
      Store(off + 4, Magic(live));
      SetMagicBytes(blocks[k], live);
      HeaderImage(blocks, k, 4, Magic(live), Block(live, blocks[k].data));
      TotalUpdate(blocks, k, Block(live, blocks[k].data));
      blocks := blocks[k := blocks[k].(live := live)];
    }

    // ------------------------------------------------------ payload bytes --

    // Store into the payload of the live block k, which starts at p.
    method Poke(p: int, ghost k: nat, i: nat, v: byte)
      requires Valid() && k < |blocks| && p == Offset(blocks, k) + HDR && i < |blocks[k].data|
      modifies this`blocks, arena
      ensures Valid() && blocks == old(blocks)[k := old(blocks)[k].(data := old(blocks)[k].data[i := v])]
    {
      hide Encode, Total, Block.Bytes;
      PokeImage(blocks, k, i, v);
      ghost var b2 := blocks[k].(data := blocks[k].data[i := v]);
      TotalUpdate(blocks, k, b2);
      arena[p + i] := v;
      blocks := blocks[k := b2];
    }

    method Peek(p: int, ghost k: nat, i: nat) returns (v: byte)
      requires Valid() && k < |blocks| && p == Offset(blocks, k) + HDR && i < |blocks[k].data|
      ensures v == blocks[k].data[i]
    {
      hide Encode, Total, Block.Bytes;
      PokeImage(blocks, k, i, 0);
      v := arena[p + i];
    }

    // A client store: one byte of a live payload.
    method Write(p: int, i: nat, v: byte)
      requires Valid() && p in Live(blocks) && i < |Live(blocks)[p]|
      modifies this`blocks, arena
      ensures Valid() && View() == WriteF(old(View()), p, i, v)
    {
      LiveIndexIsKey(blocks, At(p));
      Poke(p, LiveIndex(blocks, At(p)), i, v);
    }

    // ------------------------------------------------------ calloc --

    method Calloc(n: word, size: word) returns (q: Ptr)
      requires Valid() && ProductFits(limit, n, size)
      modifies this`blocks, arena
      ensures Valid() && (blocks, q) == CallocF(old(blocks), n, size)
    {
      hide Cleared, Encode, Total, Sized, Tidy;
      if n == 0 || size == 0 { return Null; }
      if n > limit || size > limit { return Null; }
      OverflowTest(n, size);
      MulMono(1, n, size);
      var total := n * size % TWO32;
      if total / n != size { return Null; }
      q := Clear(total);
    }

    method Clear(total: word) returns (q: Ptr)
      requires Valid() && 0 < total && Fits32(total)
      modifies this`blocks, arena
      ensures Valid() && (blocks, q) == Cleared(old(blocks), total)
    {
      hide Encode, First, Fill, Carve, Total, Block.Bytes, Need;
      q := MallocFits(total);
      if q == Null { return; }
      ghost var k := First(old(blocks), Need(total));
      PlaceAt(old(blocks), k, Need(total), total);
      ZeroFill(q.addr, k, total);
    }

    // calloc's loop.
    method ZeroFill(q: int, ghost k: nat, total: nat)
      requires Valid() && k < |blocks| && blocks[k].live
      requires q == Offset(blocks, k) + HDR && total <= |blocks[k].data|
      modifies this`blocks, arena
      ensures Valid() && blocks == Fill(old(blocks), k, Repeat<byte>(0, total))
    {
      hide Encode, Total, WellFormed, Fill;
      ghost var got := blocks;
      FillNothing(got, k);
      for i := 0 to total
        invariant Valid() && FillOf(got, k, Repeat<byte>(0, i), blocks)
      {
        FillShape(got, k, Repeat<byte>(0, i));
        FillOffsets(got, k, Repeat<byte>(0, i), k);
        Poke(q, k, i, 0);
        FillOne(got, k, Repeat<byte>(0, i), 0);
        assert Repeat<byte>(0, i) + [0] == Repeat<byte>(0, i + 1);
      }
    }

    // realloc's loop: copy the front of block o's payload over block j's.
    method Copy(p: int, ghost o: nat, q: int, ghost j: nat, count: nat)
      requires Valid() && o < |blocks| && j < |blocks| && o != j && blocks[j].live
      requires p == Offset(blocks, o) + HDR && q == Offset(blocks, j) + HDR
      requires count <= |blocks[o].data| && count <= |blocks[j].data|
      modifies this`blocks, arena
      ensures Valid() && blocks == Fill(old(blocks), j, old(blocks)[o].data[..count])
    {
      hide Encode, Total, WellFormed, Fill;
      ghost var got := blocks;
      ghost var d := got[o].data;
      FillNothing(got, j);
      for i := 0 to count
        invariant Valid() && FillOf(got, j, d[..i], blocks)
      {
        FillShape(got, j, d[..i]);
        FillOffsets(got, j, d[..i], j);
        FillOffsets(got, j, d[..i], o);
        var v := Peek(p, o, i);
        Poke(q, j, i, v);
        FillOne(got, j, d[..i], v);
        assert d[..i] + [v] == d[..i + 1];
      }
    }

    // ------------------------------------------------------ realloc --

    // Every call that returns, including those whose size computation wraps; only the
    // ones that fit keep the arena well formed.
    method Realloc(p: Ptr, n: word) returns (q: Ptr)
      requires Valid() && ReallocReturns(blocks, p, n)
      modifies this`blocks, this`errors, arena
      ensures Fits32(n) ==> Valid() && (View(), q) == ReallocF(old(View()), p, n)
      ensures !Fits32(n) && p == Null ==>
                && errors == old(errors)
                && (q.At? <==> Need(n) <= limit && First(old(blocks), Need(n)) < |old(blocks)|)
                && (q == Null ==> Valid() && blocks == old(blocks))
                && (q.At? ==> var k := First(old(blocks), Need(n));
                              && q == At(Offset(old(blocks), k) + HDR)
                              && arena[..] == PlaceImage(old(blocks), k, Need(n)))
      ensures !Fits32(n) && p != Null && LiveIndex(old(blocks), p) < 0 ==>
                Valid() && q == Null && View() == old(View()).Complain()
      ensures !Fits32(n) && LiveIndex(old(blocks), p) >= 0 ==>
                var k := LiveIndex(old(blocks), p);
                && Need(n) == 8 <= old(blocks)[k].Size()
                && Imaged(HDR) && Tidy(blocks) && errors == old(errors)
                && q == p && blocks == Shrunk(old(blocks), k, 8)
    {
      hide Encode, First, Fill, Carve, Block.Bytes, Need, MallocF, Coalesce, Place, Absorb, Total, Shrunk, PlaceImage;
      NeedExact(n);
      if p == Null {
        q := Malloc(n);
        return;
      }
      if n == 0 {
        Free(p);
        return Null;
      }
      var found, off, k := FindBlock(p.addr);
      if !found {
        errors := (errors + 1) % TWO32;
        return Null;
      }
      q := ReallocLive(p, n, off, k);
    }

    method ReallocLive(p: Ptr, n: word, off: nat, ghost k: nat) returns (q: Ptr)
      requires Valid() && n > 0 && Need(n) != 0
      requires p.At? && k == LiveIndex(blocks, p) && k < |blocks| && off == Offset(blocks, k)
      modifies this`blocks, this`errors, arena
      ensures Fits32(n) ==> Valid() && (View(), q) == ReallocF(old(View()), p, n)
      ensures !Fits32(n) ==>
                && Need(n) == 8 <= old(blocks)[k].Size()
                && Imaged(HDR) && Tidy(blocks) && errors == old(errors)
                && q == p && blocks == Shrunk(old(blocks), k, 8)
    {
      hide Encode, First, Fill, Carve, Block.Bytes, Need, FreeF, MallocF, Coalesce, Place, Absorb;
      hide LiveIndex, LoadLE, Total;
      NeedExact(n);
      assert Sized(blocks, HDR) && Sized(blocks, 1);
      ReadHeader(k);
      var need := Need(n);
      var size := SizeAt(off);
      if need <= size {
        if size - need >= MIN_SPLIT {
          Shrink(off, size, need, k);
        }
        return p;
      }
      var next := off + size;
      AtEnd(blocks, k + 1);
      if next < limit {
        ReadHeader(k + 1);
        if MagicAt(next) == MAGIC_FREE && size + SizeAt(next) >= need {
          Grow(off, size, next, need, k);
          return p;
        }
      }
      q := MoveTo(p, n, size - HDR, k);
    }

    method Shrink(off: nat, size: nat, need: nat, ghost k: nat)
      requires Valid() && k < |blocks| && blocks[k].live && off == Offset(blocks, k) && size == blocks[k].Size()
      requires HDR <= need && need + MIN_SPLIT <= size && need % 8 == 0
      modifies this`blocks, arena
      ensures Imaged(HDR) && Tidy(blocks) && blocks == Coalesce(Place(old(blocks), k, need))
      ensures need >= MIN_SPLIT ==> Valid()
    {
      hide Encode, Total, Block.Bytes, SplitBytes, Carve, Coalesce;
      ghost var least := if need >= MIN_SPLIT then MIN_SPLIT else HDR;
      ShrunkIsPlace(blocks, k, need);
      ReadHeader(k);
      Split(off, size, need);
      PlaceAligned(blocks, k, need);
      if need >= MIN_SPLIT { PlaceSized(blocks, k, need, limit); }
      blocks := Place(blocks, k, need);
      CoalesceAll(least);
      assert Sized(blocks, HDR);
    }

    method Grow(off: nat, size: nat, next: nat, need: nat, ghost k: nat)
      requires Valid() && k + 1 < |blocks| && blocks[k].live && !blocks[k + 1].live
      requires off == Offset(blocks, k) && next == Offset(blocks, k + 1) && size == blocks[k].Size()
      requires 16 <= need <= size + blocks[k + 1].Size() && need % 8 == 0
      modifies this`blocks, arena
      ensures Valid() && blocks == Absorb(old(blocks), k, need)
    {
      AbsorbSized(blocks, k, need, limit);
      AbsorbIsMergeThenPlace(blocks, k, need);
      ghost var target := Absorb(blocks, k, need);
      Swallow(off, next, k, MIN_SPLIT);
      ReadHeader(k);
      SplitImage(blocks, k, need);
      Split(off, SizeAt(off), need);
      blocks := target;
    }

    // Allocate, copy the old payload over, release the old block.
    method MoveTo(p: Ptr, n: word, payload: nat, ghost k: nat) returns (q: Ptr)
      requires Valid() && Fits32(n) && n > 0
      requires p.At? && k == LiveIndex(blocks, p) && payload == |blocks[k].data|
      requires payload + HDR < Need(n)
      modifies this`blocks, this`errors, arena
      ensures Valid()
      ensures q == MallocF(old(blocks), n).1
      ensures q == Null ==> View() == old(View())
      ensures q.At? ==>
                var j := First(old(blocks), Need(n));
                var out := MallocF(old(blocks), n).0;
                && j < |out| && payload <= |out[j].data|
                && View() == FreeF(Mem(Fill(out, j, old(blocks)[k].data), old(errors)), p)
    {
      assert payload % 8 == 0;
      PayloadBelow(payload, n);
      hide Encode, First, Fill, Carve, Total, Block.Bytes, Need, FreeF, MallocF, Coalesce, LiveIndex, Tidy, Sized;
      hide Fits32, RoundUp8;
      ghost var was := blocks;
      q := MallocFits(n);
      if q == Null { return; }
      ghost var o := MoveIndices(was, p, n);
      Relocate(p, q.addr, n, payload, o, First(was, Need(n)));
    }

    // Copy what fits of the old payload over, and release it.
    method Relocate(p: Ptr, q: int, n: word, payload: nat, ghost o: nat, ghost j: nat)
      requires Valid() && p.At? && o < |blocks| && j < |blocks| && o != j && blocks[j].live
      requires p.addr == Offset(blocks, o) + HDR && q == Offset(blocks, j) + HDR
      requires payload == |blocks[o].data| && payload <= n <= |blocks[j].data|
      modifies this`blocks, this`errors, arena
      ensures Valid() && View() == FreeF(Mem(Fill(old(blocks), j, old(blocks)[o].data), old(errors)), p)
    {
      hide Encode, Fill, Total, Block.Bytes, FreeF, Tidy, Sized;
      ghost var d := blocks[o].data;
      var copy := payload;
      if copy > n { copy := n; }
      Copy(p.addr, o, q, j, copy);
      assert d[..copy] == d;
      Free(p);
    }

    // ------------------------------------------------------ statistics --

    method FreeBytesNow() returns (total: nat)
      requires Valid()
      ensures total == FreeBytes(blocks)
    {
      hide Encode, LoadLE;
      total := 0;
      var off := 0;
      ghost var k := 0;
      assert blocks[0..] == blocks;
      while off < limit
        invariant k <= |blocks| && off == Offset(blocks, k)
        invariant FreeBytes(blocks) == total + FreeBytes(blocks[k..])
        decreases |blocks| - k
      {
        AtEnd(blocks, k);
        ReadHeader(k);
        assert blocks[k..][1..] == blocks[k + 1..];
        if MagicAt(off) == MAGIC_FREE && SizeAt(off) > HDR {
          total := total + (SizeAt(off) - HDR);
        }
        off := off + SizeAt(off);
        k := k + 1;
      }
      AtEnd(blocks, k);
    }

    method LargestFreeNow() returns (best: nat)
      requires Valid()
      ensures best == LargestFree(blocks)
    {
      hide Encode, LoadLE;
      best := 0;
      var off := 0;
      ghost var k := 0;
      assert blocks[0..] == blocks;
      while off < limit
        invariant k <= |blocks| && off == Offset(blocks, k)
        invariant LargestFree(blocks) == if best > LargestFree(blocks[k..]) then best else LargestFree(blocks[k..])
        decreases |blocks| - k
      {
        AtEnd(blocks, k);
        ReadHeader(k);
        assert blocks[k..][1..] == blocks[k + 1..];
        if MagicAt(off) == MAGIC_FREE && SizeAt(off) > HDR && SizeAt(off) - HDR > best {
          best := SizeAt(off) - HDR;
        }
        off := off + SizeAt(off);
        k := k + 1;
      }
      AtEnd(blocks, k);
    }

    method CountBlocks() returns (n: nat)
      requires Valid()
      ensures n == |blocks|
    {
      hide Encode, LoadLE;
      n := 0;
      var off := 0;
      while off < limit
        invariant n <= |blocks| && off == Offset(blocks, n)
        decreases |blocks| - n
      {
        AtEnd(blocks, n);
        ReadHeader(n);
        off := off + SizeAt(off);
        n := n + 1;
      }
      AtEnd(blocks, n);
    }

    // ------------------------------------------------------ heap_check --

    // Runs on any bytes on which the walk ends, valid or not.
    method Check() returns (ok: bool)
      requires Shape() && Ends(arena[..])
      ensures ok <==> Accepts(arena[..])
      ensures ok && Tame(arena[..], 0) <==> Coherent(arena[..])
    {
      hide LoadLE, Coherent, Accepts, Tame, SizeIn, MagicIn, SizeAt, MagicAt, Walk32;
      WalkDecidesCoherence(arena[..]);
      ghost var start: nat :| Walk32(arena[..], 0, false, start).Some?;
      OneVerdict(arena[..], start);
      var off: nat, prevFree := 0, false;
      ghost var fuel := start;
      while off < limit
        invariant off % 8 == 0
        invariant Walk32(arena[..], 0, false, start) == Walk32(arena[..], off, prevFree, fuel)
        decreases fuel
      {
        SameReading(off);
        WalkStep(arena[..], off, prevFree, fuel);
        var size, magic := SizeAt(off), MagicAt(off);
        if size < HDR || size % 8 != 0 { return false; }
        if magic != MAGIC_FREE && magic != MAGIC_USED { return false; }
        if magic == MAGIC_FREE && prevFree { return false; }
        prevFree := magic == MAGIC_FREE;
        off := (off + size) % TWO32;
        fuel := fuel - 1;
      }
      WalkStop(arena[..], off, prevFree, fuel);
      return off == limit;
    }

    lemma SameReading(off: nat)
      requires off + 8 <= arena.Length
      ensures SizeAt(off) == SizeIn(arena[..], off) && MagicAt(off) == MagicIn(arena[..], off)
    {
      assert arena[off..off + 4] == arena[..][off..off + 4];
      assert arena[off + 4..off + 8] == arena[..][off + 4..off + 8];
    }

    // On every arena the allocator maintains, heap_check returns 1.
    method CheckPasses() returns (ok: bool)
      requires Valid()
      ensures ok
    {
      CoherentWhenValid();
      ok := Check();
    }

    lemma CoherentWhenValid()
      requires Valid()
      ensures Coherent(arena[..]) && Ends(arena[..])
    {
      assert Sized(blocks, HDR);
      WalkDecidesCoherence(arena[..]);
    }
  }
}
