// What the allocator promises its clients: the live blocks behave as a map from
// payload address to bytes, whatever the calls do to headers and free space.
module HeapLaws {
  import opened Words
  import opened Seqs
  import opened HeapBlocks
  import opened HeapSpec

  ghost function Live(bs: seq<Block>): map<int, seq<byte>> { Lives(bs, 0) }

  // ---------------------------------------------------- replacing a stretch --

  // One stretch of a client's map replaced by another.
  ghost predicate Swapped(was: map<int, seq<byte>>, b: map<int, seq<byte>>,
                          b2: map<int, seq<byte>>, now: map<int, seq<byte>>) {
    && now == (was - b.Keys) + b2
    && (forall p :: p in b2 && p in was ==> p in b)
    && (forall p :: p in b ==> p in was && was[p] == b[p])
  }

  ghost predicate Band(m: map<int, seq<byte>>, lo: int, hi: int) {
    forall p :: p in m ==> lo < p <= hi
  }

  lemma SwapMiddle(a: map<int, seq<byte>>, b: map<int, seq<byte>>, b2: map<int, seq<byte>>, c: map<int, seq<byte>>,
                   lo: int, hi: int, top: int, was: map<int, seq<byte>>, now: map<int, seq<byte>>)
    requires was == a + b + c && now == a + b2 + c
    requires Band(a, 0, lo) && Band(b, lo, hi) && Band(b2, lo, hi) && Band(c, hi, top) && lo <= hi
    ensures Swapped(was, b, b2, now)
  {
    var r := (was - b.Keys) + b2;
    forall p ensures p in now <==> p in r {
    }
    forall p | p in now ensures now[p] == r[p] {
    }
  }

  lemma LivesBand(bs: seq<Block>, base: int)
    ensures Band(Lives(bs, base), base, base + Total(bs))
  {
    LivesRange(bs, base);
  }

  // The client's map of a three-part list, part by part.
  lemma LivesParts(pre: seq<Block>, mid: seq<Block>, post: seq<Block>, bs: seq<Block>, hi: int)
    requires bs == pre + mid + post && hi == Total(pre) + Total(mid)
    ensures Live(bs) == Lives(pre, 0) + Lives(mid, Total(pre)) + Lives(post, hi)
    ensures Band(Lives(pre, 0), 0, Total(pre)) && Band(Lives(mid, Total(pre)), Total(pre), hi)
    ensures Band(Lives(post, hi), hi, hi + Total(post))
  {
    LivesSplit(pre, mid, post);
    LivesBand(pre, 0);
    LivesBand(mid, Total(pre));
    LivesBand(post, hi);
  }

  // Replacing `mid` by `mid2` of the same extent changes the client's map only there.
  lemma LivesReplace(pre: seq<Block>, mid: seq<Block>, mid2: seq<Block>, post: seq<Block>,
                     was: seq<Block>, now: seq<Block>)
    requires Total(mid) == Total(mid2)
    requires was == pre + mid + post && now == pre + mid2 + post
    ensures Swapped(Live(was), Lives(mid, Total(pre)), Lives(mid2, Total(pre)), Live(now))
  {
    var lo, hi := Total(pre), Total(pre) + Total(mid);
    LivesParts(pre, mid, post, was, hi);
    LivesParts(pre, mid2, post, now, hi);
    SwapMiddle(Lives(pre, 0), Lives(mid, lo), Lives(mid2, lo), Lives(post, hi),
               lo, hi, hi + Total(post), Live(was), Live(now));
  }

  lemma SizedReplace(pre: seq<Block>, mid: seq<Block>, mid2: seq<Block>, post: seq<Block>, n: nat)
    requires Sized(pre + mid + post, MIN_SPLIT) && Total(pre + mid + post) == n
    requires Sized(mid2, MIN_SPLIT) && Total(mid2) == Total(mid)
    ensures Sized(pre + mid2 + post, MIN_SPLIT) && Total(pre + mid2 + post) == n
  {
    var a, b := pre + mid + post, pre + mid2 + post;
    forall i | 0 <= i < |b| ensures b[i].Size() % 8 == 0 && b[i].Size() >= MIN_SPLIT {
      if i < |pre| {
        assert b[i] == a[i];
      } else if i >= |pre| + |mid2| {
        assert b[i] == a[i - |mid2| + |mid|];
      }
    }
    TotalAppend(pre + mid, post);
    TotalAppend(pre, mid);
    TotalAppend(pre + mid2, post);
    TotalAppend(pre, mid2);
  }

  // Tidiness of a three-part list is tidiness of the parts and of the two seams.
  lemma TidyJoin(pre: seq<Block>, mid: seq<Block>, post: seq<Block>)
    requires mid != [] && Tidy(mid)
    requires Tidy(pre) && Tidy(post)
    requires pre != [] ==> pre[|pre| - 1].live || mid[0].live
    requires post != [] ==> mid[|mid| - 1].live || post[0].live
    ensures Tidy(pre + mid + post)
  {
    var b := pre + mid + post;
    forall i, j | 0 <= i && j == i + 1 < |b| ensures b[i].live || b[j].live {
      if j < |pre| {
      } else if j == |pre| {
        assert b[i] == pre[|pre| - 1] && b[j] == mid[0];
      } else if j < |pre| + |mid| {
        assert b[i] == mid[i - |pre|] && b[j] == mid[j - |pre|];
      } else if j == |pre| + |mid| {
        assert b[i] == mid[|mid| - 1] && b[j] == post[0];
      } else {
        assert b[i] == post[i - |pre| - |mid|] && b[j] == post[j - |pre| - |mid|];
      }
    }
  }

  lemma TidyParts(bs: seq<Block>, i: nat, j: nat)
    requires Tidy(bs) && i <= j <= |bs|
    ensures Tidy(bs[..i]) && Tidy(bs[j..])
  {
  }

  // A stretch replaced by a well-formed one of the same extent that starts live and
  // does not end free against a free neighbour.
  lemma SpliceKeeps(pre: seq<Block>, mid: seq<Block>, c: seq<Block>, post: seq<Block>, n: nat)
    requires WellFormed(pre + mid + post, n)
    requires c != [] && Sized(c, MIN_SPLIT) && Tidy(c) && Total(c) == Total(mid) && c[0].live
    requires post != [] ==> c[|c| - 1].live || post[0].live
    ensures WellFormed(pre + c + post, n)
  {
    var bs := pre + mid + post;
    TidyParts(bs, |pre|, |pre + mid|);
    assert bs[..|pre|] == pre && bs[|pre + mid|..] == post;
    hide Sized, Tidy, Total;
    SizedReplace(pre, mid, c, post, n);
    TidyJoin(pre, c, post);
  }

  lemma LivesOne(b: Block, base: int)
    ensures Lives([b], base) == if b.live then map[base + HDR := b.data] else map[]
  {
    assert [b][1..] == [];
  }

  lemma LivesTwo(a: Block, b: Block, base: int)
    ensures Lives([a, b], base) == Lives([a], base) + Lives([b], base + a.Size())
  {
    LivesAppend([a], [b], base);
    TotalTwo(a, b);
    assert [a, b] == [a] + [b];
  }

  // A carved stretch holds exactly one live block, at its front.
  lemma LivesCarve(d: seq<byte>, need: nat, base: int)
    requires HDR <= need <= HDR + |d|
    ensures Lives(Carve(d, need), base) == map[base + HDR := Carve(d, need)[0].data]
  {
    var c := Carve(d, need);
    LivesOne(c[0], base);
    if |c| == 2 {
      LivesTwo(c[0], c[1], base);
      LivesOne(c[1], base + c[0].Size());
    }
  }

  // ---------------------------------------------------- pointers and blocks --

  lemma {:induction false} FindIsLive(bs: seq<Block>, base: int, p: int)
    requires Sized(bs, 1)
    ensures var k := Find(bs, p - base);
            && (k < |bs| ==> p == base + Offset(bs, k) + HDR)
            && (k < |bs| && bs[k].live <==> p in Lives(bs, base))
            && (k < |bs| && bs[k].live ==> Lives(bs, base)[p] == bs[k].data)
  {
    if bs != [] {
      var nb := base + bs[0].Size();
      LivesRange(bs[1..], nb);
      FindIsLive(bs[1..], nb, p);
      var k := Find(bs, p - base);
      if p - base == HDR {
        assert bs[..0] == [];
      } else if k < |bs| {
        assert bs[..k][1..] == bs[1..][..k - 1];
        assert p - base - bs[0].Size() == p - nb;
      }
    }
  }

  // A pointer is accepted exactly when it is a key of the client's map.
  lemma LiveIndexIsKey(bs: seq<Block>, p: Ptr)
    requires Sized(bs, 1)
    ensures LiveIndex(bs, p) >= 0 <==> p.At? && p.addr in Live(bs)
    ensures LiveIndex(bs, p) >= 0 ==>
              && p.addr == Offset(bs, LiveIndex(bs, p)) + HDR
              && Live(bs)[p.addr] == bs[LiveIndex(bs, p)].data
  {
    if p.At? { FindIsLive(bs, 0, p.addr); }
  }

  // ---------------------------------------------------- malloc --

  // Carving a stretch leaves one live block at its address...
  lemma CarveLives(pre: seq<Block>, mid: seq<Block>, d: seq<byte>, need: nat, post: seq<Block>,
                   was: seq<Block>, now: seq<Block>)
    requires HDR <= need <= HDR + |d| && need % 8 == 0 && |d| % 8 == 0 && Total(mid) == HDR + |d|
    requires was == pre + mid + post && now == pre + Carve(d, need) + post
    ensures Swapped(Live(was), Lives(mid, Total(pre)), map[Total(pre) + HDR := Carve(d, need)[0].data], Live(now))
  {
    CarveShape(d, need);
    LivesReplace(pre, mid, Carve(d, need), post, was, now);
    LivesCarve(d, need, Total(pre));
  }

  lemma PlaceLives(bs: seq<Block>, k: nat, need: nat)
    requires Sized(bs, MIN_SPLIT) && k < |bs| && HDR <= need <= bs[k].Size() && need % 8 == 0
    ensures Swapped(Live(bs), if bs[k].live then map[Offset(bs, k) + HDR := bs[k].data] else map[],
                    map[Offset(bs, k) + HDR := Carve(bs[k].data, need)[0].data], Live(Place(bs, k, need)))
  {
    assert bs == bs[..k] + [bs[k]] + bs[k + 1..];
    TotalTwo(bs[k], bs[k]);
    CarveLives(bs[..k], [bs[k]], bs[k].data, need, bs[k + 1..], bs, Place(bs, k, need));
    LivesOne(bs[k], Offset(bs, k));
  }

  lemma PlaceSized(bs: seq<Block>, k: nat, need: nat, n: nat)
    requires WellFormed(bs, n) && k < |bs|
    requires 16 <= need <= bs[k].Size() && need % 8 == 0
    ensures Sized(Place(bs, k, need), MIN_SPLIT) && Total(Place(bs, k, need)) == n
    ensures !bs[k].live ==> WellFormed(Place(bs, k, need), n)
  {
    var pre, c, post := bs[..k], Carve(bs[k].data, need), bs[k + 1..];
    CarveShape(bs[k].data, need);
    TotalTwo(bs[k], bs[k]);
    assert bs == pre + [bs[k]] + post && Place(bs, k, need) == pre + c + post && Total(c) == Total([bs[k]]);
    assert post != [] ==> post[0] == bs[k + 1] && (bs[k].live || bs[k + 1].live);
    hide Sized, Tidy, Total, Carve, Place;
    SizedReplace(pre, [bs[k]], c, post, n);
    if !bs[k].live { SpliceKeeps(pre, [bs[k]], c, post, n); }
  }

  // A granted request adds one fresh block of at least n bytes to the client's
  // map; a refused one changes nothing.
  lemma MallocLaw(bs: seq<Block>, n: word, limit: nat)
    requires WellFormed(bs, limit) && Fits32(n)
    ensures var (out, q) := MallocF(bs, n);
            && WellFormed(out, limit)
            && (q == Null ==> out == bs)
            && (q.At? ==> n > 0 && q.addr !in Live(bs) && q.addr in Live(out)
                          && Live(out) == Live(bs)[q.addr := Live(out)[q.addr]]
                          && |Live(out)[q.addr]| - RoundUp8(n) in {0, 8})
  {
    NeedExact(n);
    var k := First(bs, Need(n));
    if n != 0 && Need(n) <= Total(bs) && k < |bs| {
      CarveSlack(bs[k].data, n);
      hide Carve, Place, Total, Lives, Swapped, Need, Tidy, Sized, First;
      PlaceSized(bs, k, Need(n), limit);
      PlaceLives(bs, k, Need(n));
      SwappedIn(Live(bs), Offset(bs, k) + HDR, Carve(bs[k].data, Need(n))[0].data, Live(Place(bs, k, Need(n))));
    }
  }

  lemma CarveSlack(d: seq<byte>, n: word)
    requires Fits32(n) && n > 0 && Need(n) <= HDR + |d| && |d| % 8 == 0
    ensures HDR <= Need(n) && Carve(d, Need(n)) != [] && |Carve(d, Need(n))[0].data| - RoundUp8(n) in {0, 8}
  {
    NeedExact(n);
    hide Need;
    CarveShape(d, Need(n));
  }

  lemma SwappedIn(was: map<int, seq<byte>>, a: int, d: seq<byte>, now: map<int, seq<byte>>)
    requires Swapped(was, map[], map[a := d], now)
    ensures a !in was && a in now && now == was[a := now[a]] && now[a] == d
  {
  }

  lemma {:induction false} LargestFreeIsMax(bs: seq<Block>)
    ensures forall i :: 0 <= i < |bs| && !bs[i].live ==> |bs[i].data| <= LargestFree(bs)
    ensures LargestFree(bs) == 0 || exists i :: 0 <= i < |bs| && !bs[i].live && |bs[i].data| == LargestFree(bs)
  {
    if bs != [] {
      LargestFreeIsMax(bs[1..]);
      forall i | 0 <= i < |bs| && !bs[i].live ensures |bs[i].data| <= LargestFree(bs) {
        if i > 0 { assert bs[i] == bs[1..][i - 1]; }
      }
      if LargestFree(bs) != 0 && LargestFree(bs) == LargestFree(bs[1..]) {
        var j :| 0 <= j < |bs[1..]| && !bs[1..][j].live && |bs[1..][j].data| == LargestFree(bs[1..]);
        assert bs[j + 1] == bs[1..][j];
      }
    }
  }

  lemma {:induction false} BlockFitsTotal(bs: seq<Block>, i: nat)
    requires i < |bs|
    ensures bs[i].Size() <= Total(bs)
  {
    if i > 0 { BlockFitsTotal(bs[1..], i - 1); }
  }

  // malloc succeeds exactly when the rounded request fits the largest free
  // payload, and then takes the lowest-addressed block that is large enough.
  lemma MallocSucceedsIff(bs: seq<Block>, n: word)
    requires Sized(bs, MIN_SPLIT) && Fits32(n) && n > 0
    ensures MallocF(bs, n).1.At? <==> RoundUp8(n) <= LargestFree(bs)
    ensures MallocF(bs, n).1.At? ==>
              exists k :: 0 <= k < |bs| && !bs[k].live && |bs[k].data| >= RoundUp8(n)
                          && MallocF(bs, n).1.addr == Offset(bs, k) + HDR
                          && forall j :: 0 <= j < k ==> bs[j].live || |bs[j].data| < RoundUp8(n)
  {
    NeedExact(n);
    LargestFreeIsMax(bs);
    var k := First(bs, Need(n));
    if k < |bs| {
      BlockFitsTotal(bs, k);
    }
  }

  // ---------------------------------------------------- free --

  lemma ReleaseLaw(bs: seq<Block>, k: nat, n: nat)
    requires WellFormed(bs, n) && k < |bs| && bs[k].live
    ensures WellFormed(Coalesce(bs[k := bs[k].(live := false)]), n)
    ensures Live(Coalesce(bs[k := bs[k].(live := false)])) == Live(bs) - {Offset(bs, k) + HDR}
  {
    var b2 := bs[k].(live := false);
    var pre, mid, mid2, post := bs[..k], [bs[k]], [b2], bs[k + 1..];
    assert bs == pre + mid + post;
    assert bs[k := b2] == pre + mid2 + post;
    TotalTwo(bs[k], bs[k]);
    TotalTwo(b2, b2);
    SizedReplace(pre, mid, mid2, post, n);
    LivesReplace(pre, mid, mid2, post, bs, bs[k := b2]);
    LivesOne(bs[k], Total(pre));
    LivesOne(b2, Total(pre));
    CoalesceKeeps(bs[k := b2]);
    CoalesceLives(bs[k := b2], 0);
  }

  // Freeing a live block removes exactly it; anything else non-null is counted as
  // an error and changes no block, hence no byte of the arena.
  lemma FreeLaw(m: Mem, p: Ptr, limit: nat)
    requires WellFormed(m.blocks, limit)
    ensures var out := FreeF(m, p);
            && WellFormed(out.blocks, limit)
            && (p.At? && p.addr in Live(m.blocks) ==>
                  Live(out.blocks) == Live(m.blocks) - {p.addr} && out.errors == m.errors)
            && (p.At? && p.addr !in Live(m.blocks) ==>
                  out.blocks == m.blocks && out.errors == (m.errors + 1) % TWO32)
            && (p == Null ==> out == m)
  {
    LiveIndexIsKey(m.blocks, p);
    var k := LiveIndex(m.blocks, p);
    if k >= 0 { ReleaseLaw(m.blocks, k, limit); }
  }

  // ---------------------------------------------------- stores --

  // What a block list looks like from outside its payloads.
  function Layout(bs: seq<Block>): (r: seq<(bool, nat)>)
    ensures |r| == |bs|
  {
    seq(|bs|, i requires 0 <= i < |bs| => (bs[i].live, bs[i].Size()))
  }

  lemma {:induction false} FindOffset(bs: seq<Block>, k: nat)
    requires k < |bs|
    ensures Find(bs, Offset(bs, k) + HDR) == k
    decreases k
  {
    if k > 0 {
      FindOffset(bs[1..], k - 1);
      assert bs[..k][1..] == bs[1..][..k - 1];
    }
  }

  lemma {:induction false} SettledSkips(bs: seq<Block>, k: nat)
    requires k < |bs| && Tidy(bs[..k + 1])
    ensures Coalesce(bs) == Settled(bs, k)
    decreases k
  {
    hide Coalesce, Settled;
    if k == 0 {
      SettledStart(bs);
    } else {
      assert bs[..k] == bs[..k + 1][..k];
      SettledSkips(bs, k - 1);
      assert bs[..k + 1][k - 1].live || bs[..k + 1][k].live;
      CoalesceStep(bs, k - 1);
    }
  }

  // One merge is all there is to do when only blocks k and k + 1 touch.
  lemma OneMerge(bs: seq<Block>, k: nat)
    requires k + 1 < |bs| && !bs[k].live && !bs[k + 1].live
    requires Tidy(bs[..k + 1]) && Tidy(MergeAt(bs, k))
    ensures Coalesce(bs) == MergeAt(bs, k)
  {
    hide Coalesce, Merge;
    SettledSkips(bs, k);
    CoalesceStep(bs, k);
    var m := MergeAt(bs, k);
    CoalesceTidyIsIdentity(m[k..]);
    assert m == m[..k] + m[k..];
  }

  lemma TidyLike(bs: seq<Block>, cs: seq<Block>)
    requires Tidy(bs) && |cs| <= |bs| && forall i :: 0 <= i < |cs| ==> cs[i].live == bs[i].live
    ensures Tidy(cs)
  {
  }

  // Freeing the block just placed restores the layout.
  lemma FreeAfterPlace(bs: seq<Block>, k: nat, need: nat)
    requires Tidy(bs) && k < |bs| && !bs[k].live && HDR <= need <= bs[k].Size()
    ensures var out := Place(bs, k, need);
            k < |out| && out[k].live && Layout(Coalesce(out[k := out[k].(live := false)])) == Layout(bs)
  {
    hide Coalesce, Block.Bytes;
    var (d, out) := (bs[k].data, Place(bs, k, need));
    var freed := out[k := out[k].(live := false)];
    if HDR + |d| - need >= MIN_SPLIT {
      var m := MergeAt(freed, k);
      assert freed[..k] == bs[..k] && freed[k + 2..] == bs[k + 1..];
      assert |m| == |bs| && forall i :: 0 <= i < |bs| && i != k ==> m[i] == bs[i];
      MergeSize(freed[k], freed[k + 1]);
      TidyLike(bs, m);
      TidyLike(bs, freed[..k + 1]);
      OneMerge(freed, k);
    } else {
      assert freed == bs;
      CoalesceTidyIsIdentity(bs);
    }
  }

  // free undoes malloc: the same memory for the client, the same blocks, live and
  // free, of the same sizes in the same places, and no complaint.
  lemma FreeUndoesMalloc(m: Mem, n: word, limit: nat)
    requires WellFormed(m.blocks, limit) && Fits32(n) && MallocF(m.blocks, n).1.At?
    ensures var (out, q) := MallocF(m.blocks, n);
            var r := FreeF(m.(blocks := out), q);
            && Layout(r.blocks) == Layout(m.blocks) && r.errors == m.errors
            && Live(r.blocks) == Live(m.blocks)
  {
    hide Coalesce, Carve, Total, Live, Find, Need, Layout;
    NeedExact(n);
    var k := First(m.blocks, Need(n));
    FreeAfterPlace(m.blocks, k, Need(n));
    var (out, q) := MallocF(m.blocks, n);
    MallocLaw(m.blocks, n, limit);
    FreeLaw(m.(blocks := out), q, limit);
    FindOffset(out, k);
    assert out[..k] == m.blocks[..k];
    MapBack(Live(m.blocks), Live(out), q.addr);
  }

  lemma MapBack(was: map<int, seq<byte>>, now: map<int, seq<byte>>, a: int)
    requires a !in was && a in now && now == was[a := now[a]]
    ensures now - {a} == was
  {
  }

  // Rewriting the payload of a live block, in place.
  lemma SetDataLaw(bs: seq<Block>, k: nat, d: seq<byte>, n: nat)
    requires WellFormed(bs, n) && k < |bs| && bs[k].live && |d| == |bs[k].data|
    ensures WellFormed(bs[k := bs[k].(data := d)], n)
    ensures Offset(bs, k) + HDR in Live(bs) && Live(bs)[Offset(bs, k) + HDR] == bs[k].data
    ensures Live(bs[k := bs[k].(data := d)]) == Live(bs)[Offset(bs, k) + HDR := d]
  {
    var b2 := bs[k].(data := d);
    var pre, post := bs[..k], bs[k + 1..];
    assert bs == pre + [bs[k]] + post;
    assert bs[k := b2] == pre + [b2] + post;
    TotalTwo(bs[k], b2);
    TotalTwo(b2, b2);
    SizedReplace(pre, [bs[k]], [b2], post, n);
    LivesReplace(pre, [bs[k]], [b2], post, bs, bs[k := b2]);
    LivesOne(bs[k], Total(pre));
    LivesOne(b2, Total(pre));
  }

  // ---------------------------------------------------- calloc --

  lemma ClearedLaw(bs: seq<Block>, total: word, limit: nat)
    requires WellFormed(bs, limit) && 0 < total && Fits32(total)
    ensures var (out, q) := Cleared(bs, total);
            && WellFormed(out, limit)
            && (q == Null ==> out == bs)
            && (q.At? <==> RoundUp8(total) <= LargestFree(bs))
            && (q.At? ==> q == MallocF(bs, total).1 && q.addr !in Live(bs) && q.addr in Live(out)
                          && Live(out) == Live(bs)[q.addr := Live(out)[q.addr]]
                          && Repeat<byte>(0, total) <= Live(out)[q.addr]
                          && |Live(out)[q.addr]| - RoundUp8(total) in {0, 8})
  {
    MallocLaw(bs, total, limit);
    MallocSucceedsIff(bs, total);
    hide Total, Live, Tidy, Sized, Carve, First, Need, LargestFree, RoundUp8;
    var (out, q) := MallocF(bs, total);
    if q.At? {
      var k := First(bs, Need(total));
      PlaceAt(bs, k, Need(total), total);
      assert q.addr == Offset(out, k) + HDR;
      hide MallocF, Place, Offset;
      SetDataLaw(out, k, Repeat<byte>(0, total) + out[k].data[total..], limit);
    }
  }

  // calloc hands out a fresh block whose first n * size bytes are zero, no larger than
  // malloc's would be and in its place; it does so exactly when the product fits 32 bits
  // and a block is large enough.
  lemma CallocLaw(bs: seq<Block>, n: word, size: word, limit: nat)
    requires WellFormed(bs, limit) && limit <= ARENA_MAX && ProductFits(limit, n, size)
    ensures var (out, q) := CallocF(bs, n, size);
            && WellFormed(out, limit)
            && (q == Null ==> out == bs)
            && (q.At? <==> 0 < n * size < TWO32 && RoundUp8(n * size) <= LargestFree(bs))
            && (q.At? ==> && Fits32(n * size) && q == MallocF(bs, n * size).1
                          && q.addr !in Live(bs) && q.addr in Live(out)
                          && Live(out) == Live(bs)[q.addr := Live(out)[q.addr]]
                          && Repeat<byte>(0, n * size) <= Live(out)[q.addr]
                          && |Live(out)[q.addr]| - RoundUp8(n * size) in {0, 8})
  {
    LargestFits(bs);
    if n == 0 || size == 0 {
    } else {
      MulMono(1, n, size);
      MulMono(1, size, n);
      hide Cleared, Live, LargestFree, RoundUp8;
      RoundsUp(n * size);
      if n <= Total(bs) && size <= Total(bs) && n * size < TWO32 { ClearedLaw(bs, n * size, limit); }
    }
  }

  lemma RoundsUp(n: nat)
    ensures n <= RoundUp8(n) < n + 8 && RoundUp8(n) % 8 == 0
  {
  }

  lemma {:induction false} LargestFits(bs: seq<Block>)
    ensures LargestFree(bs) <= Total(bs)
  {
    if bs != [] { LargestFits(bs[1..]); }
  }

  // ---------------------------------------------------- realloc --

  // A payload for a request of n bytes: rounded up, and at most 8 bytes more.
  predicate Snug(size: nat, n: nat) { size - RoundUp8(n) in {0, 8} }

  // What realloc(p, n) may do to a client's map when p is live and n > 0: either
  // fail and change nothing, or hand back a block of n bytes, rounded up and at most 8
  // more, that starts with the old contents, at p or at an address not in use, and
  // leave every other block as it was.
  ghost predicate Moved(was: map<int, seq<byte>>, p: int, n: nat, q: Ptr, now: map<int, seq<byte>>)
    requires p in was
  {
    match q
    case Null => now == was
    case At(a) =>
      && a in now && Snug(|now[a]|, n)
      && (a == p || a !in was)
      && now - {a} == was - {p}
      && var keep := if n < |was[p]| then n else |was[p]|; now[a][..keep] == was[p][..keep]
  }

  lemma SameAddress(was: map<int, seq<byte>>, a: int, d: seq<byte>, d2: seq<byte>, n: nat, now: map<int, seq<byte>>)
    requires Swapped(was, map[a := d], map[a := d2], now)
    requires Snug(|d2|, n) && n <= |d2| && (d <= d2 || d2 <= d)
    ensures a in was && Moved(was, a, n, At(a), now)
  {
    assert a in map[a := d] && a in map[a := d2];
    assert now == (was - {a}) + map[a := d2];
    assert now - {a} == was - {a};
  }

  lemma NewAddress(was: map<int, seq<byte>>, a: int, q: int, d2: seq<byte>, n: nat, now: map<int, seq<byte>>)
    requires a in was && q !in was && Snug(|d2|, n) && n <= |d2| && was[a] <= d2
    requires now == was[q := d2] - {a}
    ensures Moved(was, a, n, At(q), now)
  {
    assert now - {q} == was - {a};
  }

  lemma ShrinkLaw(bs: seq<Block>, k: nat, n: word, limit: nat)
    requires WellFormed(bs, limit) && k < |bs| && bs[k].live
    requires Fits32(n) && n > 0 && Need(n) <= bs[k].Size()
    ensures var a := Offset(bs, k) + HDR;
            var out := Coalesce(Place(bs, k, Need(n)));
            WellFormed(out, limit) && a in Live(bs) && Moved(Live(bs), a, n, At(a), Live(out))
  {
    var (need, a) := (Need(n), Offset(bs, k) + HDR);
    CarvedPayload(bs[k].data, n);
    hide Carve, Coalesce, Place, Total, Lives, Swapped, Moved, Need, Tidy, Sized, Encode;
    NeedExact(n);
    PlaceSized(bs, k, need, limit);
    PlaceLives(bs, k, need);
    CoalesceKeeps(Place(bs, k, need));
    CoalesceLives(Place(bs, k, need), 0);
    SameAddress(Live(bs), a, bs[k].data, Carve(bs[k].data, need)[0].data, n, Live(Place(bs, k, need)));
  }

  // The payload carved for a request that fits.
  lemma CarvedPayload(d: seq<byte>, n: word)
    requires Fits32(n) && n > 0 && Need(n) <= HDR + |d| && |d| % 8 == 0
    ensures HDR <= Need(n) && Carve(d, Need(n)) != []
    ensures var c := Carve(d, Need(n))[0].data; c <= d && n <= |c| && Snug(|c|, n)
  {
    NeedExact(n);
    CarveSlack(d, n);
    CarveShape(d, Need(n));
    hide Need, Carve;
  }

  // Two blocks merged and carved again fill the same extent.
  lemma CarvedPair(a: Block, b: Block, need: nat)
    requires a.Size() % 8 == 0 && b.Size() % 8 == 0
    requires 16 <= need <= a.Size() + b.Size() && need % 8 == 0
    ensures var c := Carve(Merge(a, b).data, need);
            c != [] && Sized(c, MIN_SPLIT) && Tidy(c) && Total(c) == Total([a, b]) && c[0].live
  {
    hide Merge, Block.Bytes;
    MergeSize(a, b);
    SumOfEights(a.Size(), b.Size());
    CarveShape(Merge(a, b).data, need);
    TotalTwo(a, b);
    hide Carve, Sized, Tidy, Total;
  }

  lemma AbsorbSized(bs: seq<Block>, k: nat, need: nat, n: nat)
    requires WellFormed(bs, n) && k + 1 < |bs| && bs[k].live && !bs[k + 1].live
    requires 16 <= need <= bs[k].Size() + bs[k + 1].Size() && need % 8 == 0
    ensures WellFormed(Absorb(bs, k, need), n)
  {
    hide Merge, Carve, Total, Block.Bytes;
    var pre, mid, post := bs[..k], [bs[k], bs[k + 1]], bs[k + 2..];
    MergeSize(bs[k], bs[k + 1]);
    var c := Carve(Merge(bs[k], bs[k + 1]).data, need);
    CarvedPair(bs[k], bs[k + 1], need);
    assert post != [] ==> post[0] == bs[k + 2] && (bs[k + 1].live || bs[k + 2].live);
    hide Sized, Tidy;
    assert bs == pre + mid + post;
    assert Absorb(bs, k, need) == pre + c + post;
    SpliceKeeps(pre, mid, c, post, n);
  }

  lemma AbsorbLives(bs: seq<Block>, k: nat, need: nat)
    requires Sized(bs, MIN_SPLIT) && k + 1 < |bs| && bs[k].live && !bs[k + 1].live
    requires 16 <= need <= bs[k].Size() + bs[k + 1].Size() && need % 8 == 0
    ensures var a := Offset(bs, k) + HDR;
            Swapped(Live(bs), map[a := bs[k].data],
                    map[a := Carve(Merge(bs[k], bs[k + 1]).data, need)[0].data], Live(Absorb(bs, k, need)))
  {
    hide Block.Bytes, Encode, Total, Lives, Swapped;
    var pre, mid, d, post := bs[..k], [bs[k], bs[k + 1]], Merge(bs[k], bs[k + 1]).data, bs[k + 2..];
    assert bs == pre + mid + post;
    TotalTwo(bs[k], bs[k + 1]);
    CarveLives(pre, mid, d, need, post, bs, Absorb(bs, k, need));
    LivesTwo(bs[k], bs[k + 1], Total(pre));
    LivesOne(bs[k], Total(pre));
    LivesOne(bs[k + 1], Total(pre) + bs[k].Size());
    assert Lives(mid, Total(pre)) == map[Total(pre) + HDR := bs[k].data];
  }

  // The grown payload starts with the old one and is large enough.
  lemma GrownPayload(a: Block, b: Block, need: nat)
    requires 16 <= need && need % 8 == 0 && a.Size() % 8 == 0 && b.Size() % 8 == 0
    requires a.Size() <= need <= a.Size() + b.Size()
    ensures a.data <= Carve(Merge(a, b).data, need)[0].data
    ensures |Carve(Merge(a, b).data, need)[0].data| + HDR - need in {0, 8}
  {
    var d := Merge(a, b).data;
    MergeStarts(a, b);
    SumOfEights(a.Size(), b.Size());
    hide Merge, Block.Bytes;
    CarveShape(d, need);
    hide Carve;
    PrefixOf(a.data, Carve(d, need)[0].data, d);
  }

  lemma MergeStarts(a: Block, b: Block)
    ensures a.data <= Merge(a, b).data && Merge(a, b).Size() == a.Size() + b.Size()
  {
    hide StoreLE;
  }

  lemma PrefixOf(a: seq<byte>, c: seq<byte>, d: seq<byte>)
    requires a <= d && c <= d && |a| <= |c|
    ensures a <= c
  {
    assert a == d[..|a|] && c == d[..|c|];
  }

  lemma GrowInPlaceLaw(bs: seq<Block>, k: nat, n: word, limit: nat)
    requires WellFormed(bs, limit) && k + 1 < |bs| && bs[k].live && !bs[k + 1].live
    requires Fits32(n) && bs[k].Size() < Need(n) <= bs[k].Size() + bs[k + 1].Size()
    ensures var a := Offset(bs, k) + HDR;
            var out := Absorb(bs, k, Need(n));
            WellFormed(out, limit) && a in Live(bs) && Moved(Live(bs), a, n, At(a), Live(out))
  {
    NeedExact(n);
    AbsorbSized(bs, k, Need(n), limit);
    AbsorbLives(bs, k, Need(n));
    GrownPayload(bs[k], bs[k + 1], Need(n));
    SameAddress(Live(bs), Offset(bs, k) + HDR, bs[k].data,
                Carve(Merge(bs[k], bs[k + 1]).data, Need(n))[0].data, n, Live(Absorb(bs, k, Need(n))));
  }

  lemma MoveLaw(m: Mem, k: nat, n: word, limit: nat)
    requires WellFormed(m.blocks, limit) && k < |m.blocks| && m.blocks[k].live
    requires Fits32(n) && m.blocks[k].Size() < Need(n)
    requires LiveIndex(m.blocks, At(Offset(m.blocks, k) + HDR)) == k
    requires MallocF(m.blocks, n).1.At?
    ensures var a := Offset(m.blocks, k) + HDR;
            var (out, q) := MallocF(m.blocks, n);
            var j := First(m.blocks, Need(n));
            && j < |out| && |m.blocks[k].data| <= |out[j].data|
            && var res := FreeF(m.(blocks := Fill(out, j, m.blocks[k].data)), At(a));
            && WellFormed(res.blocks, limit) && res.errors == m.errors
            && a in Live(m.blocks) && Moved(Live(m.blocks), a, n, q, Live(res.blocks))
  {
    var bs := m.blocks;
    var a := Offset(bs, k) + HDR;
    LiveIndexIsKey(bs, At(a));
    assert a in Live(bs) && Live(bs)[a] == bs[k].data;
    PlacedForMove(m, k, n, limit);
    hide *;
    var (out, q) := MallocF(bs, n);
    var j := First(bs, Need(n));
    var d := bs[k].data + out[j].data[|bs[k].data|..];
    var filled := m.(blocks := Fill(out, j, bs[k].data));
    FreeLaw(filled, At(a), limit);
    NewAddress(Live(bs), a, q.addr, d, n, Live(FreeF(filled, At(a)).blocks));
  }

  // The new block filled with the old contents, before the old one is released.
  lemma PlacedForMove(m: Mem, k: nat, n: word, limit: nat)
    requires WellFormed(m.blocks, limit) && k < |m.blocks| && m.blocks[k].live
    requires Fits32(n) && m.blocks[k].Size() < Need(n) && MallocF(m.blocks, n).1.At?
    ensures var (out, q) := MallocF(m.blocks, n);
            var j := First(m.blocks, Need(n));
            && j < |out| && |m.blocks[k].data| <= |out[j].data| && n <= |out[j].data| && Snug(|out[j].data|, n)
            && q.addr !in Live(m.blocks)
            && var d := m.blocks[k].data + out[j].data[|m.blocks[k].data|..];
            && |d| == |out[j].data| && m.blocks[k].data <= d
            && WellFormed(Fill(out, j, m.blocks[k].data), limit)
            && Live(Fill(out, j, m.blocks[k].data)) == Live(m.blocks)[q.addr := d]
  {
    var bs := m.blocks;
    NeedExact(n);
    MallocLaw(bs, n, limit);
    var (out, q) := MallocF(bs, n);
    var j := First(bs, Need(n));
    PlaceAt(bs, j, Need(n), n);
    hide First, Need, Carve, Lives, Total, Tidy, Sized;
    var d := bs[k].data + out[j].data[|bs[k].data|..];
    SetDataLaw(out, j, d, limit);
  }

  // A block with less than a header and the minimum payload to spare is left as it is.
  lemma StayLaw(bs: seq<Block>, k: nat, n: word)
    requires Sized(bs, MIN_SPLIT) && k < |bs| && bs[k].live && Fits32(n)
    requires Need(n) <= bs[k].Size() < Need(n) + MIN_SPLIT
    requires Offset(bs, k) + HDR in Live(bs) && Live(bs)[Offset(bs, k) + HDR] == bs[k].data
    ensures Moved(Live(bs), Offset(bs, k) + HDR, n, At(Offset(bs, k) + HDR), Live(bs))
  {
    NeedExact(n);
    hide Need, Live;
    EightsApart(bs[k].Size(), Need(n));
  }

  lemma EightsApart(x: nat, y: nat)
    requires x % 8 == 0 && y % 8 == 0 && y <= x < y + 16
    ensures x - y in {0, 8}
  {
  }

  // The whole of realloc of a live block, over its paths.
  lemma ReallocLaw(m: Mem, p: Ptr, n: word, limit: nat)
    requires WellFormed(m.blocks, limit) && Fits32(n)
    requires p.At? && p.addr in Live(m.blocks) && n > 0
    ensures var (out, q) := ReallocF(m, p, n);
            && WellFormed(out.blocks, limit) && out.errors == m.errors
            && Moved(Live(m.blocks), p.addr, n, q, Live(out.blocks))
            && (q == Null ==> out == m)
  {
    var bs := m.blocks;
    LiveIndexIsKey(bs, p);
    var k := LiveIndex(bs, p);
    NeedExact(n);
    hide Live, Moved, Total, Offset, Need, Find, LiveIndex, Absorb, Place, Coalesce, FreeF, MallocF, Fill, Tidy;
    if Need(n) <= bs[k].Size() {
      if bs[k].Size() - Need(n) >= MIN_SPLIT { ShrinkLaw(bs, k, n, limit); } else { StayLaw(bs, k, n); }
    } else if k + 1 < |bs| && !bs[k + 1].live && bs[k].Size() + bs[k + 1].Size() >= Need(n) {
      GrowInPlaceLaw(bs, k, n, limit);
    } else if MallocF(bs, n).1.At? {
      MoveLaw(m, k, n, limit);
    } else {
      NotMoved(Live(bs), p.addr, n);
    }
  }

  lemma NotMoved(was: map<int, seq<byte>>, a: int, n: nat)
    requires a in was
    ensures Moved(was, a, n, Null, was)
  {
  }

  // The block itself has room, or gets it from a free right neighbour.
  predicate RoomInPlace(bs: seq<Block>, k: nat, n: nat)
    requires k < |bs|
  {
    var need := RoundUp8(n) + HDR;
    bs[k].Size() >= need || (k + 1 < |bs| && !bs[k + 1].live && bs[k].Size() + bs[k + 1].Size() >= need)
  }

  // Which block realloc of a live one hands out: the same, exactly when there is room in
  // place, and otherwise the one malloc would.
  lemma ReallocPicks(m: Mem, p: Ptr, n: word, limit: nat)
    requires WellFormed(m.blocks, limit) && Fits32(n)
    requires p.At? && p.addr in Live(m.blocks) && n > 0
    ensures LiveIndex(m.blocks, p) >= 0
    ensures var (room, q) := (RoomInPlace(m.blocks, LiveIndex(m.blocks, p), n), ReallocF(m, p, n).1);
            && (q == p <==> room)
            && (!room ==> q == MallocF(m.blocks, n).1)
  {
    LiveIndexIsKey(m.blocks, p);
    NeedExact(n);
    MallocLaw(m.blocks, n, limit);
    hide Need, RoundUp8, MallocF, LargestFree, LiveIndex, Coalesce, Place, Absorb, FreeF, Fill, Live;
  }

  // realloc of a live block fails exactly when there is no room in place and no free
  // block is large enough.
  lemma ReallocFailsIff(m: Mem, p: Ptr, n: word, limit: nat)
    requires WellFormed(m.blocks, limit) && Fits32(n)
    requires p.At? && p.addr in Live(m.blocks) && n > 0
    ensures LiveIndex(m.blocks, p) >= 0
    ensures ReallocF(m, p, n).1 == Null <==>
            !RoomInPlace(m.blocks, LiveIndex(m.blocks, p), n) && RoundUp8(n) > LargestFree(m.blocks)
  {
    hide ReallocF, RoomInPlace, RoundUp8, MallocF, LargestFree, Live;
    ReallocPicks(m, p, n, limit);
    MallocSucceedsIff(m.blocks, n);
  }

  // realloc of a null pointer is malloc: it hands out a block exactly when a non-empty
  // request fits the largest free payload, and that is the lowest-addressed that fits.
  lemma ReallocNull(m: Mem, n: word, limit: nat)
    requires WellFormed(m.blocks, limit) && Fits32(n)
    ensures var ((out, q), (bs, got)) := (ReallocF(m, Null, n), MallocF(m.blocks, n));
            && out == m.(blocks := bs) && q == got
            && (q.At? <==> n > 0 && RoundUp8(n) <= LargestFree(m.blocks))
            && (q.At? ==>
                  exists k :: 0 <= k < |m.blocks| && !m.blocks[k].live && |m.blocks[k].data| >= RoundUp8(n)
                              && q.addr == Offset(m.blocks, k) + HDR
                              && forall j :: 0 <= j < k ==> m.blocks[j].live || |m.blocks[j].data| < RoundUp8(n))
  {
    if n > 0 { MallocSucceedsIff(m.blocks, n); }
    hide RoundUp8, LargestFree, Need, First, Place, Offset;
  }

  // Of a pointer that is no live payload it changes no block and counts an error; of a
  // live one, with size zero, it is free.
  lemma ReallocEdges(m: Mem, p: Ptr, n: word, limit: nat)
    requires WellFormed(m.blocks, limit) && Fits32(n) && p.At?
    ensures var (out, q) := ReallocF(m, p, n);
            && (p.addr !in Live(m.blocks) ==>
                  q == Null && out.blocks == m.blocks && out.errors == (m.errors + 1) % TWO32)
            && (p.addr in Live(m.blocks) && n == 0 ==>
                  && q == Null && WellFormed(out.blocks, limit) && out.errors == m.errors
                  && Live(out.blocks) == Live(m.blocks) - {p.addr})
  {
    FreeLaw(m, p, limit);
    LiveIndexIsKey(m.blocks, p);
    hide Live, FreeF, LiveIndex, MallocF, Place, Absorb, Coalesce, Need;
  }

  // ---------------------------------------------------- for the copying loops --

  ghost predicate FillOf(bs: seq<Block>, k: nat, w: seq<byte>, now: seq<Block>) {
    k < |bs| && |w| <= |bs[k].data| && now == Fill(bs, k, w)
  }

  lemma FillNothing(bs: seq<Block>, k: nat)
    requires k < |bs|
    ensures forall x: seq<byte> :: x == [] ==> FillOf(bs, k, x, bs)
  {
    assert [] + bs[k].data[0..] == bs[k].data;
  }

  lemma FillShape(bs: seq<Block>, k: nat, w: seq<byte>)
    requires k < |bs| && |w| <= |bs[k].data|
    ensures |Fill(bs, k, w)| == |bs| && Fill(bs, k, w)[k].live == bs[k].live
    ensures |Fill(bs, k, w)[k].data| == |bs[k].data|
    ensures forall o :: 0 <= o < |bs| && o != k ==> Fill(bs, k, w)[o] == bs[o]
  {
  }

  lemma FillOne(bs: seq<Block>, k: nat, w: seq<byte>, v: byte)
    requires k < |bs| && |w| < |bs[k].data|
    ensures Fill(bs, k, w + [v]) ==
            Fill(bs, k, w)[k := Fill(bs, k, w)[k].(data := Fill(bs, k, w)[k].data[|w| := v])]
  {
    assert (w + bs[k].data[|w|..])[|w| := v] == w + [v] + bs[k].data[|w| + 1..];
  }

  // Filling a payload moves no block.
  lemma FillOffsets(bs: seq<Block>, k: nat, w: seq<byte>, i: nat)
    requires k < |bs| && |w| <= |bs[k].data| && i <= |bs|
    ensures Offset(Fill(bs, k, w), i) == Offset(bs, i)
  {
    if k < i {
      TotalUpdate(bs[..i], k, Fill(bs, k, w)[k]);
      assert Fill(bs, k, w)[..i] == bs[..i][k := Fill(bs, k, w)[k]];
    } else {
      assert Fill(bs, k, w)[..i] == bs[..i];
    }
  }

  // After the new block is taken, the old one is still there, somewhere else.
  lemma MoveIndices(bs: seq<Block>, p: Ptr, n: word) returns (o: nat)
    requires WellFormed(bs, Total(bs)) && Fits32(n) && n > 0
    requires LiveIndex(bs, p) >= 0 && MallocF(bs, n).1.At?
    ensures var out := MallocF(bs, n).0;
            var j := First(bs, Need(n));
            && o < |out| && j < |out| && o != j && out[j].live
            && out[o].data == bs[LiveIndex(bs, p)].data && p.addr == Offset(out, o) + HDR
            && MallocF(bs, n).1.addr == Offset(out, j) + HDR && n <= |out[j].data|
  {
    var (out, q) := MallocF(bs, n);
    NeedExact(n);
    MallocLaw(bs, n, Total(bs));
    LiveIndexIsKey(bs, p);
    LiveIndexIsKey(out, p);
    PlaceAt(bs, First(bs, Need(n)), Need(n), n);
    o := LiveIndex(out, p);
  }

  lemma AbsorbIsMergeThenPlace(bs: seq<Block>, k: nat, need: nat)
    requires k + 1 < |bs| && bs[k].live && HDR <= need <= bs[k].Size() + bs[k + 1].Size()
    ensures need <= MergeAt(bs, k)[k].Size()
    ensures Absorb(bs, k, need) == Place(MergeAt(bs, k), k, need)
  {
    MergeSize(bs[k], bs[k + 1]);
    assert MergeAt(bs, k)[..k] == bs[..k] && MergeAt(bs, k)[k + 1..] == bs[k + 2..];
  }
}
