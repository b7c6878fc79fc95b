// The arena as a sequence of blocks: the byte image of a block list, and what
// merging, carving and splicing blocks do to it.
module HeapBlocks {
  import opened Words
  import opened Seqs

  const HDR: nat := 8
  const MIN_SPLIT: nat := 16
  const MAGIC_USED: word := 0xA110C8ED
  const MAGIC_FREE: word := 0xF4EEF4EE

  function Magic(live: bool): word { if live then MAGIC_USED else MAGIC_FREE }

  // A header and the bytes behind it. Free blocks keep their stale bytes too, so
  // that a block list determines every byte of the arena.
  datatype Block = Block(live: bool, data: seq<byte>) {
    function Size(): nat { HDR + |data| }

    function Bytes(): (r: seq<byte>)
      ensures |r| == Size()
    {
      StoreLE(Size()) + StoreLE(Magic(live)) + data
    }
  }

  function Encode(bs: seq<Block>): seq<byte> {
    if bs == [] then [] else bs[0].Bytes() + Encode(bs[1..])
  }

  function Total(bs: seq<Block>): nat {
    if bs == [] then 0 else bs[0].Size() + Total(bs[1..])
  }

  // What heap_check looks at: aligned sizes, and no two free neighbours.
  ghost predicate Sized(bs: seq<Block>, least: nat) {
    forall i :: 0 <= i < |bs| ==> bs[i].Size() % 8 == 0 && bs[i].Size() >= least
  }

  ghost predicate Tidy(bs: seq<Block>) {
    forall i, j :: 0 <= i && j == i + 1 < |bs| ==> bs[i].live || bs[j].live
  }

  ghost predicate WellFormed(bs: seq<Block>, n: nat) {
    Sized(bs, MIN_SPLIT) && Tidy(bs) && Total(bs) == n
  }

  // ------------------------------------------------------- lists and images --

  lemma {:induction false} EncodeLength(bs: seq<Block>)
    ensures |Encode(bs)| == Total(bs)
  {
    if bs != [] { EncodeLength(bs[1..]); }
  }

  lemma {:induction false} TotalAppend(xs: seq<Block>, ys: seq<Block>)
    ensures Total(xs + ys) == Total(xs) + Total(ys)
  {
    if xs == [] {
      assert xs + ys == ys;
    } else {
      TotalAppend(xs[1..], ys);
      assert (xs + ys)[1..] == xs[1..] + ys;
    }
  }

  lemma {:induction false} EncodeAppend(xs: seq<Block>, ys: seq<Block>)
    ensures Encode(xs + ys) == Encode(xs) + Encode(ys)
  {
    if xs == [] {
      assert xs + ys == ys;
      assert Encode(xs) + Encode(ys) == Encode(ys);
    } else {
      assert (xs + ys)[1..] == xs[1..] + ys && (xs + ys)[0] == xs[0];
      var h := xs[0].Bytes();
      calc {
        Encode(xs + ys);
        h + Encode(xs[1..] + ys);
        { EncodeAppend(xs[1..], ys); }
        h + (Encode(xs[1..]) + Encode(ys));
        { Assoc(h, Encode(xs[1..]), Encode(ys)); }
        h + Encode(xs[1..]) + Encode(ys);
        Encode(xs) + Encode(ys);
      }
    }
  }

  lemma EncodeOne(b: Block)
    ensures Encode([b]) == b.Bytes() && Total([b]) == b.Size()
  {
    assert [b][1..] == [];
  }

  lemma TotalTwo(a: Block, b: Block)
    ensures Total([a]) == a.Size() && Total([a, b]) == a.Size() + b.Size()
  {
    assert [a][1..] == [] && [a, b][1..] == [b] && [b][1..] == [];
  }

  lemma EncodeTwo(a: Block, b: Block)
    ensures Encode([a, b]) == a.Bytes() + b.Bytes() && Total([a, b]) == a.Size() + b.Size()
  {
    EncodeAppend([a], [b]);
    TotalTwo(a, b);
    EncodeOne(a);
    EncodeOne(b);
    assert [a, b] == [a] + [b];
  }

  lemma EncodeSplit(pre: seq<Block>, mid: seq<Block>, post: seq<Block>)
    ensures Encode(pre + mid + post) == Encode(pre) + Encode(mid) + Encode(post)
    ensures Total(pre + mid + post) == Total(pre) + Total(mid) + Total(post)
    ensures |Encode(pre)| == Total(pre) && |Encode(mid)| == Total(mid)
  {
    EncodeAppend(pre + mid, post);
    EncodeAppend(pre, mid);
    TotalAppend(pre + mid, post);
    TotalAppend(pre, mid);
    EncodeLength(pre);
    EncodeLength(mid);
  }

  // The image around block k.
  lemma Parts(bs: seq<Block>, k: nat)
    requires k < |bs|
    ensures Encode(bs) == Encode(bs[..k]) + bs[k].Bytes() + Encode(bs[k + 1..])
    ensures |Encode(bs)| == Total(bs) && |Encode(bs[..k])| == Total(bs[..k])
    ensures Total(bs[..k + 1]) == Total(bs[..k]) + bs[k].Size() <= Total(bs)
  {
    var pre, b, post := bs[..k], bs[k], bs[k + 1..];
    assert bs == pre + [b] + post;
    assert bs[..k + 1] == pre + [b];
    EncodeSplit(pre, [b], post);
    EncodeOne(b);
    EncodeLength(bs);
    TotalAppend(pre, [b]);
  }

  lemma TotalUpdate(bs: seq<Block>, k: nat, b: Block)
    requires k < |bs| && |b.data| == |bs[k].data|
    ensures Total(bs[k := b]) == Total(bs)
  {
    assert bs == bs[..k] + [bs[k]] + bs[k + 1..];
    assert bs[k := b] == bs[..k] + [b] + bs[k + 1..];
    EncodeSplit(bs[..k], [bs[k]], bs[k + 1..]);
    EncodeSplit(bs[..k], [b], bs[k + 1..]);
    TotalTwo(b, b);
    TotalTwo(bs[k], bs[k]);
  }

  // Reading the fields of a header + payload that sits behind p.
  lemma Fields(p: seq<byte>, h1: seq<byte>, h2: seq<byte>, d: seq<byte>, s: seq<byte>)
    requires |h1| == 4 && |h2| == 4
    ensures var e := p + (h1 + h2 + d) + s;
            && e[|p|..|p| + 4] == h1 && e[|p| + 4..|p| + 8] == h2
            && e[|p| + 8..|p| + 8 + |d|] == d
  {
  }

  lemma HeaderOf(b: Block)
    requires b.Size() < TWO32
    ensures LoadLE(StoreLE(b.Size())) == b.Size() && LoadLE(StoreLE(Magic(b.live))) == Magic(b.live)
  {
    LoadStore(b.Size());
    LoadStore(Magic(b.live));
  }

  // Where block k sits in the image, and how to read its header there.
  lemma BlockAt(bs: seq<Block>, k: nat)
    requires k < |bs| && Total(bs) < TWO32
    ensures |Encode(bs)| == Total(bs)
    ensures Total(bs[..k + 1]) == Total(bs[..k]) + bs[k].Size() <= Total(bs)
    ensures LoadLE(Encode(bs)[Total(bs[..k])..Total(bs[..k]) + 4]) == bs[k].Size()
    ensures LoadLE(Encode(bs)[Total(bs[..k]) + 4..Total(bs[..k]) + 8]) == Magic(bs[k].live)
    ensures Encode(bs)[Total(bs[..k]) + 8..Total(bs[..k + 1])] == bs[k].data
  {
    hide StoreLE, LoadLE, Encode, Total, Magic;
    var b := bs[k];
    Parts(bs, k);
    HeaderOf(b);
    Fields(Encode(bs[..k]), StoreLE(b.Size()), StoreLE(Magic(b.live)), b.data, Encode(bs[k + 1..]));
  }

  lemma AtEnd(bs: seq<Block>, k: nat)
    requires k <= |bs| && Sized(bs, 1)
    ensures Total(bs[..k]) <= Total(bs)
    ensures k < |bs| <==> Total(bs[..k]) < Total(bs)
  {
    assert bs == bs[..k] + bs[k..];
    TotalAppend(bs[..k], bs[k..]);
  }

  // Block boundaries are 8-aligned.
  lemma {:induction false} TotalAligned(bs: seq<Block>)
    requires Sized(bs, 1)
    ensures Total(bs) % 8 == 0
  {
    if bs != [] { TotalAligned(bs[1..]); }
  }

  // Rewriting one payload byte.
  lemma PokeImage(bs: seq<Block>, k: nat, i: nat, v: byte)
    requires k < |bs| && i < |bs[k].data|
    ensures Total(bs[..k]) + HDR + i < |Encode(bs)|
    ensures Encode(bs)[Total(bs[..k]) + HDR + i] == bs[k].data[i]
    ensures Encode(bs)[Total(bs[..k]) + HDR + i := v] == Encode(bs[k := bs[k].(data := bs[k].data[i := v])])
  {
    hide Encode, Total, Block.Bytes;
    var b2 := bs[k].(data := bs[k].data[i := v]);
    var bs2 := bs[k := b2];
    Parts(bs, k);
    Parts(bs2, k);
    assert bs2[..k] == bs[..k] && bs2[k + 1..] == bs[k + 1..];
    PokeBytes(bs[k], i, v);
    UpdateMiddle(Encode(bs[..k]), bs[k].Bytes(), Encode(bs[k + 1..]), HDR + i, v);
  }

  lemma PokeBytes(b: Block, i: nat, v: byte)
    requires i < |b.data|
    ensures HDR + i < |b.Bytes()| && b.Bytes()[HDR + i] == b.data[i]
    ensures b.(data := b.data[i := v]).Bytes() == b.Bytes()[HDR + i := v]
  {
    hide StoreLE;
    var h := StoreLE(b.Size()) + StoreLE(Magic(b.live));
    assert (h + b.data)[HDR + i := v] == h + b.data[i := v];
  }

  lemma UpdateMiddle(p: seq<byte>, m: seq<byte>, s: seq<byte>, i: nat, v: byte)
    requires i < |m|
    ensures (p + m + s)[|p| + i := v] == p + m[i := v] + s
    ensures (p + m + s)[|p| + i] == m[i]
  {
  }

  // ------------------------------------------------------- the heap's moves --

  // a swallows its right neighbour b, header and all.
  function Merge(a: Block, b: Block): Block { Block(a.live, a.data + b.Bytes()) }

  // A live block of `need` bytes at the front of payload d, and the rest as a new
  // free block when it can hold a header and the minimum payload.
  function Carve(d: seq<byte>, need: nat): seq<Block>
    requires HDR <= need <= HDR + |d|
  {
    if HDR + |d| - need >= MIN_SPLIT
    then [Block(true, d[..need - HDR]), Block(false, d[need..])]
    else [Block(true, d)]
  }

  function Coalesce(bs: seq<Block>): seq<Block>
    decreases |bs|
  {
    if |bs| < 2 then bs
    else if !bs[0].live && !bs[1].live then Coalesce([Merge(bs[0], bs[1])] + bs[2..])
    else [bs[0]] + Coalesce(bs[1..])
  }

  lemma CarveShape(d: seq<byte>, need: nat)
    requires HDR <= need <= HDR + |d| && need % 8 == 0 && |d| % 8 == 0
    ensures Sized(Carve(d, need), HDR) && Tidy(Carve(d, need))
    ensures need >= MIN_SPLIT ==> Sized(Carve(d, need), MIN_SPLIT)
    ensures Total(Carve(d, need)) == HDR + |d|
    ensures Carve(d, need)[0].live
    ensures Carve(d, need)[0].data <= d
    ensures Carve(d, need)[0].Size() == need || Carve(d, need)[0].Size() == need + 8
  {
    if HDR + |d| - need >= MIN_SPLIT {
      CarveTwo(d, need);
    } else {
      TotalTwo(Block(true, d), Block(true, d));
    }
  }

  lemma CarveTwo(d: seq<byte>, need: nat)
    requires HDR <= need && need + MIN_SPLIT <= HDR + |d| && need % 8 == 0 && |d| % 8 == 0
    ensures var c := Carve(d, need);
            && |c| == 2 && c[0].live && !c[1].live && c[0].data <= d
            && c[0].Size() == need && c[1].Size() == HDR + |d| - need
            && c[1].Size() % 8 == 0 && c[1].Size() >= MIN_SPLIT && Total(c) == HDR + |d|
  {
    TotalTwo(Block(true, d[..need - HDR]), Block(false, d[need..]));
  }

  // The three header writes that split `need` bytes off a block at `off`, when the
  // rest can hold a header and the minimum payload.
  function SplitBytes(a: seq<byte>, off: nat, size: nat, need: nat): (r: seq<byte>)
    requires need <= size && size >= HDR && off + size <= |a|
    ensures |r| == |a|
  {
    if size - need >= MIN_SPLIT
    then Patch(Patch(Patch(a, off + need, StoreLE(size - need)), off + need + 4, StoreLE(MAGIC_FREE)),
               off, StoreLE(need))
    else a
  }

  lemma ThreePatches(p: seq<byte>, m: seq<byte>, s: seq<byte>, i: nat, x: seq<byte>, j: nat, y: seq<byte>, z: seq<byte>)
    requires i + |x| <= |m| && j + |y| <= |m| && |z| <= |m|
    ensures Patch(Patch(Patch(p + m + s, |p| + i, x), |p| + j, y), |p|, z)
            == p + Patch(Patch(Patch(m, i, x), j, y), 0, z) + s
  {
    PatchMiddle(p, m, s, i, x);
    PatchMiddle(p, Patch(m, i, x), s, j, y);
    PatchMiddle(p, Patch(Patch(m, i, x), j, y), s, 0, z);
  }

  lemma SplitMiddle(p: seq<byte>, m: seq<byte>, s: seq<byte>, need: nat)
    requires need <= |m| && |m| >= HDR
    ensures SplitBytes(p + m + s, |p|, |m|, need) == p + SplitBytes(m, 0, |m|, need) + s
  {
    if |m| - need >= MIN_SPLIT {
      ThreePatches(p, m, s, need, StoreLE(|m| - need), need + 4, StoreLE(MAGIC_FREE), StoreLE(need));
    }
  }

  lemma PatchHeaders(h: seq<byte>, f: seq<byte>, d: seq<byte>, cut: nat, s1: seq<byte>, f1: seq<byte>, s2: seq<byte>)
    requires |h| == |f| == |s1| == |f1| == |s2| == 4 && cut + 8 <= |d|
    ensures Patch(Patch(Patch(h + f + d, 8 + cut, s1), 12 + cut, f1), 0, s2)
            == s2 + f + d[..cut] + (s1 + f1 + d[cut + 8..])
  {
    assert Patch(h + f + d, 8 + cut, s1) == h + f + d[..cut] + s1 + d[cut + 4..];
    assert Patch(Patch(h + f + d, 8 + cut, s1), 12 + cut, f1) == h + f + d[..cut] + s1 + f1 + d[cut + 8..];
  }

  // The front block keeps its old magic until that is written too.
  function CarveAs(live: bool, d: seq<byte>, need: nat): seq<Block>
    requires HDR <= need <= HDR + |d|
  {
    if HDR + |d| - need >= MIN_SPLIT
    then [Block(live, d[..need - HDR]), Block(false, d[need..])]
    else [Block(live, d)]
  }

  lemma SplitOneImage(b: Block, need: nat)
    requires HDR <= need <= b.Size()
    ensures Encode(CarveAs(b.live, b.data, need)) == SplitBytes(b.Bytes(), 0, b.Size(), need)
  {
    hide LowBytes, StoreLE;
    var c := CarveAs(b.live, b.data, need);
    if b.Size() - need >= MIN_SPLIT {
      EncodeTwo(c[0], c[1]);
      assert c[1].Size() == b.Size() - need && c[0].Size() == need;
      PatchHeaders(StoreLE(b.Size()), StoreLE(Magic(b.live)), b.data, need - HDR,
                   StoreLE(b.Size() - need), StoreLE(MAGIC_FREE), StoreLE(need));
    } else {
      EncodeOne(b);
    }
  }

  // Splitting block k in the arena.
  lemma SplitImage(bs: seq<Block>, k: nat, need: nat)
    requires k < |bs| && HDR <= need <= bs[k].Size()
    ensures |Encode(bs)| == Total(bs) && Total(bs[..k]) + bs[k].Size() <= Total(bs)
    ensures SplitBytes(Encode(bs), Total(bs[..k]), bs[k].Size(), need)
            == Encode(bs[..k] + CarveAs(bs[k].live, bs[k].data, need) + bs[k + 1..])
  {
    var pre, b, post := bs[..k], bs[k], bs[k + 1..];
    Parts(bs, k);
    SplitMiddle(Encode(pre), b.Bytes(), Encode(post), need);
    SplitOneImage(b, need);
    EncodeSplit(pre, CarveAs(b.live, b.data, need), post);
  }

  // Rewriting one word of block k's header.
  lemma HeaderImage(bs: seq<Block>, k: nat, at: nat, w: nat, b2: Block)
    requires k < |bs| && at in {0, 4}
    requires Patch(bs[k].Bytes(), at, StoreLE(w)) == b2.Bytes()
    ensures |Encode(bs)| == Total(bs) && Total(bs[..k]) + bs[k].Size() <= Total(bs)
    ensures Patch(Encode(bs), Total(bs[..k]) + at, StoreLE(w)) == Encode(bs[k := b2])
  {
    hide Encode, LowBytes, StoreLE, Total;
    var bs2 := bs[k := b2];
    Parts(bs, k);
    Parts(bs2, k);
    assert bs2[..k] == bs[..k] && bs2[k + 1..] == bs[k + 1..];
    PatchMiddle(Encode(bs[..k]), bs[k].Bytes(), Encode(bs[k + 1..]), at, StoreLE(w));
  }

  lemma SetMagicBytes(b: Block, live: bool)
    ensures Patch(b.Bytes(), 4, StoreLE(Magic(live))) == Block(live, b.data).Bytes()
  {
  }

  lemma MergeImage(a: Block, b: Block)
    ensures Encode([Merge(a, b)]) == Patch(Encode([a, b]), 0, StoreLE(a.Size() + b.Size()))
  {
    EncodeOne(Merge(a, b));
    EncodeTwo(a, b);
  }

  // One merge: block k swallows its right neighbour.
  function MergeAt(bs: seq<Block>, k: nat): seq<Block>
    requires k + 1 < |bs|
  {
    bs[..k] + [Merge(bs[k], bs[k + 1])] + bs[k + 2..]
  }

  // In the arena that is one store, of the new size.
  lemma MergeAtImage(bs: seq<Block>, k: nat)
    requires k + 1 < |bs|
    ensures Total(bs[..k]) + bs[k].Size() + bs[k + 1].Size() <= |Encode(bs)|
    ensures Encode(MergeAt(bs, k)) == Patch(Encode(bs), Total(bs[..k]), StoreLE(bs[k].Size() + bs[k + 1].Size()))
    ensures Total(MergeAt(bs, k)) == Total(bs)
  {
    hide Encode, LowBytes, StoreLE, Total;
    var pre, mid, post := bs[..k], [bs[k], bs[k + 1]], bs[k + 2..];
    var m := Merge(bs[k], bs[k + 1]);
    assert bs == pre + mid + post;
    EncodeSplit(pre, mid, post);
    EncodeSplit(pre, [m], post);
    TotalTwo(bs[k], bs[k + 1]);
    TotalTwo(m, m);
    MergeImage(bs[k], bs[k + 1]);
    PatchMiddle(Encode(pre), Encode(mid), Encode(post), 0, StoreLE(bs[k].Size() + bs[k + 1].Size()));
  }

  lemma MergeSize(a: Block, b: Block)
    ensures Merge(a, b).Size() == a.Size() + b.Size()
  {
    hide StoreLE;
  }

  lemma SumOfEights(x: nat, y: nat)
    requires x % 8 == 0 && y % 8 == 0
    ensures (x + y) % 8 == 0
  {
  }

  lemma MergeAtSized(bs: seq<Block>, k: nat, least: nat)
    requires k + 1 < |bs| && Sized(bs, least)
    ensures Sized(MergeAt(bs, k), least)
  {
    hide Merge;
    var b := MergeAt(bs, k);
    forall i | 0 <= i < |b| ensures b[i].Size() % 8 == 0 && b[i].Size() >= least {
      if i < k {
        assert b[i] == bs[i];
      } else if i > k {
        assert b[i] == bs[i + 1];
      } else {
        MergeSize(bs[k], bs[k + 1]);
        SumOfEights(bs[k].Size(), bs[k + 1].Size());
      }
    }
  }

  // What a walk that has settled the first k blocks still has to produce.
  function Settled(bs: seq<Block>, k: nat): seq<Block>
    requires k <= |bs|
  {
    bs[..k] + Coalesce(bs[k..])
  }

  lemma CoalesceStep(bs: seq<Block>, k: nat)
    requires k + 1 < |bs|
    ensures !bs[k].live && !bs[k + 1].live ==> Settled(bs, k) == Settled(MergeAt(bs, k), k)
    ensures bs[k].live || bs[k + 1].live ==> Settled(bs, k) == Settled(bs, k + 1)
  {
    hide Block.Bytes, Merge;
    assert MergeAt(bs, k)[..k] == bs[..k];
    if !bs[k].live && !bs[k + 1].live {
      assert MergeAt(bs, k)[k..] == [Merge(bs[k..][0], bs[k..][1])] + bs[k..][2..];
    } else {
      assert bs[k..][1..] == bs[k + 1..];
    }
  }

  lemma SettledStart(bs: seq<Block>)
    ensures Settled(bs, 0) == Coalesce(bs)
  {
    hide Coalesce;
    assert bs[..0] == [] && bs[0..] == bs;
  }

  lemma SettledEnd(bs: seq<Block>, k: nat)
    requires k <= |bs| <= k + 1
    ensures Settled(bs, k) == bs
  {
    var tail := bs[k..];
    assert Coalesce(tail) == tail;
    assert bs == bs[..k] + tail;
  }

  lemma {:induction false} CoalesceSizes(bs: seq<Block>, least: nat)
    requires Sized(bs, least)
    ensures Sized(Coalesce(bs), least) && Total(Coalesce(bs)) == Total(bs)
    decreases |bs|
  {
    hide Block.Bytes;
    if |bs| >= 2 {
      if !bs[0].live && !bs[1].live {
        var nx := [Merge(bs[0], bs[1])] + bs[2..];
        assert nx[1..] == bs[2..] == bs[1..][1..];
        CoalesceSizes(nx, least);
      } else {
        CoalesceSizes(bs[1..], least);
        var c := Coalesce(bs[1..]);
        assert ([bs[0]] + c)[1..] == c;
      }
    }
  }

  lemma {:induction false} CoalesceTidy(bs: seq<Block>)
    ensures Tidy(Coalesce(bs))
    ensures bs != [] ==> Coalesce(bs) != [] && Coalesce(bs)[0].live == bs[0].live
    decreases |bs|
  {
    if |bs| >= 2 {
      if !bs[0].live && !bs[1].live {
        CoalesceTidy([Merge(bs[0], bs[1])] + bs[2..]);
      } else {
        CoalesceTidy(bs[1..]);
      }
    }
  }

  lemma CoalesceKeeps(bs: seq<Block>)
    requires Sized(bs, MIN_SPLIT)
    ensures WellFormed(Coalesce(bs), Total(bs))
  {
    CoalesceSizes(bs, MIN_SPLIT);
    CoalesceTidy(bs);
  }

  lemma {:induction false} CoalesceTidyIsIdentity(bs: seq<Block>)
    requires Tidy(bs)
    ensures Coalesce(bs) == bs
  {
    if |bs| >= 2 {
      assert bs[0].live || bs[1].live;
      CoalesceTidyIsIdentity(bs[1..]);
    }
  }

  // -------------------------------------------------- what the client sees --

  // Payload address of every live block (measured from `base`) to its bytes.
  function Lives(bs: seq<Block>, base: int): map<int, seq<byte>> {
    if bs == [] then map[]
    else
      var rest := Lives(bs[1..], base + bs[0].Size());
      if bs[0].live then rest[base + HDR := bs[0].data] else rest
  }

  lemma {:induction false} LivesRange(bs: seq<Block>, base: int)
    ensures forall p :: p in Lives(bs, base) ==>
              base + HDR <= p && p + |Lives(bs, base)[p]| <= base + Total(bs)
  {
    if bs != [] { LivesRange(bs[1..], base + bs[0].Size()); }
  }

  lemma {:induction false} LivesAppend(xs: seq<Block>, ys: seq<Block>, base: int)
    ensures Lives(xs + ys, base) == Lives(xs, base) + Lives(ys, base + Total(xs))
  {
    if xs == [] {
      assert xs + ys == ys;
    } else {
      assert (xs + ys)[1..] == xs[1..] + ys;
      LivesAppend(xs[1..], ys, base + xs[0].Size());
      if xs[0].live { LivesRange(ys, base + Total(xs)); }
    }
  }

  lemma LivesSplit(pre: seq<Block>, mid: seq<Block>, post: seq<Block>)
    ensures Lives(pre + mid + post, 0) ==
            Lives(pre, 0) + Lives(mid, Total(pre)) + Lives(post, Total(pre) + Total(mid))
  {
    LivesAppend(pre + mid, post, 0);
    LivesAppend(pre, mid, 0);
    assert Total(pre + mid) == Total(pre) + Total(mid) by { TotalAppend(pre, mid); }
  }

  lemma {:induction false} CoalesceLives(bs: seq<Block>, base: int)
    ensures Lives(Coalesce(bs), base) == Lives(bs, base)
    decreases |bs|
  {
    if |bs| >= 2 {
      if !bs[0].live && !bs[1].live {
        var m := Merge(bs[0], bs[1]);
        var nx := [m] + bs[2..];
        assert nx[1..] == bs[2..] == bs[1..][1..];
        CoalesceLives(nx, base);
      } else {
        CoalesceLives(bs[1..], base + bs[0].Size());
        var c := Coalesce(bs[1..]);
        assert ([bs[0]] + c)[1..] == c;
      }
    }
  }

  // Live blocks are 8-aligned, inside [8, limit) and pairwise a header apart.
  ghost predicate Separated(m: map<int, seq<byte>>, lo: int, hi: int) {
    && (forall p :: p in m ==> p % 8 == 0 && lo + HDR <= p && p + |m[p]| <= hi)
    && (forall p, q :: p in m && q in m && p < q ==> p + |m[p]| + HDR <= q)
  }

  lemma {:induction false} LivesSeparated(bs: seq<Block>, base: int)
    requires Sized(bs, MIN_SPLIT) && base % 8 == 0
    ensures Separated(Lives(bs, base), base, base + Total(bs))
  {
    if bs != [] {
      LivesSeparated(bs[1..], base + bs[0].Size());
    }
  }
}
