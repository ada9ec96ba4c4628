/** The list of heap blocks (kernel/mm.c), as values. */
module Blocks {
  import opened Types

  /** A header of three words at offset `at` from the start of the heap, and `size` bytes behind it. */
  datatype Block = Block(at: nat, size: nat, free: bool)

  const HEADER: nat := 12

  function End(b: Block): nat { b.at + HEADER + b.size }

  /** The blocks lie end to end from `at` to `end`. */
  predicate Tiles(bs: seq<Block>, at: nat, end: nat) {
    if bs == [] then at == end
    else bs[0].at == at && at % 4 == 0 && Tiles(bs[1..], End(bs[0]), end)
  }

  predicate NoTwoFree(bs: seq<Block>) {
    |bs| >= 2 ==> !(bs[0].free && bs[1].free) && NoTwoFree(bs[1..])
  }

  function Used(bs: seq<Block>): set<Block> { set b | b in bs && !b.free }

  function Total(bs: seq<Block>): nat { if bs == [] then 0 else bs[0].size + Total(bs[1..]) }

  function UsedBytes(bs: seq<Block>): nat {
    if bs == [] then 0 else (if bs[0].free then 0 else bs[0].size) + UsedBytes(bs[1..])
  }

  /** What holds between two calls. */
  predicate Good(bs: seq<Block>, extent: nat) { Tiles(bs, 0, extent) && NoTwoFree(bs) && bs != [] }

  // ---------- the operations ----------

  /** `(n + 3) & ~3` in 32 bits. */
  function Rounded(n: u32): u32 { (n + 3) % 0x1_0000_0000 / 4 * 4 }

  predicate Fit(b: Block, r: nat) { b.free && b.size >= r }

  /** The first `r` bytes of a free block, now used; the rest is a free block if a header and a word
      fit in it. */
  function Cut(b: Block, r: nat): seq<Block>
    requires b.size >= r
  {
    if b.size >= r + HEADER + 4
    then [Block(b.at, r, false), Block(b.at + HEADER + r, b.size - r - HEADER, true)]
    else [b.(free := false)]
  }

  function FirstFit(bs: seq<Block>, r: nat): (k: nat)
    ensures k <= |bs| && (k < |bs| ==> Fit(bs[k], r))
    ensures forall i | 0 <= i < k :: !Fit(bs[i], r)
  {
    if bs == [] || Fit(bs[0], r) then 0 else FirstFit(bs[1..], r) + 1
  }

  function Allocated(bs: seq<Block>, r: nat): seq<Block> {
    var k := FirstFit(bs, r);
    if k == |bs| then bs else bs[..k] + Cut(bs[k], r) + bs[k + 1..]
  }

  function Merged(b: Block, next: Block): Block { Block(b.at, b.size + HEADER + next.size, b.free) }

  /** Each maximal stretch of free blocks becomes one. */
  function Coalesced(bs: seq<Block>): seq<Block>
    decreases |bs|
  {
    if |bs| < 2 then bs
    else if bs[0].free && bs[1].free then Coalesced([Merged(bs[0], bs[1])] + bs[2..])
    else [bs[0]] + Coalesced(bs[1..])
  }

  function Freed(bs: seq<Block>, k: nat): seq<Block>
    requires k < |bs|
  {
    bs[k := bs[k].(free := true)]
  }

  /** The position of the block at offset `at`. */
  function Place(bs: seq<Block>, at: nat): (k: nat)
    ensures k <= |bs| && (k < |bs| ==> bs[k].at == at)
    ensures forall i | 0 <= i < k :: bs[i].at != at
  {
    if bs == [] || bs[0].at == at then 0 else Place(bs[1..], at) + 1
  }

  /** A used block starts at offset `at`. */
  predicate Live(bs: seq<Block>, at: nat) { exists b :: b in bs && !b.free && b.at == at }

  function Released(bs: seq<Block>, at: nat): seq<Block> {
    if Live(bs, at) then Coalesced(Freed(bs, Place(bs, at))) else bs
  }

  // ---------- tilings ----------

  lemma {:induction false} TilesSplit(a: seq<Block>, b: seq<Block>, at: nat, end: nat)
    requires a != []
    ensures Tiles(a + b, at, end) <==> Tiles(a, at, End(a[|a| - 1])) && Tiles(b, End(a[|a| - 1]), end)
  {
    assert (a + b)[0] == a[0] && (a + b)[1..] == a[1..] + b;
    if |a| > 1 {
      TilesSplit(a[1..], b, End(a[0]), end);
    } else {
      assert a[1..] == [] && [] + b == b;
    }
  }

  lemma {:induction false} TilesBounds(bs: seq<Block>, at: nat, end: nat)
    requires Tiles(bs, at, end)
    ensures forall i | 0 <= i < |bs| :: at <= bs[i].at && End(bs[i]) <= end && bs[i].at % 4 == 0
    ensures at <= end && (at == end <==> bs == [])
    ensures bs != [] ==> bs[0].at == at && End(bs[|bs| - 1]) == end
  {
    if bs != [] { TilesBounds(bs[1..], End(bs[0]), end); }
  }

  lemma {:induction false} TilesApart(bs: seq<Block>, at: nat, end: nat)
    requires Tiles(bs, at, end)
    ensures forall i, j | 0 <= i < j < |bs| :: End(bs[i]) <= bs[j].at
  {
    if bs != [] {
      TilesApart(bs[1..], End(bs[0]), end);
      TilesBounds(bs[1..], End(bs[0]), end);
    }
  }

  lemma TilesNext(bs: seq<Block>, at: nat, end: nat, k: nat)
    requires Tiles(bs, at, end) && k + 1 < |bs|
    ensures bs[k + 1].at == End(bs[k])
  {
    assert bs == bs[..k + 1] + bs[k + 1..];
    TilesSplit(bs[..k + 1], bs[k + 1..], at, end);
  }

  /** Live payloads are pairwise disjoint and inside the heap, and no header lies in one. */
  lemma PayloadsDisjoint(bs: seq<Block>, extent: nat, i: nat, j: nat)
    requires Tiles(bs, 0, extent) && i < |bs| && j < |bs| && i != j
    ensures bs[i].at + HEADER + bs[i].size <= extent
    ensures End(bs[i]) <= bs[j].at || End(bs[j]) <= bs[i].at
  {
    TilesApart(bs, 0, extent);
    TilesBounds(bs, 0, extent);
  }

  /** Bytes are conserved: sizes and headers always add up to the extent. */
  lemma {:induction false} TotalIs(bs: seq<Block>, at: nat, end: nat)
    requires Tiles(bs, at, end)
    ensures Total(bs) + HEADER * |bs| == end - at
  {
    if bs != [] { TotalIs(bs[1..], End(bs[0]), end); }
  }

  lemma {:induction false} NoTwoFreeAt(bs: seq<Block>, k: nat)
    requires NoTwoFree(bs) && k + 1 < |bs|
    ensures !(bs[k].free && bs[k + 1].free)
  {
    if k > 0 { NoTwoFreeAt(bs[1..], k - 1); }
  }

  lemma {:induction false} NoTwoFreeSplit(a: seq<Block>, b: seq<Block>)
    ensures NoTwoFree(a + b) <==>
            NoTwoFree(a) && NoTwoFree(b) && (a != [] && b != [] ==> !(a[|a| - 1].free && b[0].free))
  {
    if a == [] {
      assert a + b == b;
    } else {
      assert (a + b)[1..] == a[1..] + b;
      NoTwoFreeSplit(a[1..], b);
    }
  }

  // ---------- the list is determined by its used blocks ----------

  ghost predicate SameUsed(as_: seq<Block>, bs: seq<Block>) {
    forall b: Block | !b.free :: b in as_ <==> b in bs
  }

  /** Two tilings of one stretch without two free neighbours and with the same used blocks are equal. */
  lemma {:induction false} Canonical(as_: seq<Block>, bs: seq<Block>, at: nat, end: nat)
    requires Tiles(as_, at, end) && Tiles(bs, at, end) && NoTwoFree(as_) && NoTwoFree(bs) && SameUsed(as_, bs)
    ensures as_ == bs
    decreases |as_|
  {
    TilesBounds(as_, at, end);
    TilesBounds(bs, at, end);
    if as_ != [] {
      HeadsEqual(as_, bs, at, end);
      HeadNotInTail(as_, at, end);
      HeadNotInTail(bs, at, end);
      TailsSameUsed(as_, bs);
      hide SameUsed;
      Canonical(as_[1..], bs[1..], End(as_[0]), end);
      assert as_ == [as_[0]] + as_[1..] && bs == [bs[0]] + bs[1..];
    }
  }

  lemma HeadNotInTail(bs: seq<Block>, at: nat, end: nat)
    requires Tiles(bs, at, end) && bs != []
    ensures bs[0] !in bs[1..]
  {
    TilesApart(bs, at, end);
    hide Tiles;
  }

  lemma TailsSameUsed(as_: seq<Block>, bs: seq<Block>)
    requires as_ != [] && bs != [] && as_[0] == bs[0] && as_[0] !in as_[1..] && bs[0] !in bs[1..] && SameUsed(as_, bs)
    ensures SameUsed(as_[1..], bs[1..])
  {
    assert as_ == [as_[0]] + as_[1..] && bs == [bs[0]] + bs[1..];
  }

  lemma HeadsEqual(as_: seq<Block>, bs: seq<Block>, at: nat, end: nat)
    requires Tiles(as_, at, end) && Tiles(bs, at, end) && NoTwoFree(as_) && NoTwoFree(bs) && SameUsed(as_, bs)
    requires as_ != [] && bs != []
    ensures as_[0] == bs[0]
  {
    TilesApart(as_, at, end);
    TilesApart(bs, at, end);
    if !as_[0].free {
      assert as_[0] in bs;
    } else if !bs[0].free {
      assert bs[0] in as_;
    } else {
      HeadReaches(as_, bs, at, end);
      HeadReaches(bs, as_, at, end);
    }
  }

  lemma HeadReaches(as_: seq<Block>, bs: seq<Block>, at: nat, end: nat)
    requires Tiles(as_, at, end) && Tiles(bs, at, end) && NoTwoFree(as_) && SameUsed(as_, bs)
    requires as_ != [] && bs != [] && as_[0].free && bs[0].free
    ensures End(as_[0]) >= End(bs[0])
  {
    TilesApart(bs, at, end);
    TilesBounds(bs, at, end);
    if |as_| > 1 {
      TilesNext(as_, at, end, 0);
      assert as_[1] in bs;
    }
  }

  // ---------- kmalloc ----------

  lemma CutTiles(b: Block, r: nat)
    requires b.size >= r && b.at % 4 == 0 && r % 4 == 0
    ensures Tiles(Cut(b, r), b.at, End(b)) && End(Cut(b, r)[|Cut(b, r)| - 1]) == End(b)
  {
    var c := Cut(b, r);
    assert c[1..] == [] || (c[1..] == [c[1]] && c[1..][1..] == []);
  }

  lemma AllocatedTiles(bs: seq<Block>, extent: nat, r: nat)
    requires Tiles(bs, 0, extent) && r % 4 == 0
    ensures Tiles(Allocated(bs, r), 0, extent)
  {
    var k := FirstFit(bs, r);
    if k < |bs| {
      TilesBounds(bs, 0, extent);
      CutTiles(bs[k], r);
      hide Tiles, Cut;
      ReplacedTiles(bs, extent, k, Cut(bs[k], r));
    }
  }

  /** A block may be replaced by blocks that tile its stretch. */
  lemma ReplacedTiles(bs: seq<Block>, extent: nat, k: nat, new_: seq<Block>)
    requires Tiles(bs, 0, extent) && k < |bs| && new_ != []
    requires Tiles(new_, bs[k].at, End(bs[k])) && End(new_[|new_| - 1]) == End(bs[k])
    ensures Tiles(bs[..k] + new_ + bs[k + 1..], 0, extent)
  {
    hide Tiles;
    TilesBounds(bs, 0, extent);
    assert bs == bs[..k + 1] + bs[k + 1..];
    TilesSplit(bs[..k + 1], bs[k + 1..], 0, extent);
    ReplacedLast(bs[..k + 1], new_);
    assert bs[..k + 1][..k] == bs[..k];
    TilesSplit(bs[..k] + new_, bs[k + 1..], 0, extent);
  }

  lemma ReplacedLast(a: seq<Block>, new_: seq<Block>)
    requires a != [] && new_ != []
    requires var b := a[|a| - 1]; Tiles(a, 0, End(b)) && Tiles(new_, b.at, End(b))
    ensures Tiles(a[..|a| - 1] + new_, 0, End(a[|a| - 1]))
  {
    hide Tiles;
    var k, b := |a| - 1, a[|a| - 1];
    if k > 0 {
      TilesNext(a, 0, End(b), k - 1);
      assert a == a[..k] + [b];
      TilesSplit(a[..k], [b], 0, End(b));
      TilesSplit(a[..k], new_, 0, End(b));
    } else {
      TilesBounds(a, 0, End(b));
      assert a[..k] + new_ == new_;
    }
  }

  lemma AllocatedNoTwoFree(bs: seq<Block>, r: nat)
    requires NoTwoFree(bs)
    ensures NoTwoFree(Allocated(bs, r))
  {
    var k := FirstFit(bs, r);
    if k < |bs| {
      var a, c, cut := bs[..k], bs[k + 1..], Cut(bs[k], r);
      assert bs == a + [bs[k]] + c;
      NoTwoFreeSplit(a + [bs[k]], c);
      NoTwoFreeSplit(a, [bs[k]]);
      assert cut[1..] == [] || cut[1..] == [cut[1]];
      NoTwoFreeSplit(a, cut);
      NoTwoFreeSplit(a + cut, c);
    }
  }

  /** `kmalloc` keeps the list in order. */
  lemma AllocatedGood(bs: seq<Block>, extent: nat, r: nat)
    requires Good(bs, extent) && r % 4 == 0
    ensures Good(Allocated(bs, r), extent)
  {
    AllocatedTiles(bs, extent, r);
    AllocatedNoTwoFree(bs, r);
  }

  /** The used blocks afterwards: those before, untouched, and one of at least `r` bytes where the
      first fit was. */
  lemma AllocatedUsed(bs: seq<Block>, r: nat)
    requires FirstFit(bs, r) < |bs|
    ensures var k := FirstFit(bs, r); var new_ := Cut(bs[k], r)[0];
      && Used(Allocated(bs, r)) == Used(bs) + {new_}
      && new_.at == bs[k].at && new_.size == (if bs[k].size >= r + 16 then r else bs[k].size)
      && r <= new_.size < r + HEADER + 4
  {
    var k := FirstFit(bs, r);
    CutUsed(bs[k], r);
    hide Cut, FirstFit;
    assert bs == bs[..k] + [bs[k]] + bs[k + 1..];
    forall b: Block ensures b in Used(Allocated(bs, r)) <==> b in Used(bs) || b == Cut(bs[k], r)[0] {
      InThree(bs[..k], Cut(bs[k], r), bs[k + 1..], b);
      InThree(bs[..k], [bs[k]], bs[k + 1..], b);
    }
  }

  lemma CutUsed(b: Block, r: nat)
    requires Fit(b, r)
    ensures var cut := Cut(b, r);
      && cut != [] && (forall x :: x in cut && !x.free <==> x == cut[0])
      && cut[0].at == b.at && cut[0].size == (if b.size >= r + 16 then r else b.size)
  {
  }

  lemma InThree(a: seq<Block>, b: seq<Block>, c: seq<Block>, x: Block)
    ensures x in a + b + c <==> x in a || x in b || x in c
  {
  }

  /** The new block is not one that was in use. */
  lemma AllocatedIsNew(bs: seq<Block>, extent: nat, r: nat)
    requires Tiles(bs, 0, extent) && FirstFit(bs, r) < |bs|
    ensures forall b | b in Used(bs) :: End(b) <= bs[FirstFit(bs, r)].at || End(bs[FirstFit(bs, r)]) <= b.at
  {
    TilesApart(bs, 0, extent);
  }

  // ---------- kfree ----------

  lemma {:induction false} CoalescedTiles(bs: seq<Block>, at: nat, end: nat)
    requires Tiles(bs, at, end)
    ensures Tiles(Coalesced(bs), at, end)
    decreases |bs|
  {
    if |bs| >= 2 {
      assert bs[1..][1..] == bs[2..];
      if bs[0].free && bs[1].free {
        var m := [Merged(bs[0], bs[1])] + bs[2..];
        assert m[1..] == bs[2..];
        CoalescedTiles(m, at, end);
      } else {
        CoalescedTiles(bs[1..], End(bs[0]), end);
        assert Coalesced(bs)[1..] == Coalesced(bs[1..]);
      }
    }
  }

  lemma {:induction false} CoalescedNoTwoFree(bs: seq<Block>)
    ensures NoTwoFree(Coalesced(bs))
    ensures bs != [] ==> Coalesced(bs) != [] && Coalesced(bs)[0].free == bs[0].free
    decreases |bs|
  {
    if |bs| >= 2 {
      if bs[0].free && bs[1].free {
        CoalescedNoTwoFree([Merged(bs[0], bs[1])] + bs[2..]);
      } else {
        CoalescedNoTwoFree(bs[1..]);
        assert Coalesced(bs)[1..] == Coalesced(bs[1..]);
      }
    }
  }

  lemma {:induction false} CoalescedUsed(bs: seq<Block>)
    ensures SameUsed(Coalesced(bs), bs)
    decreases |bs|
  {
    if |bs| >= 2 {
      if bs[0].free && bs[1].free {
        CoalescedUsed([Merged(bs[0], bs[1])] + bs[2..]);
        assert bs == [bs[0], bs[1]] + bs[2..];
      } else {
        CoalescedUsed(bs[1..]);
        assert bs == [bs[0]] + bs[1..];
      }
    }
  }

  lemma FreedTiles(bs: seq<Block>, extent: nat, k: nat)
    requires Tiles(bs, 0, extent) && k < |bs|
    ensures Tiles(Freed(bs, k), 0, extent)
  {
    var b := bs[k].(free := true);
    TilesBounds(bs, 0, extent);
    assert [b][1..] == [];
    ReplacedTiles(bs, extent, k, [b]);
    assert Freed(bs, k) == bs[..k] + [b] + bs[k + 1..];
  }

  lemma FreedUsed(bs: seq<Block>, k: nat)
    requires k < |bs| && forall i, j | 0 <= i < j < |bs| :: bs[i].at < bs[j].at
    ensures forall b: Block | !b.free :: b in Freed(bs, k) <==> b in bs && b.at != bs[k].at
  {
    var cs := Freed(bs, k);
    forall b: Block | !b.free ensures b in cs <==> b in bs && b.at != bs[k].at {
      if b in cs {
        var i :| 0 <= i < |cs| && cs[i] == b;
        assert bs[i] == b;
      }
      if b in bs && b.at != bs[k].at {
        var i :| 0 <= i < |bs| && bs[i] == b;
        assert cs[i] == b;
      }
    }
  }

  /** Freeing a used block takes it, and no other, from the used ones. */
  lemma ReleasedUsed(bs: seq<Block>, extent: nat, at: nat)
    requires Tiles(bs, 0, extent)
    ensures forall b: Block | !b.free :: b in Released(bs, at) <==> b in bs && b.at != at
  {
    hide Tiles, Coalesced, Freed;
    TilesApart(bs, 0, extent);
    if Live(bs, at) {
      var k := Place(bs, at);
      CoalescedUsed(Freed(bs, k));
      FreedUsed(bs, k);
    }
  }

  /** `kfree` keeps the list in order. */
  lemma ReleasedGood(bs: seq<Block>, extent: nat, at: nat)
    requires Good(bs, extent)
    ensures Good(Released(bs, at), extent)
  {
    if Live(bs, at) {
      var k := Place(bs, at);
      FreedTiles(bs, extent, k);
      CoalescedTiles(Freed(bs, k), 0, extent);
      CoalescedNoTwoFree(Freed(bs, k));
    }
  }

  /** `kfree` undoes the `kmalloc` before it exactly: the list is what it was. */
  lemma FreeUndoesAlloc(bs: seq<Block>, extent: nat, r: nat)
    requires Good(bs, extent) && r % 4 == 0 && FirstFit(bs, r) < |bs|
    ensures Released(Allocated(bs, r), bs[FirstFit(bs, r)].at) == bs
  {
    var k := FirstFit(bs, r);
    var mid, at := Allocated(bs, r), bs[k].at;
    AllocatedGood(bs, extent, r);
    AllocatedUsed(bs, r);
    AllocatedIsNew(bs, extent, r);
    ReleasedUsed(mid, extent, at);
    ReleasedGood(mid, extent, at);
    forall b: Block | !b.free ensures b in Released(mid, at) <==> b in bs {
      assert b in mid <==> b in Used(mid);
      assert b in bs <==> b in Used(bs);
    }
    Canonical(Released(mid, at), bs, 0, extent);
  }

  /** The order of two frees does not matter. */
  lemma FreesCommute(bs: seq<Block>, extent: nat, a: nat, b: nat)
    requires Good(bs, extent)
    ensures Released(Released(bs, a), b) == Released(Released(bs, b), a)
  {
    ReleasedGood(bs, extent, a);
    ReleasedGood(bs, extent, b);
    ReleasedGood(Released(bs, a), extent, b);
    ReleasedGood(Released(bs, b), extent, a);
    ReleasedUsed(bs, extent, a);
    ReleasedUsed(bs, extent, b);
    ReleasedUsed(Released(bs, a), extent, b);
    ReleasedUsed(Released(bs, b), extent, a);
    Canonical(Released(Released(bs, a), b), Released(Released(bs, b), a), 0, extent);
  }

  function ReleasedAll(bs: seq<Block>, ats: seq<nat>): seq<Block>
    decreases |ats|
  {
    if ats == [] then bs else ReleasedAll(Released(bs, ats[0]), ats[1..])
  }

  /** Freeing every used block, in any order, restores the single block of `kmalloc_init`. */
  lemma {:induction false} FreeingAllRestores(bs: seq<Block>, extent: nat, ats: seq<nat>)
    requires Good(bs, extent) && forall b | b in bs && !b.free :: b.at in ats
    ensures extent >= HEADER && ReleasedAll(bs, ats) == [Block(0, extent - HEADER, true)]
    decreases |ats|
  {
    if ats == [] {
      TilesBounds(bs, 0, extent);
      assert forall b | b in bs :: b.free;
      var one := [Block(0, extent - HEADER, true)];
      assert one[1..] == [];
      assert bs[0] in bs;
      Canonical(bs, one, 0, extent);
    } else {
      ReleasedGood(bs, extent, ats[0]);
      ReleasedUsed(bs, extent, ats[0]);
      FreeingAllRestores(Released(bs, ats[0]), extent, ats[1..]);
    }
  }

  // ---------- bytes in use ----------

  lemma {:induction false} UsedBytesSplit(a: seq<Block>, b: seq<Block>)
    ensures UsedBytes(a + b) == UsedBytes(a) + UsedBytes(b)
  {
    if a == [] {
      assert a + b == b;
    } else {
      assert (a + b)[1..] == a[1..] + b;
      UsedBytesSplit(a[1..], b);
    }
  }

  lemma UsedBytesAround(a: seq<Block>, b: seq<Block>, c: seq<Block>)
    ensures UsedBytes(a + b + c) == UsedBytes(a) + UsedBytes(b) + UsedBytes(c)
  {
    UsedBytesSplit(a + b, c);
    UsedBytesSplit(a, b);
  }

  /** `kmalloc` raises the bytes in use by the size of the block it grants. */
  lemma AllocatedBytes(bs: seq<Block>, r: nat)
    requires FirstFit(bs, r) < |bs|
    ensures var b := bs[FirstFit(bs, r)];
      UsedBytes(Allocated(bs, r)) == UsedBytes(bs) + if b.size >= r + 16 then r else b.size
  {
    var k := FirstFit(bs, r);
    var cut := Cut(bs[k], r);
    assert bs == bs[..k] + [bs[k]] + bs[k + 1..];
    UsedBytesAround(bs[..k], [bs[k]], bs[k + 1..]);
    UsedBytesAround(bs[..k], cut, bs[k + 1..]);
    assert cut[1..] == [] || (cut[1..] == [cut[1]] && cut[1..][1..] == []);
    assert [bs[k]][1..] == [];
  }

  lemma {:induction false} CoalescedBytes(bs: seq<Block>)
    ensures UsedBytes(Coalesced(bs)) == UsedBytes(bs)
    decreases |bs|
  {
    if |bs| >= 2 {
      assert bs[1..][1..] == bs[2..];
      if bs[0].free && bs[1].free {
        var m := [Merged(bs[0], bs[1])] + bs[2..];
        assert m[1..] == bs[2..];
        CoalescedBytes(m);
      } else {
        CoalescedBytes(bs[1..]);
        assert Coalesced(bs)[1..] == Coalesced(bs[1..]);
      }
    }
  }

  /** `kfree` lowers them by the size of its block. */
  lemma ReleasedBytes(bs: seq<Block>, extent: nat, b: Block)
    requires Tiles(bs, 0, extent) && b in bs && !b.free
    ensures UsedBytes(Released(bs, b.at)) == UsedBytes(bs) - b.size
  {
    hide Tiles, Coalesced, UsedBytes;
    var k := Place(bs, b.at);
    TilesApart(bs, 0, extent);
    var i :| 0 <= i < |bs| && bs[i] == b;
    assert k == i;
    FreedBytes(bs, k);
    CoalescedBytes(Freed(bs, k));
  }

  lemma FreedBytes(bs: seq<Block>, k: nat)
    requires k < |bs| && !bs[k].free
    ensures UsedBytes(Freed(bs, k)) == UsedBytes(bs) - bs[k].size
  {
    var b := bs[k];
    assert bs == bs[..k] + [b] + bs[k + 1..];
    assert Freed(bs, k) == bs[..k] + [b.(free := true)] + bs[k + 1..];
    UsedBytesAround(bs[..k], [b], bs[k + 1..]);
    UsedBytesAround(bs[..k], [b.(free := true)], bs[k + 1..]);
    assert [b][1..] == [] && [b.(free := true)][1..] == [];
  }

  // ---------- when kmalloc succeeds ----------

  predicate Disjoint(a: nat, end: nat, b: Block) { end <= b.at || End(b) <= a }

  /** From `a` on, a header and `r` bytes touch no used block. */
  predicate FreeStretch(bs: seq<Block>, extent: nat, a: nat, r: nat) {
    a + HEADER + r <= extent && forall b | b in bs && !b.free :: Disjoint(a, a + HEADER + r, b)
  }

  /** `kmalloc` finds a block exactly when some stretch clear of all used blocks holds the bytes and a
      header. */
  lemma FitsExactly(bs: seq<Block>, extent: nat, r: nat)
    requires Good(bs, extent)
    ensures FirstFit(bs, r) < |bs| <==> exists a: nat :: FreeStretch(bs, extent, a, r)
  {
    var k := FirstFit(bs, r);
    if k < |bs| {
      TilesApart(bs, 0, extent);
      TilesBounds(bs, 0, extent);
      assert FreeStretch(bs, extent, bs[k].at, r);
    }
    if a: nat :| FreeStretch(bs, extent, a, r) {
      var i := Covering(bs, 0, extent, a);
      assert bs[i] in bs;
      TilesBounds(bs, 0, extent);
      if i + 1 < |bs| {
        NoTwoFreeAt(bs, i);
        TilesNext(bs, 0, extent, i);
        assert bs[i + 1] in bs;
      }
      assert Fit(bs[i], r);
    }
  }

  /** A request of 1 to 2^32 - 4 bytes: refused exactly when no stretch clear of all used blocks holds
      the bytes, rounded up to 4, and a header. */
  lemma RequestFits(bs: seq<Block>, extent: nat, n: u32)
    requires Good(bs, extent) && 0 < n <= 0x1_0000_0000 - 4
    ensures FirstFit(bs, Rounded(n)) == |bs| <==> forall a: nat :: !FreeStretch(bs, extent, a, Rounded(n))
    ensures n <= Rounded(n) < n + 4
  {
    RoundedIsRight(n);
    hide Rounded, FreeStretch;
    FitsExactly(bs, extent, Rounded(n));
  }

  lemma {:induction false} Covering(bs: seq<Block>, at: nat, end: nat, a: nat) returns (i: nat)
    requires Tiles(bs, at, end) && at <= a < end
    ensures i < |bs| && bs[i].at <= a < End(bs[i])
  {
    if a < End(bs[0]) {
      i := 0;
    } else {
      TilesBounds(bs[1..], End(bs[0]), end);
      var j := Covering(bs[1..], End(bs[0]), end, a);
      i := j + 1;
    }
  }

  /** The rounded size is right exactly up to 2^32 - 4 bytes; a larger request becomes one of 0 bytes. */
  lemma RoundedIsRight(n: u32)
    ensures Rounded(n) % 4 == 0
    ensures n <= 0x1_0000_0000 - 4 <==> n <= Rounded(n)
    ensures n <= 0x1_0000_0000 - 4 ==> Rounded(n) < n + 4
    ensures n > 0x1_0000_0000 - 4 ==> Rounded(n) == 0
  {
    if n > 0x1_0000_0000 - 4 {
      assert (n + 3) % 0x1_0000_0000 == n + 3 - 0x1_0000_0000;
    } else {
      assert (n + 3) % 0x1_0000_0000 == n + 3;
    }
  }

  /** A request of more than 2^32 - 4 bytes is answered whenever any block is free, by fewer than 16
      bytes. */
  lemma HugeRequestSucceeds(bs: seq<Block>, n: u32)
    requires n > 0x1_0000_0000 - 4
    ensures FirstFit(bs, Rounded(n)) < |bs| <==> exists i | 0 <= i < |bs| :: bs[i].free
    ensures FirstFit(bs, Rounded(n)) < |bs| ==> Cut(bs[FirstFit(bs, Rounded(n))], Rounded(n))[0].size < 16
  {
    RoundedIsRight(n);
    hide Rounded;
    var k := FirstFit(bs, 0);
    if i :| 0 <= i < |bs| && bs[i].free { assert Fit(bs[i], 0); }
  }

  function CountUsed(bs: seq<Block>): nat {
    if bs == [] then 0 else (if bs[0].free then 0 else 1) + CountUsed(bs[1..])
  }

  /** `u` blocks of `m` bytes, and the gaps around them filled with `r` bytes each: `u * (m + 12) +
      (u + 1) * (r + 12)`. */
  function Spread(u: nat, m: nat, r: nat): nat {
    if u == 0 then HEADER + r else HEADER + m + HEADER + r + Spread(u - 1, m, r)
  }

  /** With at most `u` used blocks of at most `m` bytes in a large enough heap, `r` bytes can be had,
      however the blocks lie. */
  lemma EnoughRoom(bs: seq<Block>, extent: nat, r: nat, m: nat, u: nat)
    requires Good(bs, extent) && CountUsed(bs) <= u && (forall b | b in bs && !b.free :: b.size <= m)
    requires extent >= Spread(u, m, r)
    ensures FirstFit(bs, r) < |bs|
  {
    if FirstFit(bs, r) == |bs| {
      assert forall b | b in bs :: !Fit(b, r);
      StretchBound(bs, 0, extent, r, m);
      SpreadGrows(CountUsed(bs), u, m, r);
    }
  }

  lemma {:induction false} SpreadGrows(u: nat, v: nat, m: nat, r: nat)
    requires u <= v
    ensures Spread(u, m, r) <= Spread(v, m, r)
  {
    if u < v { SpreadGrows(u, v - 1, m, r); }
  }

  lemma {:induction false} StretchBound(bs: seq<Block>, at: nat, end: nat, r: nat, m: nat)
    requires Tiles(bs, at, end) && NoTwoFree(bs)
    requires forall b | b in bs :: (if b.free then b.size < r else b.size <= m)
    ensures end - at < Spread(CountUsed(bs), m, r)
    ensures bs == [] || !bs[0].free ==> end - at + HEADER + r <= Spread(CountUsed(bs), m, r)
  {
    if bs != [] {
      assert bs[0] in bs;
      StretchBound(bs[1..], End(bs[0]), end, r, m);
    }
  }

  // ---------- any sequence of calls ----------

  datatype Request = Take(n: u32) | Give(at: nat)

  function Serve(bs: seq<Block>, q: Request): seq<Block> {
    match q
    case Take(n) => if n == 0 then bs else Allocated(bs, Rounded(n))
    case Give(at) => Released(bs, at)
  }

  function ServeAll(bs: seq<Block>, qs: seq<Request>): seq<Block>
    decreases |qs|
  {
    if qs == [] then bs else ServeAll(Serve(bs, qs[0]), qs[1..])
  }

  lemma ServeKeeps(bs: seq<Block>, extent: nat, q: Request)
    requires Good(bs, extent)
    ensures Good(Serve(bs, q), extent)
    ensures forall b: Block | b in bs && !b.free && q != Give(b.at) :: b in Serve(bs, q)
  {
    hide Good, Allocated, Released;
    match q
    case Take(n) =>
      if n != 0 {
        var r := Rounded(n);
        RoundedIsRight(n);
        AllocatedGood(bs, extent, r);
        if FirstFit(bs, r) < |bs| {
          AllocatedUsed(bs, r);
          forall b: Block | b in bs && !b.free ensures b in Allocated(bs, r) {
            assert b in Used(bs);
          }
        } else {
          NothingFits(bs, r);
        }
      }
    case Give(at) =>
      ReleasedGood(bs, extent, at);
      GoodTiles(bs, extent);
      ReleasedUsed(bs, extent, at);
  }

  lemma GoodTiles(bs: seq<Block>, extent: nat)
    requires Good(bs, extent)
    ensures Tiles(bs, 0, extent)
  {
  }

  lemma NothingFits(bs: seq<Block>, r: nat)
    requires FirstFit(bs, r) == |bs|
    ensures Allocated(bs, r) == bs
  {
  }

  /** Over any calls the list stays in order, and a block nobody frees stays where it is with the size
      it has. */
  lemma {:induction false} ServeAllKeeps(bs: seq<Block>, extent: nat, qs: seq<Request>)
    requires Good(bs, extent)
    ensures Good(ServeAll(bs, qs), extent)
    ensures forall b: Block | b in bs && !b.free && Give(b.at) !in qs :: b in ServeAll(bs, qs)
    decreases |qs|
  {
    hide Good, Serve;
    if qs != [] {
      ServeKeeps(bs, extent, qs[0]);
      ServeAllKeeps(Serve(bs, qs[0]), extent, qs[1..]);
    }
  }
}
