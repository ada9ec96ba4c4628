/** The kernel heap (kernel/mm.c) in memory words. */
module Heaps {
  import opened Types
  import opened Blocks

  /** `find_heap_end` never answers more. */
  const HEAP_LIMIT: u32 := 0x9_0000

  function NextOf(base: nat, bs: seq<Block>, i: nat): nat {
    if i + 1 < |bs| then base + bs[i + 1].at else 0
  }

  /** The header of `b`: size, free flag, address of the next header or NULL. */
  predicate HeaderIs(m: seq<u32>, b: Block, next: nat) {
    var w := b.at / 4;
    w + 3 <= |m| && m[w] == b.size && m[w + 1] == (if b.free then 1 else 0) && m[w + 2] == next
  }

  predicate Stored(m: seq<u32>, base: nat, bs: seq<Block>) {
    forall i | 0 <= i < |bs| :: HeaderIs(m, bs[i], NextOf(base, bs, i))
  }

  /** Word `w` holds bytes of the payload of `b`. */
  predicate InPayload(b: Block, w: nat) { b.at + HEADER <= 4 * w < End(b) }

  /** No word of a live payload differs. */
  predicate KeepsPayloads(m: seq<u32>, m2: seq<u32>, bs: seq<Block>) {
    && |m2| == |m|
    && forall w, i | 0 <= w < |m| && 0 <= i < |bs| && !bs[i].free && InPayload(bs[i], w) :: m2[w] == m[w]
  }

  predicate SameOutside(m: seq<u32>, m2: seq<u32>, from: nat, to: nat) {
    |m2| == |m| && forall w | 0 <= w < |m| && (4 * w < from || to <= 4 * w) :: m2[w] == m[w]
  }

  /** A header outside the changed words stays. */
  lemma HeaderStays(m: seq<u32>, m2: seq<u32>, from: nat, to: nat, b: Block, next: nat)
    requires SameOutside(m, m2, from, to) && HeaderIs(m, b, next) && b.at % 4 == 0 && (b.at + HEADER <= from || to <= b.at)
    ensures HeaderIs(m2, b, next)
  {
    var w := b.at / 4;
    assert 4 * w == b.at;
    assert m2[w] == m[w] && m2[w + 1] == m[w + 1] && m2[w + 2] == m[w + 2];
  }

  /** Blocks `k` to `j` give way to others on the same stretch. */
  lemma StoredReplaced(m: seq<u32>, m2: seq<u32>, base: nat, bs: seq<Block>, extent: nat, k: nat, j: nat, new_: seq<Block>)
    requires Tiles(bs, 0, extent) && k < j <= |bs| && new_ != [] && new_[0].at == bs[k].at
    requires Stored(m, base, bs) && SameOutside(m, m2, bs[k].at, End(bs[j - 1]))
    requires forall i | 0 <= i < |new_| ::
               HeaderIs(m2, new_[i], if i + 1 < |new_| then base + new_[i + 1].at else NextOf(base, bs, j - 1))
    ensures Stored(m2, base, bs[..k] + new_ + bs[j..])
  {
    hide Tiles, HeaderIs, SameOutside, Stored, NextOf;
    TilesApart(bs, 0, extent);
    TilesBounds(bs, 0, extent);
    var all := bs[..k] + new_ + bs[j..];
    forall i | 0 <= i < |all| ensures HeaderIs(m2, all[i], NextOf(base, all, i)) {
      NextAfter(base, bs, k, j, new_, i);
      if i < k {
        StoredAt(m, base, bs, i);
        HeaderStays(m, m2, bs[k].at, End(bs[j - 1]), bs[i], NextOf(base, bs, i));
      } else if i < k + |new_| {
        assert all[i] == new_[i - k];
      } else {
        var o := i - k - |new_| + j;
        StoredAt(m, base, bs, o);
        HeaderStays(m, m2, bs[k].at, End(bs[j - 1]), bs[o], NextOf(base, bs, o));
      }
    }
    StoredAll(m2, base, all);
  }

  lemma StoredAll(m: seq<u32>, base: nat, bs: seq<Block>)
    requires forall i | 0 <= i < |bs| :: HeaderIs(m, bs[i], NextOf(base, bs, i))
    ensures Stored(m, base, bs)
  {
  }

  lemma StoredAt(m: seq<u32>, base: nat, bs: seq<Block>, k: nat)
    requires Stored(m, base, bs) && k < |bs|
    ensures HeaderIs(m, bs[k], NextOf(base, bs, k))
  {
  }

  lemma NextAfter(base: nat, bs: seq<Block>, k: nat, j: nat, new_: seq<Block>, i: nat)
    requires k < j <= |bs| && new_ != [] && new_[0].at == bs[k].at && i < |bs[..k] + new_ + bs[j..]|
    ensures var all := bs[..k] + new_ + bs[j..];
      i < k ==> all[i] == bs[i] && NextOf(base, all, i) == NextOf(base, bs, i)
    ensures var all := bs[..k] + new_ + bs[j..];
      k <= i < k + |new_| ==>
        && all[i] == new_[i - k]
        && NextOf(base, all, i) == if i + 1 - k < |new_| then base + new_[i + 1 - k].at else NextOf(base, bs, j - 1)
    ensures var all, o := bs[..k] + new_ + bs[j..], i - k - |new_| + j;
      i >= k + |new_| ==> j <= o < |bs| && all[i] == bs[o] && NextOf(base, all, i) == NextOf(base, bs, o)
  {
  }

  /** Writing headers inside the stretch of a free block leaves all live payloads alone. */
  lemma FreeStretchKeeps(m: seq<u32>, m2: seq<u32>, bs: seq<Block>, extent: nat, k: nat)
    requires Tiles(bs, 0, extent) && k < |bs| && bs[k].free && SameOutside(m, m2, bs[k].at, End(bs[k]))
    ensures KeepsPayloads(m, m2, bs)
  {
    TilesApart(bs, 0, extent);
    TilesBounds(bs, 0, extent);
  }

  /** Writing the header of a block leaves all live payloads alone, its own included. */
  lemma HeaderKeeps(m: seq<u32>, m2: seq<u32>, bs: seq<Block>, extent: nat, k: nat)
    requires Tiles(bs, 0, extent) && k < |bs| && SameOutside(m, m2, bs[k].at, bs[k].at + HEADER)
    ensures KeepsPayloads(m, m2, bs)
  {
    TilesApart(bs, 0, extent);
    TilesBounds(bs, 0, extent);
  }

  class Heap {
    var start: u32
    const base: u32
    const mem: array<u32>
    ghost var blocks: seq<Block>
    ghost var extent: nat

    /** The block headers in memory are those of `blocks`, end to end over the extent. */
    ghost predicate Linked()
      reads this, mem
    {
      && 0 < base < HEAP_LIMIT && 4 * mem.Length >= HEAP_LIMIT - base
      && (start == 0 ==> blocks == [])
      && (start != 0 ==>
            && start == base && base + extent <= HEAP_LIMIT && blocks != [] && Tiles(blocks, 0, extent)
            && Stored(mem[..], base, blocks))
    }

    ghost predicate Valid()
      reads this, mem
    {
      Linked() && NoTwoFree(blocks)
    }

    constructor (base: u32)
      requires 0 < base < HEAP_LIMIT
      ensures Valid() && start == 0 && this.base == base && fresh(mem)
    {
      this.base := base;
      start := 0;
      blocks := [];
      extent := 0;
      mem := new u32[(HEAP_LIMIT - base) / 4 + 1];
    }

    /** The word a header field is in. */
    function Word(p: u32, field: nat): nat
      reads this
    {
      if p < base then field else (p - base) / 4 + field
    }

    method KmallocInit(heapEnd: u32)
      requires Valid() && base + HEADER < heapEnd <= HEAP_LIMIT
      modifies this, mem
      ensures Valid() && start == base && extent == heapEnd - base
      ensures blocks == [Block(0, extent - HEADER, true)]
    {
      start := base;
      mem[0] := heapEnd - base - HEADER;
      mem[1] := 1;
      mem[2] := 0;
      extent := heapEnd - base;
      blocks := [Block(0, extent - HEADER, true)];
      assert blocks[1..] == [];
    }

    lemma WordAt(p: u32, at: nat)
      requires p == base + at && at % 4 == 0
      ensures forall f: nat :: Word(p, f) == at / 4 + f
    {
    }

    /** The block `b` with the header at `p` shrinks to `size` bytes if a header and a word fit behind
        them. */
    method SplitBlock(p: u32, size: u32, ghost b: Block)
      requires p == base + b.at && base + End(b) <= HEAP_LIMIT <= base + 4 * mem.Length && base > 0
      requires size <= b.size && size % 4 == 0 && b.at % 4 == 0 && mem[b.at / 4] == b.size
      modifies mem
      ensures mem[..] == SplitMemory(old(mem[..]), base, b, size)
    {
      hide Word, SplitMemory;
      ghost var m, w, v := mem[..], b.at / 4, (b.at + HEADER + size) / 4;
      WordAt(p, b.at);
      SplitWords(m, base, b, size);
      if mem[Word(p, 0)] >= Add32(size, HEADER + 4) {
        var q := p + HEADER + size;
        WordAt(q, b.at + HEADER + size);
        var rest := mem[Word(p, 0)] - size - HEADER;
        var next := mem[Word(p, 2)];
        SetField(q, 0, rest, v);
        SetField(q, 1, 1, v);
        SetField(q, 2, next, v);
        SetField(p, 0, size, w);
        SetField(p, 2, q, w);
      }
    }

    /** Assignment to a field of the header at `p`, which starts at word `w`. */
    method SetField(p: u32, field: nat, value: u32, ghost w: nat)
      requires Word(p, field) == w + field && w + field < mem.Length
      modifies mem
      ensures mem[..] == old(mem[..])[w + field := value]
    {
      mem[Word(p, field)] := value;
    }

    lemma Tiled()
      requires Valid() && start != 0
      ensures Good(blocks, extent) && Tiles(blocks, 0, extent)
    {
    }

    lemma Within(k: nat)
      requires Valid() && k < |blocks|
      ensures base + End(blocks[k]) <= HEAP_LIMIT
    {
      hide Tiles;
      TilesBounds(blocks, 0, extent);
    }

    /** What the header at the address of `blocks[k]` says. */
    lemma HeaderOf(p: u32, k: nat)
      requires Linked() && k < |blocks| && p == base + blocks[k].at
      ensures p != 0 && Word(p, 2) < mem.Length && Word(p, 0) == blocks[k].at / 4
      ensures Word(p, 1) == Word(p, 0) + 1 && Word(p, 2) == Word(p, 0) + 2
      ensures mem[Word(p, 0)] == blocks[k].size && (mem[Word(p, 1)] != 0 <==> blocks[k].free)
      ensures mem[Word(p, 2)] == NextOf(base, blocks, k)
      ensures base + blocks[k].at + HEADER + blocks[k].size <= HEAP_LIMIT
      ensures blocks[k].at % 4 == 0
    {
      hide Tiles;
      TilesBounds(blocks, 0, extent);
      assert HeaderIs(mem[..], blocks[k], NextOf(base, blocks, k));
    }

    /** First fit. NULL exactly when no block fits; otherwise the payload of the block that did, which
        is now in use. */
    method Kmalloc(n: u32) returns (p: u32)
      requires Valid()
      modifies this`blocks, mem
      ensures Valid()
      ensures n == 0 || start == 0 ==> p == 0 && blocks == old(blocks) && mem[..] == old(mem[..])
      ensures n != 0 && start != 0 ==> blocks == Allocated(old(blocks), Rounded(n))
      ensures n != 0 && start != 0 ==> p == PayloadAt(base, old(blocks), FirstFit(old(blocks), Rounded(n)))
      ensures KeepsPayloads(old(mem[..]), mem[..], blocks)
    {
      hide Tiles, Stored, NoTwoFree, Allocated, KeepsPayloads, FirstFit, Word, Rounded;
      if n == 0 || start == 0 {
        NoChangeKeeps(mem[..], blocks);
        return 0;
      }
      var size: u32 := (n + 3) % 0x1_0000_0000 / 4 * 4;
      RoundedValue(n);
      var curr := start;
      ghost var k := 0;
      TilesBounds(blocks, 0, extent);
      while curr != 0
        invariant k <= |blocks| && curr == if k < |blocks| then base + blocks[k].at else 0
        invariant forall i | 0 <= i < k :: !Fit(blocks[i], size)
        invariant Valid() && start != 0 && blocks == old(blocks) && mem[..] == old(mem[..])
        decreases |blocks| - k
      {
        HeaderOf(curr, k);
        if mem[Word(curr, 1)] != 0 && mem[Word(curr, 0)] >= size {
          FirstFitIs(blocks, size, k);
          TakeBlock(curr, size, k);
          return curr + HEADER;
        }
        curr := mem[Word(curr, 2)];
        k := k + 1;
      }
      NothingFits(blocks, size);
      NoChangeKeeps(mem[..], blocks);
      return 0;
    }

    /** `split_block` and the assignment to `free` in `kmalloc`. */
    method TakeBlock(p: u32, size: u32, ghost k: nat)
      requires Valid() && start != 0 && k < |blocks| && p == base + blocks[k].at
      requires FirstFit(blocks, size) == k && size % 4 == 0
      modifies this`blocks, mem
      ensures Valid() && blocks == Allocated(old(blocks), size)
      ensures KeepsPayloads(old(mem[..]), mem[..], blocks)
    {
      hide Tiles, NoTwoFree, SplitMemory, KeepsPayloads, Stored, Allocated, FirstFit;
      TilesBounds(blocks, 0, extent);
      ghost var m, bs := mem[..], blocks;
      StoredAt(m, base, blocks, k);
      SplitBlock(p, size, blocks[k]);
      ghost var m1 := mem[..];
      mem[Word(p, 1)] := 0;
      assert mem[..] == TakenMemory(m, base, bs[k], size);
      TakenStored(m, base, bs, extent, size);
      blocks := Allocated(bs, size);
      AllocatedGood(bs, extent, size);
    }

    /** Neighbouring free blocks are joined, from the first block on. */
    method Coalesce()
      requires Linked()
      modifies this`blocks, mem
      ensures Linked() && blocks == Coalesced(old(blocks))
      ensures KeepsPayloads(old(mem[..]), mem[..], old(blocks))
    {
      hide Tiles, Stored, Coalesced, KeepsPayloads, SameUsed;
      NoChangeKeeps(mem[..], blocks);
      SameUsedSelf(blocks);
      if start == 0 {
        CoalescedShort(blocks);
        return;
      }
      var curr := start;
      ghost var k := 0;
      TilesBounds(blocks, 0, extent);
      assert blocks[..0] + Coalesced(blocks[0..]) == Coalesced(blocks) by { assert blocks[0..] == blocks; }
      HeaderOf(curr, 0);
      while curr != 0 && mem[Word(curr, 2)] != 0
        invariant Linked() && start != 0 && start == old(start) && k < |blocks| && curr == base + blocks[k].at
        invariant Word(curr, 2) < mem.Length && mem[Word(curr, 2)] == NextOf(base, blocks, k)
        invariant Coalesced(old(blocks)) == blocks[..k] + Coalesced(blocks[k..])
        invariant SameUsed(blocks, old(blocks)) && KeepsPayloads(old(mem[..]), mem[..], blocks)
        decreases |blocks| - k
      {
        HeaderOf(curr, k);
        HeaderOf(mem[Word(curr, 2)], k + 1);
        CoalescedStep(blocks, k);
        if mem[Word(curr, 1)] != 0 && mem[Word(mem[Word(curr, 2)], 1)] != 0 {
          ghost var m, bs := mem[..], blocks;
          Absorb(curr, k);
          KeepsTransitive(old(mem[..]), m, mem[..], bs);
          KeepsSameUsed(old(mem[..]), mem[..], bs, blocks);
          SameUsedVia(blocks, bs, old(blocks));
        } else {
          curr := mem[Word(curr, 2)];
          k := k + 1;
        }
        HeaderOf(curr, k);
      }
      CoalescedShort(blocks[k..]);
      assert blocks == blocks[..k] + blocks[k..];
      SameUsedSwap(blocks, old(blocks));
      KeepsSameUsed(old(mem[..]), mem[..], blocks, old(blocks));
    }

    /** The free block `blocks[k]` takes in the free block after it. */
    method Absorb(curr: u32, ghost k: nat)
      requires Linked() && start != 0 && k + 1 < |blocks| && curr == base + blocks[k].at
      requires blocks[k].free && blocks[k + 1].free
      modifies this`blocks, mem
      ensures Linked() && blocks == old(Absorbed(blocks, k)) && SameUsed(blocks, old(blocks))
      ensures KeepsPayloads(old(mem[..]), mem[..], old(blocks))
    {
      hide Tiles, Stored, KeepsPayloads, SameUsed;
      HeaderOf(curr, k);
      HeaderOf(mem[Word(curr, 2)], k + 1);
      ghost var m, bs := mem[..], blocks;
      var next := mem[Word(curr, 2)];
      mem[Word(curr, 0)] := Add32(mem[Word(curr, 0)], Add32(HEADER, mem[Word(next, 0)]));
      mem[Word(curr, 2)] := mem[Word(next, 2)];
      TilesBounds(bs, 0, extent);
      TilesNext(bs, 0, extent, k);
      AbsorbedStored(m, mem[..], base, bs, extent, k);
      blocks := Absorbed(bs, k);
    }

    /** The block behind a live pointer becomes free, and free neighbours are joined. */
    method Kfree(p: u32)
      requires Valid() && (p == 0 || LivePointer(p))
      modifies this`blocks, mem
      ensures Valid()
      ensures p == 0 ==> blocks == old(blocks) && mem[..] == old(mem[..])
      ensures p != 0 ==> blocks == Released(old(blocks), p - base - HEADER)
      ensures KeepsPayloads(old(mem[..]), mem[..], blocks)
    {
      hide Tiles, Stored, NoTwoFree, KeepsPayloads, Coalesced, SameUsed;
      NoChangeKeeps(mem[..], blocks);
      if p == 0 {
        return;
      }
      ghost var at := p - base - HEADER;
      ghost var k := Place(blocks, at);
      LiveIsAt(blocks, extent, at);
      HeaderOf(p - HEADER, k);
      ghost var m, bs := mem[..], blocks;
      mem[Word(p - HEADER, 1)] := 1;
      FreedStored(m, mem[..], base, bs, extent, k);
      blocks := Freed(bs, k);
      ghost var m1 := mem[..];
      Coalesce();
      CoalescedNoTwoFree(Freed(bs, k));
      CoalescedUsed(Freed(bs, k));
      KeepsSameUsed(m1, mem[..], Freed(bs, k), blocks);
      KeepsSameUsed(m, m1, Freed(bs, k), blocks);
      KeepsTransitive(m, m1, mem[..], blocks);
    }

    /** `*p = v` for word `w` of a live payload. */
    method StoreWord(p: u32, v: u32, ghost k: nat, ghost w: nat)
      requires Valid() && k < |blocks| && !blocks[k].free && p == base + 4 * w
      requires blocks[k].at + HEADER <= 4 * w && 4 * w + 4 <= End(blocks[k])
      modifies mem
      ensures Valid() && w < mem.Length && mem[..] == old(mem[..])[w := v]
    {
      hide Tiles, NoTwoFree;
      ghost var m := mem[..];
      TilesBounds(blocks, 0, extent);
      mem[Word(p, 0)] := v;
      PayloadWritten(m, mem[..], base, blocks, extent, k, w, v);
    }

    /** A pointer `kmalloc` gave out and nobody freed. */
    ghost predicate LivePointer(p: u32)
      reads this
    {
      p >= base + HEADER && Live(blocks, p - base - HEADER)
    }

    /** Sizes of all blocks, of those in use, and of the free ones. */
    method KmallocStats() returns (total: u32, used: u32, freeBytes: u32)
      requires Valid()
      ensures total == Total(blocks) && used == UsedBytes(blocks) && freeBytes == total - used
      ensures start != 0 ==> total + HEADER * |blocks| == extent
    {
      hide Tiles, Stored, NoTwoFree, Total, UsedBytes, Add32, Word;
      total, used, freeBytes := 0, 0, 0;
      var curr := start;
      ghost var k := 0;
      if start != 0 {
        TilesBounds(blocks, 0, extent);
        TotalIs(blocks, 0, extent);
      }
      assert blocks[0..] == blocks;
      TotalParts(blocks, 0);
      while curr != 0
        invariant k <= |blocks| && curr == if k < |blocks| then base + blocks[k].at else 0
        invariant total + Total(blocks[k..]) == Total(blocks) && used + UsedBytes(blocks[k..]) == UsedBytes(blocks)
        invariant freeBytes == total - used && UsedBytes(blocks[k..]) <= Total(blocks[k..])
        decreases |blocks| - k
      {
        HeaderOf(curr, k);
        TotalParts(blocks, k);
        total := Add32(total, mem[Word(curr, 0)]);
        if mem[Word(curr, 1)] != 0 {
          freeBytes := Add32(freeBytes, mem[Word(curr, 0)]);
        } else {
          used := Add32(used, mem[Word(curr, 0)]);
        }
        curr := mem[Word(curr, 2)];
        k := k + 1;
      }
      assert blocks[k..] == [];
      TotalParts(blocks[k..], 0);
    }
  }

  lemma RoundedValue(n: u32)
    ensures Rounded(n) == (n + 3) % 0x1_0000_0000 / 4 * 4 && Rounded(n) % 4 == 0
  {
  }

  lemma NoChangeKeeps(m: seq<u32>, bs: seq<Block>)
    ensures KeepsPayloads(m, m, bs)
  {
  }

  lemma FirstFitIs(bs: seq<Block>, r: nat, k: nat)
    requires k < |bs| && Fit(bs[k], r) && forall i | 0 <= i < k :: !Fit(bs[i], r)
    ensures FirstFit(bs, r) == k
  {
  }

  /** A sum of two 32-bit unsigned numbers. */
  function Add32(a: u32, b: u32): (sum: u32)
    ensures a + b < 0x1_0000_0000 ==> sum == a + b
  {
    (a + b) % 0x1_0000_0000
  }

  function PayloadAt(base: nat, bs: seq<Block>, k: nat): nat {
    if k < |bs| then base + bs[k].at + HEADER else 0
  }

  /** The memory after `split_block`. */
  function SplitMemory(m: seq<u32>, base: nat, b: Block, r: nat): (m2: seq<u32>)
    requires b.size >= r && b.at % 4 == 0 && r % 4 == 0 && base + End(b) <= HEAP_LIMIT && End(b) / 4 <= |m|
    ensures |m2| == |m|
  {
    var w, v := b.at / 4, (b.at + HEADER + r) / 4;
    if b.size < r + HEADER + 4 then m
    else
      var q: u32 := base + b.at + HEADER + r;
      m[v := b.size - r - HEADER][v + 1 := 1][v + 2 := m[w + 2]][w := r][w + 2 := q]
  }

  lemma SplitWords(m: seq<u32>, base: nat, b: Block, r: nat)
    requires b.size >= r && b.at % 4 == 0 && r % 4 == 0 && base + End(b) <= HEAP_LIMIT && End(b) / 4 <= |m|
    ensures var w, v := b.at / 4, (b.at + HEADER + r) / 4;
      if b.size < r + HEADER + 4 then SplitMemory(m, base, b, r) == m
      else
        && w + 3 <= v && v + 3 <= |m|
        && SplitMemory(m, base, b, r) ==
           m[v := b.size - r - HEADER][v + 1 := 1][v + 2 := m[w + 2]][w := r][w + 2 := base + b.at + HEADER + r]
  {
  }

  function TakenMemory(m: seq<u32>, base: nat, b: Block, r: nat): (m2: seq<u32>)
    requires b.size >= r && b.at % 4 == 0 && r % 4 == 0 && base + End(b) <= HEAP_LIMIT && End(b) / 4 <= |m|
  {
    SplitMemory(m, base, b, r)[b.at / 4 + 1 := 0]
  }

  /** The headers of the cut block, when a rest is left and when none is. */
  lemma CutStored(m: seq<u32>, base: nat, b: Block, r: nat, next: nat)
    requires b.size >= r && b.at % 4 == 0 && r % 4 == 0 && base + End(b) <= HEAP_LIMIT && End(b) / 4 <= |m|
    requires HeaderIs(m, b, next)
    ensures var m2, c := TakenMemory(m, base, b, r), Cut(b, r);
      && SameOutside(m, m2, b.at, End(b))
      && (forall i | 0 <= i < |c| :: HeaderIs(m2, c[i], if i + 1 < |c| then base + c[i + 1].at else next))
      && forall w | 0 <= w < |m| && InPayload(c[0], w) :: m2[w] == m[w]
  {
    hide TakenMemory, SameOutside, HeaderIs, InPayload;
    if b.size >= r + HEADER + 4 { CutInTwo(m, base, b, r, next); } else { CutWhole(m, base, b, r, next); }
  }

  lemma CutWhole(m: seq<u32>, base: nat, b: Block, r: nat, next: nat)
    requires r <= b.size < r + HEADER + 4 && b.at % 4 == 0 && r % 4 == 0 && base + End(b) <= HEAP_LIMIT && End(b) / 4 <= |m|
    requires HeaderIs(m, b, next)
    ensures var m2, c := TakenMemory(m, base, b, r), b.(free := false);
      && SameOutside(m, m2, b.at, End(b)) && HeaderIs(m2, c, next)
      && forall w | 0 <= w < |m| && InPayload(c, w) :: m2[w] == m[w]
  {
    var w := b.at / 4;
    assert 4 * w == b.at;
  }

  lemma CutInTwo(m: seq<u32>, base: nat, b: Block, r: nat, next: nat)
    requires b.size >= r + HEADER + 4 && b.at % 4 == 0 && r % 4 == 0 && base + End(b) <= HEAP_LIMIT && End(b) / 4 <= |m|
    requires HeaderIs(m, b, next)
    ensures var m2, q := TakenMemory(m, base, b, r), b.at + HEADER + r;
      && SameOutside(m, m2, b.at, End(b))
      && HeaderIs(m2, Block(b.at, r, false), base + q) && HeaderIs(m2, Block(q, b.size - r - HEADER, true), next)
      && forall w | 0 <= w < |m| && InPayload(Block(b.at, r, false), w) :: m2[w] == m[w]
  {
    hide TakenMemory, SixWords, SameOutside, InPayload, HeaderIs;
    var m2, q := TakenMemory(m, base, b, r), b.at + HEADER + r;
    var w, v := b.at / 4, q / 4;
    TakenIsSix(m, base, b, r, w, v);
    SixWrites(m, w, v, b.size - r - HEADER, r, base + q);
    SixOutside(m, m2, w, v, b, r);
    HeaderAt(m, b, next, w);
    HeaderAt(m2, Block(b.at, r, false), base + q, w);
    HeaderAt(m2, Block(q, b.size - r - HEADER, true), next, v);
  }

  lemma TakenIsSix(m: seq<u32>, base: nat, b: Block, r: nat, w: nat, v: nat)
    requires b.size >= r + HEADER + 4 && b.at % 4 == 0 && r % 4 == 0 && base + End(b) <= HEAP_LIMIT && End(b) / 4 <= |m|
    requires w == b.at / 4 && v == (b.at + HEADER + r) / 4
    ensures 4 * w == b.at && 4 * v == b.at + HEADER + r && w + 3 <= v && v + 3 <= |m|
    ensures TakenMemory(m, base, b, r) == SixWords(m, w, v, b.size - r - HEADER, r, base + b.at + HEADER + r)
  {
  }

  lemma HeaderAt(m: seq<u32>, b: Block, next: nat, w: nat)
    requires 4 * w == b.at && w + 3 <= |m|
    ensures HeaderIs(m, b, next) <==> m[w] == b.size && m[w + 1] == (if b.free then 1 else 0) && m[w + 2] == next
  {
  }

  lemma SixOutside(m: seq<u32>, m2: seq<u32>, w: nat, v: nat, b: Block, r: nat)
    requires 4 * w == b.at && 4 * v == b.at + HEADER + r && b.size >= r + HEADER + 4 && |m2| == |m|
    requires forall i | 0 <= i < |m| && !(w <= i < w + 3) && !(v <= i < v + 3) :: m2[i] == m[i]
    ensures SameOutside(m, m2, b.at, End(b))
    ensures forall i | 0 <= i < |m| && InPayload(Block(b.at, r, false), i) :: m2[i] == m[i]
  {
  }

  function SixWords(m: seq<u32>, w: nat, v: nat, rest: u32, r: u32, q: u32): (m2: seq<u32>)
    requires w + 3 <= v && v + 3 <= |m|
    ensures |m2| == |m|
  {
    m[v := rest][v + 1 := 1][v + 2 := m[w + 2]][w := r][w + 2 := q][w + 1 := 0]
  }

  lemma SixWrites(m: seq<u32>, w: nat, v: nat, rest: u32, r: u32, q: u32)
    requires w + 3 <= v && v + 3 <= |m|
    ensures var m2 := SixWords(m, w, v, rest, r, q);
      && m2[w] == r && m2[w + 1] == 0 && m2[w + 2] == q && m2[v] == rest && m2[v + 1] == 1 && m2[v + 2] == m[w + 2]
      && forall i | 0 <= i < |m| && !(w <= i < w + 3) && !(v <= i < v + 3) :: m2[i] == m[i]
  {
  }

  lemma TakenStored(m: seq<u32>, base: nat, bs: seq<Block>, extent: nat, r: nat)
    requires Tiles(bs, 0, extent) && Stored(m, base, bs) && FirstFit(bs, r) < |bs| && r % 4 == 0
    requires base + extent <= HEAP_LIMIT <= base + 4 * |m|
    ensures var b := bs[FirstFit(bs, r)];
      && b.at % 4 == 0 && base + End(b) <= HEAP_LIMIT && End(b) / 4 <= |m|
      && Stored(TakenMemory(m, base, b, r), base, Allocated(bs, r))
      && KeepsPayloads(m, TakenMemory(m, base, b, r), Allocated(bs, r))
  {
    hide Tiles, TakenMemory, HeaderIs, KeepsPayloads, InPayload, Cut, SameOutside;
    TilesBounds(bs, 0, extent);
    var k := FirstFit(bs, r);
    assert HeaderIs(m, bs[k], NextOf(base, bs, k));
    CutStored(m, base, bs[k], r, NextOf(base, bs, k));
    var m2 := TakenMemory(m, base, bs[k], r);
    CutStarts(bs[k], r);
    StoredReplaced(m, m2, base, bs, extent, k, k + 1, Cut(bs[k], r));
    FreeStretchKeeps(m, m2, bs, extent, k);
    TakenKeeps(m, m2, bs, r);
  }

  lemma CutStarts(b: Block, r: nat)
    requires b.size >= r
    ensures Cut(b, r) != [] && Cut(b, r)[0].at == b.at
  {
  }

  lemma TakenKeeps(m: seq<u32>, m2: seq<u32>, bs: seq<Block>, r: nat)
    requires FirstFit(bs, r) < |bs| && KeepsPayloads(m, m2, bs)
    requires forall w | 0 <= w < |m| && InPayload(Cut(bs[FirstFit(bs, r)], r)[0], w) :: m2[w] == m[w]
    ensures KeepsPayloads(m, m2, Allocated(bs, r))
  {
    hide Cut, Allocated, FirstFit, InPayload;
    AllocatedUsed(bs, r);
    CutStarts(bs[FirstFit(bs, r)], r);
    var new_ := Cut(bs[FirstFit(bs, r)], r)[0];
    var after := Allocated(bs, r);
    forall w, i | 0 <= w < |m| && 0 <= i < |after| && !after[i].free && InPayload(after[i], w)
      ensures m2[w] == m[w]
    {
      var b := after[i];
      assert b in Used(after);
      if b != new_ { assert b in bs; }
    }
  }

  /** No header lies in a live payload. */
  lemma PayloadWritten(m: seq<u32>, m2: seq<u32>, base: nat, bs: seq<Block>, extent: nat, k: nat, w: nat, v: u32)
    requires Tiles(bs, 0, extent) && Stored(m, base, bs) && k < |bs| && InPayload(bs[k], w)
    requires w < |m| && m2 == m[w := v]
    ensures Stored(m2, base, bs)
  {
    hide Tiles;
    TilesApart(bs, 0, extent);
    TilesBounds(bs, 0, extent);
    forall i | 0 <= i < |bs| ensures HeaderIs(m2, bs[i], NextOf(base, bs, i)) {
      HeaderMissed(m, m2, bs[i], bs[k], NextOf(base, bs, i), w);
    }
  }

  lemma HeaderMissed(m: seq<u32>, m2: seq<u32>, b: Block, c: Block, next: nat, w: nat)
    requires HeaderIs(m, b, next) && b.at % 4 == 0 && InPayload(c, w) && (b == c || End(b) <= c.at || End(c) <= b.at)
    requires |m2| == |m| && forall i | 0 <= i < |m| && i != w :: m2[i] == m[i]
    ensures HeaderIs(m2, b, next)
  {
    assert 4 * (b.at / 4) == b.at;
  }

  // ---------- coalesce ----------

  function Absorbed(bs: seq<Block>, k: nat): seq<Block>
    requires k + 1 < |bs|
  {
    bs[..k] + [Merged(bs[k], bs[k + 1])] + bs[k + 2..]
  }

  lemma CoalescedShort(bs: seq<Block>)
    requires |bs| < 2
    ensures Coalesced(bs) == bs
  {
  }

  lemma SameUsedSelf(bs: seq<Block>)
    ensures SameUsed(bs, bs)
  {
  }

  lemma SameUsedVia(a: seq<Block>, b: seq<Block>, c: seq<Block>)
    requires SameUsed(a, b) && SameUsed(b, c)
    ensures SameUsed(a, c)
  {
  }

  lemma SameUsedSwap(a: seq<Block>, b: seq<Block>)
    requires SameUsed(a, b)
    ensures SameUsed(b, a)
  {
  }

  lemma KeepsSameUsed(m: seq<u32>, m2: seq<u32>, bs: seq<Block>, cs: seq<Block>)
    requires KeepsPayloads(m, m2, bs) && SameUsed(cs, bs)
    ensures KeepsPayloads(m, m2, cs)
  {
    hide InPayload;
    forall w, i | 0 <= w < |m| && 0 <= i < |cs| && !cs[i].free && InPayload(cs[i], w) ensures m2[w] == m[w] {
      assert cs[i] in bs;
    }
  }

  lemma KeepsTransitive(m: seq<u32>, m1: seq<u32>, m2: seq<u32>, bs: seq<Block>)
    requires KeepsPayloads(m, m1, bs) && KeepsPayloads(m1, m2, bs)
    ensures KeepsPayloads(m, m2, bs)
  {
    hide InPayload;
  }

  /** One round of the loop in `coalesce`. */
  lemma CoalescedStep(bs: seq<Block>, k: nat)
    requires k + 1 < |bs|
    ensures bs[k].free && bs[k + 1].free ==>
              bs[..k] + Coalesced(bs[k..]) == Absorbed(bs, k)[..k] + Coalesced(Absorbed(bs, k)[k..])
    ensures !(bs[k].free && bs[k + 1].free) ==> bs[..k] + Coalesced(bs[k..]) == bs[..k + 1] + Coalesced(bs[k + 1..])
  {
    CoalescedHead(bs[k..]);
    hide Coalesced;
    assert bs[k..][2..] == bs[k + 2..] && bs[k..][1..] == bs[k + 1..];
    assert Absorbed(bs, k)[k..] == [Merged(bs[k], bs[k + 1])] + bs[k + 2..];
    assert Absorbed(bs, k)[..k] == bs[..k];
    assert bs[..k + 1] == bs[..k] + [bs[k]];
  }

  lemma CoalescedHead(bs: seq<Block>)
    requires |bs| >= 2
    ensures Coalesced(bs) ==
            if bs[0].free && bs[1].free then Coalesced([Merged(bs[0], bs[1])] + bs[2..]) else [bs[0]] + Coalesced(bs[1..])
  {
  }

  lemma AbsorbedStored(m: seq<u32>, m2: seq<u32>, base: nat, bs: seq<Block>, extent: nat, k: nat)
    requires Tiles(bs, 0, extent) && Stored(m, base, bs) && k + 1 < |bs| && bs[k].free && bs[k + 1].free
    requires bs[k].at / 4 + 3 <= |m| && base + extent < 0x1_0000_0000 && NextOf(base, bs, k + 1) < 0x1_0000_0000
    requires Merged(bs[k], bs[k + 1]).size < 0x1_0000_0000
    requires m2 == m[bs[k].at / 4 := Merged(bs[k], bs[k + 1]).size][bs[k].at / 4 + 2 := NextOf(base, bs, k + 1)]
    ensures Absorbed(bs, k) != [] && Tiles(Absorbed(bs, k), 0, extent) && Stored(m2, base, Absorbed(bs, k))
    ensures SameUsed(Absorbed(bs, k), bs)
    ensures KeepsPayloads(m, m2, bs)
  {
    hide Tiles, HeaderIs, SameOutside, KeepsPayloads, SameUsed;
    TilesBounds(bs, 0, extent);
    TilesNext(bs, 0, extent, k);
    var b := Merged(bs[k], bs[k + 1]);
    HeaderWritten(m, m2, bs[k], bs[k + 1], NextOf(base, bs, k), NextOf(base, bs, k + 1));
    StoredReplaced(m, m2, base, bs, extent, k, k + 2, [b]);
    AbsorbedTiles(bs, extent, k);
    FreeStretchKeeps(m, m2, bs, extent, k);
  }

  lemma HeaderWritten(m: seq<u32>, m2: seq<u32>, b: Block, c: Block, was: nat, next: nat)
    requires HeaderIs(m, b, was) && b.at % 4 == 0 && b.free && c.at == End(b) && Merged(b, c).size < 0x1_0000_0000 && next < 0x1_0000_0000
    requires m2 == m[b.at / 4 := Merged(b, c).size][b.at / 4 + 2 := next]
    ensures HeaderIs(m2, Merged(b, c), next)
    ensures SameOutside(m, m2, b.at, End(c)) && SameOutside(m, m2, b.at, End(b))
  {
    assert 4 * (b.at / 4) == b.at;
  }

  lemma AbsorbedTiles(bs: seq<Block>, extent: nat, k: nat)
    requires Tiles(bs, 0, extent) && k + 1 < |bs| && bs[k].free && bs[k + 1].free
    ensures Tiles(Absorbed(bs, k), 0, extent) && SameUsed(Absorbed(bs, k), bs)
  {
    var a, mid, c := bs[..k], [bs[k], bs[k + 1]], bs[k + 2..];
    var new_ := [Merged(bs[k], bs[k + 1])];
    assert bs == a + mid + c;
    TilesNext(bs, 0, extent, k);
    TilesBounds(bs, 0, extent);
    assert new_[1..] == [];
    TilesSplit(a + mid, c, 0, extent);
    if k > 0 {
      TilesSplit(a, mid, 0, End(bs[k + 1]));
      TilesSplit(a, new_, 0, End(bs[k + 1]));
    } else {
      assert a + mid == mid && a + new_ == new_;
    }
    TilesSplit(a + new_, c, 0, extent);
  }

  lemma FreedStored(m: seq<u32>, m2: seq<u32>, base: nat, bs: seq<Block>, extent: nat, k: nat)
    requires Tiles(bs, 0, extent) && Stored(m, base, bs) && k < |bs| && bs[k].at / 4 + 3 <= |m|
    requires m2 == m[bs[k].at / 4 + 1 := 1]
    ensures Tiles(Freed(bs, k), 0, extent) && Stored(m2, base, Freed(bs, k))
    ensures KeepsPayloads(m, m2, Freed(bs, k))
  {
    hide Tiles, HeaderIs, SameOutside, KeepsPayloads, Stored;
    TilesBounds(bs, 0, extent);
    var b := bs[k].(free := true);
    FreedTiles(bs, extent, k);
    StoredAt(m, base, bs, k);
    assert Freed(bs, k) == bs[..k] + [b] + bs[k + 1..];
    FlagWritten(m, m2, bs[k], NextOf(base, bs, k));
    StoredReplaced(m, m2, base, bs, extent, k, k + 1, [b]);
    HeaderKeeps(m, m2, Freed(bs, k), extent, k);
  }

  lemma FlagWritten(m: seq<u32>, m2: seq<u32>, b: Block, next: nat)
    requires HeaderIs(m, b, next) && b.at % 4 == 0 && m2 == m[b.at / 4 + 1 := 1]
    ensures HeaderIs(m2, b.(free := true), next) && SameOutside(m, m2, b.at, b.at + HEADER) && SameOutside(m, m2, b.at, End(b))
  {
    assert 4 * (b.at / 4) == b.at;
  }

  lemma LiveIsAt(bs: seq<Block>, extent: nat, at: nat)
    requires Tiles(bs, 0, extent) && Live(bs, at)
    ensures Place(bs, at) < |bs| && !bs[Place(bs, at)].free
  {
    hide Tiles;
    TilesApart(bs, 0, extent);
    var b :| b in bs && !b.free && b.at == at;
    var i :| 0 <= i < |bs| && bs[i] == b;
    assert Place(bs, at) == i;
  }

  lemma TotalParts(bs: seq<Block>, k: nat)
    requires k <= |bs|
    ensures k < |bs| ==> Total(bs[k..]) == bs[k].size + Total(bs[k + 1..])
    ensures k < |bs| ==> UsedBytes(bs[k..]) == (if bs[k].free then 0 else bs[k].size) + UsedBytes(bs[k + 1..])
    ensures UsedBytes(bs[k..]) <= Total(bs[k..])
    ensures k < |bs| ==> UsedBytes(bs[k + 1..]) <= Total(bs[k + 1..])
    ensures bs == [] ==> Total(bs) == 0 && UsedBytes(bs) == 0
  {
    UsedAtMost(bs[k..]);
    if k < |bs| {
      assert bs[k..][1..] == bs[k + 1..];
      UsedAtMost(bs[k + 1..]);
    }
  }

  lemma {:induction false} UsedAtMost(bs: seq<Block>)
    ensures UsedBytes(bs) <= Total(bs)
  {
    if bs != [] { UsedAtMost(bs[1..]); }
  }
}
