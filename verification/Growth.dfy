/** The allocation loops of `fs_write` and `fs_append`: what a number of rounds adds to a file. */
module Growth {
  import opened Types
  import opened Layout
  import opened Codec
  import opened Images
  import opened Soundness
  import opened Calls
  import opened Sectors
  import opened Directories

  function SectorsAt(img: Image, first: u16): seq<Sector> {
    if first in img.files then img.files[first] else []
  }

  /** `n` more clusters, filled from `data[from..]`, stand at the end of the file that starts at `first`
      (0 for a file without clusters, which then starts at `first2`). */
  ghost predicate Grew(img: Image, first: u16, data: seq<byte>, from: nat, n: nat, first2: u16, t: Image)
    requires from <= |data|
  {
    if n == 0 then first2 == first && t == img
    else
      && n <= img.free && first2 != 0 && first2 in t.files
      && (if first != 0 then first2 == first else DataCluster(first2) && first2 !in img.dirs && first2 !in img.files)
      && t == Image(img.dirs, img.files[first2 as nat := t.files[first2]], img.free - n)
      && Tail(SectorsAt(img, first), t.files[first2], data, from, n)
  }

  /** `after` is `before` and `n` sectors that begin with what is left of `data`. */
  ghost predicate Tail(before: seq<Sector>, after: seq<Sector>, data: seq<byte>, from: nat, n: nat)
    requires from <= |data|
  {
    && |after| == |before| + n && after[..|before|] == before
    && Flatten(after[|before|..])[..Taken(data, from, n)] == data[from..from + Taken(data, from, n)]
  }

  function Taken(data: seq<byte>, from: nat, n: nat): (r: nat)
    requires from <= |data|
    ensures r <= 512 * n && r <= |data| - from
  {
    Min(512 * n, |data| - from)
  }

  lemma TailNone(before: seq<Sector>, data: seq<byte>, from: nat)
    requires from <= |data|
    ensures Tail(before, before, data, from, 0)
  {
  }

  lemma TailStep(before: seq<Sector>, after: seq<Sector>, data: seq<byte>, from: nat, n: nat, s: Sector, chunk: nat)
    requires from + 512 * n < |data| && Tail(before, after, data, from, n)
    requires chunk == Min(512, |data| - from - 512 * n)
    requires s[..chunk] == data[from + 512 * n..from + 512 * n + chunk]
    ensures Tail(before, after + [s], data, from, n + 1)
  {
    var added := after[|before|..];
    assert (after + [s])[|before|..] == added + [s];
    FlattenAppend(added, s);
    var w := from + 512 * n;
    assert Taken(data, from, n) == 512 * n && Taken(data, from, n + 1) == 512 * n + chunk;
    assert Flatten(added) == data[from..w];
    assert (Flatten(added) + s)[..512 * n + chunk] == Flatten(added) + s[..chunk];
    assert data[from..w] + data[w..w + chunk] == data[from..w + chunk];
  }

  /** One more round. */
  lemma GrewStep(img: Image, first: u16, data: seq<byte>, from: nat, n: nat, first1: u16, mid: Image,
                 prev: u16, c: u16, s: Sector, chunk: nat, t: Image)
    requires from + 512 * n < |data| && Grew(img, first, data, from, n, first1, mid)
    requires mid.free > 0
    requires first != 0 ==> first in img.files
    requires chunk == Min(512, |data| - from - 512 * n)
    requires s[..chunk] == data[from + 512 * n..from + 512 * n + chunk]
    requires FileGrown(mid, first1, prev, s, c, t) && (first1 == 0 <==> prev == 0) && (first1 != 0 ==> first1 in mid.files)
    requires 0 !in img.files
    ensures Grew(img, first, data, from, n + 1, if first1 == 0 then c else first1, t)
  {
    var before := SectorsAt(img, first);
    if n == 0 { TailNone(before, data, from); }
    var after := SectorsAt(mid, first1);
    hide Tail;
    TailStep(before, after, data, from, n, s, chunk);
    assert [] + [s] == [s];
  }

  /** A file written from nothing, all of it: its clusters hold the data and are as many as it needs. */
  lemma GrewAll(data: seq<byte>, n: nat, after: seq<Sector>)
    requires Tail([], after, data, 0, n) && n == SectorsFor(|data|)
    ensures FileHolds(after, data)
  {
    SectorsForBounds(|data|);
    assert after[0..] == after && data[0..|data|] == data;
  }

  /** A file whose clusters were full, and then grew. */
  lemma GrewMore(before: seq<Sector>, after: seq<Sector>, data: seq<byte>, from: nat, n: nat, was: seq<byte>)
    requires from <= |data| && Tail(before, after, data, from, n)
    requires Flatten(before) == was && (n > 0 ==> from + 512 * (n - 1) < |data|)
    ensures FileHolds(after, was + data[from..from + Taken(data, from, n)])
  {
    var w := Taken(data, from, n);
    var added := after[|before|..];
    assert after == before + added;
    FlattenConcat(before, added);
    var all := was + data[from..from + w];
    assert |all| == 512 * |before| + w;
    SectorsForIs(|all|, |after|);
    assert Flatten(after)[..|all|] == was + Flatten(added)[..w];
  }

  // ---------- overwriting ----------

  /** The volume once the clusters of an entry are free again. */
  function WithoutFile(img: Image, e: Dirent): Image {
    Image(img.dirs, img.files - {e.first as nat}, img.free + SectorsOf(img, e))
  }

  /** All clusters were there. */
  lemma OverwriteDone(img: Image, d: nat, k: nat, data: seq<byte>, first: u16, mid: Image, e: Dirent)
    requires d in img.dirs && k < |img.dirs[d]| && |data| < 0x1_0000_0000 && 0 !in img.files
    requires Live(img.dirs[d][k]) && SectorsFor32(|data|) <= WithoutFile(img, img.dirs[d][k]).free
    requires Grew(WithoutFile(img, img.dirs[d][k]), 0, data, 0, SectorsFor32(|data|), first, mid)
    requires e == img.dirs[d][k].(first := first, size := |data|)
    ensures d in mid.dirs && k < |mid.dirs[d]| && Overwritten(img, d, k, data, true, SetSlot(mid, d, k, e))
  {
    SectorsFor32IsRight(|data|);
    if SectorsFor32(|data|) > 0 {
      GrewAll(data, SectorsFor32(|data|), mid.files[first]);
    }
    hide Tail, FileHolds, SectorsFor32;
  }

  /** The disk ran full; what had been taken was given back. */
  lemma OverwriteFailed(img: Image, d: nat, k: nat, data: seq<byte>, e: Dirent)
    requires d in img.dirs && k < |img.dirs[d]| && |data| < 0x1_0000_0000 && 0 !in img.files
    requires Live(img.dirs[d][k]) && SectorsFor32(|data|) > WithoutFile(img, img.dirs[d][k]).free
    requires e == img.dirs[d][k].(first := 0, size := 0)
    ensures Overwritten(img, d, k, data, false, SetSlot(WithoutFile(img, img.dirs[d][k]), d, k, e))
  {
    hide FileHolds, SectorsFor32;
  }

  /** Giving back what a failed loop had added. */
  lemma GrewUndone(img: Image, data: seq<byte>, n: nat, first: u16, mid: Image)
    requires Grew(img, 0, data, 0, n, first, mid) && 0 !in img.files
    ensures first == 0 ==> mid == img
    ensures first != 0 ==> first in mid.files && WithoutChain(mid, first) == img
  {
    if n > 0 {
      assert mid.files - {first as nat} == img.files;
    }
  }

  function WithoutChain(img: Image, first: u16): Image
    requires first in img.files
  {
    Image(img.dirs, img.files - {first as nat}, img.free + |img.files[first]|)
  }

  // ---------- appending ----------

  /** The slack of the last cluster has taken what it can. */
  ghost predicate SlackFilled(before: seq<Sector>, size: nat, extra: seq<byte>, after: seq<Sector>, written: nat)
    requires |before| == SectorsFor(size) && size <= 512 * |before|
  {
    && |after| == |before| && written == Min(|extra|, 512 * |before| - size)
    && Flatten(after)[..size + written] == Flatten(before)[..size] + extra[..written]
  }

  lemma NoSlack(before: seq<Sector>, size: nat, extra: seq<byte>)
    requires |before| == SectorsFor(size) && size % 512 == 0
    ensures size == 512 * |before| && SlackFilled(before, size, extra, before, 0)
  {
    assert extra[..0] == [];
  }

  lemma FillSlack(before: seq<Sector>, size: nat, extra: seq<byte>, s: Sector, chunk: nat)
    requires |before| == SectorsFor(size) && size % 512 != 0
    requires chunk == Min(|extra|, 512 - size % 512)
    requires var last := before[|before| - 1];
      s == last[..size % 512] + extra[..chunk] + last[size % 512 + chunk..]
    ensures size <= 512 * |before| && (size - 1) / 512 == |before| - 1
    ensures SlackFilled(before, size, extra, before[|before| - 1 := s], chunk)
  {
    var n, off := |before| - 1, size % 512;
    SectorsForBounds(size);
    assert size == 512 * n + off;
    FlattenLast(before, s);
    FlattenAt(before, n);
    hide Flatten;
    SlackBytes(Flatten(before), 512 * n, before[n], s, off, extra, chunk);
  }

  lemma SlackBytes(all: seq<byte>, from: nat, last: Sector, s: Sector, off: nat, extra: seq<byte>, chunk: nat)
    requires |all| == from + 512 && all[from..from + 512] == last && off < 512 && chunk <= |extra| && off + chunk <= 512
    requires s == last[..off] + extra[..chunk] + last[off + chunk..]
    ensures (all[..from] + s)[..from + off + chunk] == all[..from + off] + extra[..chunk]
  {
    assert all[..from + off] == all[..from] + last[..off] by {
      assert all[from..from + 512][..off] == all[from..from + off];
    }
    assert (all[..from] + s)[..from + off + chunk] == all[..from] + s[..off + chunk];
    assert s[..off + chunk] == last[..off] + extra[..chunk];
  }

  /** After the slack step, what the loop added completes the append. */
  lemma ExtendDone(img: Image, d: nat, k: nat, extra: seq<byte>, one: Image, written: nat,
                   n: nat, first2: u16, two: Image, ok: bool, e: Dirent)
    requires d in img.dirs && k < |img.dirs[d]| && 0 !in img.files && Live(img.dirs[d][k])
    requires var was := img.dirs[d][k];
      && (was.size == 0 <==> was.first == 0)
      && (was.first != 0 ==> was.first in img.files && DataCluster(was.first) && was.first !in img.dirs)
      && |SectorsAt(img, was.first)| == SectorsFor(was.size) && was.size <= 512 * |SectorsAt(img, was.first)|
      && SlackFilled(SectorsAt(img, was.first), was.size, extra, SectorsAt(one, was.first), written)
      && (if was.first == 0 then one == img
          else one == Image(img.dirs, img.files[was.first as nat := SectorsAt(one, was.first)], img.free))
      && Grew(one, was.first, extra, written, n, first2, two)
      && n == Min(SectorsFor(|extra| - written), img.free)
      && (ok <==> SectorsFor(|extra| - written) <= img.free)
      && was.size + written + Taken(extra, written, n) < 0x1_0000_0000
      && e == was.(first := first2, size := was.size + written + Taken(extra, written, n))
    ensures d in two.dirs && k < |two.dirs[d]| && FileExtended(img, d, k, extra, ok, SetSlot(two, d, k, e))
  {
    hide Tail, FileHolds, SlackFilled, SectorsFor, Flatten, FileBytes, Taken;
    var was := img.dirs[d][k];
    var total := written + Taken(extra, written, n);
    SlackAmount(SectorsAt(img, was.first), was.size, extra, SectorsAt(one, was.first), written);
    ExtendTotalsTaken(extra, written, n);
    ExtendTotals(|SectorsAt(img, was.first)|, was.size, |extra|, img.free, written, n, total);
    if e.first != 0 { ExtendedHolds(img, was, extra, one, written, n, two, first2, total); }
    assert FileChange(img, d, k, e, SetSlot(two, d, k, e));
  }

  lemma SlackAmount(before: seq<Sector>, size: nat, extra: seq<byte>, after: seq<Sector>, written: nat)
    requires |before| == SectorsFor(size) && size <= 512 * |before| && SlackFilled(before, size, extra, after, written)
    ensures written == Min(|extra|, 512 * |before| - size) && |after| == |before|
  {
  }

  lemma ExtendTotalsTaken(extra: seq<byte>, written: nat, n: nat)
    requires written <= |extra|
    ensures Taken(extra, written, n) == Min(512 * n, |extra| - written)
  {
  }

  lemma ExtendTotals(len: nat, size: nat, extra: nat, free: nat, written: nat, n: nat, total: nat)
    requires len == SectorsFor(size) && size <= 512 * len
    requires written == Min(extra, 512 * len - size)
    requires n == Min(SectorsFor(extra - written), free) && total == written + Min(512 * n, extra - written)
    ensures var room := 512 * len - size + 512 * free;
      && (SectorsFor(extra - written) <= free <==> extra <= room)
      && total == (if extra <= room then extra else room)
      && len + n == SectorsFor(size + total)
  {
    SectorsForBounds(extra - written);
    SectorsForBounds(size);
    SectorsForIs(size + total, len + n);
  }

  lemma ExtendedHolds(img: Image, was: Dirent, extra: seq<byte>, one: Image, written: nat, n: nat, two: Image, first2: u16, total: nat)
    requires |SectorsAt(img, was.first)| == SectorsFor(was.size) && was.size <= 512 * |SectorsAt(img, was.first)|
    requires SlackFilled(SectorsAt(img, was.first), was.size, extra, SectorsAt(one, was.first), written)
    requires was.first != 0 ==> was.first in img.files && was.first in one.files
    requires was.first == 0 ==> was.size == 0 && one == img
    requires 0 !in img.files && first2 != 0
    requires Grew(one, was.first, extra, written, n, first2, two)
    requires n <= SectorsFor(|extra| - written) && total == written + Taken(extra, written, n)
    requires |SectorsAt(img, was.first)| + n == SectorsFor(was.size + total)
    ensures first2 in two.files && FileHolds(two.files[first2], FileBytes(img, was) + extra[..total])
  {
    var before, mid := SectorsAt(img, was.first), SectorsAt(one, was.first);
    var bytes := FileBytes(img, was);
    assert bytes == Flatten(before)[..was.size];
    hide Flatten, Tail, FileBytes;
    if n == 0 {
      assert total == written && two == one;
    } else {
      SectorsForBounds(|extra| - written);
      assert written == 512 * |before| - was.size;
      GrewMore(mid, two.files[first2], extra, written, n, bytes + extra[..written]);
      assert bytes + extra[..written] + extra[written..total] == bytes + extra[..total];
    }
  }
}
