/** Directories: the root array cached in memory, subdirectories read straight off their chains. */
module Directories {
  import opened Types
  import opened Layout
  import opened Codec
  import opened Chains
  import opened Volumes
  import opened Names
  import opened Images
  import opened Mounts

  /** A cursor over the slots of one directory. */
  datatype DirIter = DirIter(dir: DirRef, rootIndex: nat, cluster: u16, inCluster: nat, done: bool)

  /** Where an entry lies: a place in the root array, or a slot of a directory cluster. */
  datatype EntryLoc = EntryLoc(dir: DirRef, rootIndex: nat, cluster: u16, index: nat)

  type ChainMap = map<nat, seq<nat>>

  /** The cursor stands before slot `k`. */
  ghost predicate IterAt(ch: ChainMap, it: DirIter, k: nat) {
    if it.dir.isRoot then it.rootIndex == k <= ROOT_ENTRIES && (it.done ==> k == ROOT_ENTRIES)
    else
      && it.dir.cluster in ch && k <= 16 * |ch[it.dir.cluster]|
      && it.inCluster == k % 16
      && it.cluster == (if k / 16 < |ch[it.dir.cluster]| then ch[it.dir.cluster][k / 16] else CLUSTER_EOC as nat)
      && (it.done ==> k == 16 * |ch[it.dir.cluster]|)
  }

  /** The location is that of slot `k` of directory `d`. */
  ghost predicate LocIs(ch: ChainMap, loc: EntryLoc, d: DirRef, k: nat) {
    && loc.dir == d
    && (if d.isRoot then loc.rootIndex == k < ROOT_ENTRIES
        else && d.cluster in ch && k / 16 < |ch[d.cluster]|
             && loc.cluster == ch[d.cluster][k / 16] && loc.index == k % 16)
  }

  /** The chains of the directories of `img` are the same in both maps, so locations stay good. */
  ghost predicate DirChainsKept(img: Image, ch: ChainMap, ch2: ChainMap) {
    forall h | h in img.dirs && h != 0 && h in ch :: h in ch2 && ch2[h] == ch[h]
  }

  lemma LocKept(img: Image, ch: ChainMap, ch2: ChainMap, loc: EntryLoc, d: DirRef, k: nat)
    requires DirChainsKept(img, ch, ch2) && Present(img, d) && LocIs(ch, loc, d, k)
    ensures LocIs(ch2, loc, d, k)
  {
  }

  /** One cluster more for a file (a new one when `prev` is 0), unless the disk is full. */
  ghost predicate FileGrown(img: Image, first: u16, prev: u16, buf: Sector, c: u16, t: Image) {
    if img.free == 0 then c == 0 && t == img
    else
      && DataCluster(c) && c !in img.dirs && c !in img.files
      && t == if prev == 0 || first !in img.files then Image(img.dirs, img.files[c as nat := [buf]], img.free - 1)
              else Image(img.dirs, img.files[first as nat := img.files[first] + [buf]], img.free - 1)
  }

  /** One cluster more on a file's chain is one sector more in the file. */
  lemma ExtendedIsGrown(img: Image, root: seq<Dirent>, area: seq<Sector>, before: Content, first: u16, prev: u16,
                        buf: Sector, c: u16, after: Content) returns (t: Image)
    requires Mounted(img, root, area, before) && before.ch.Keys == before.store.Keys
    requires IsTail(before.ch, first, prev) && (prev != 0 ==> first in img.files)
    requires Extended(before, first, prev, buf, c, after)
    ensures Mounted(t, root, area, after) && FileGrown(img, first, prev, buf, c, t)
    ensures c != 0 ==> IsTail(after.ch, if prev == 0 then c else first, c)
    ensures DirChainsKept(t, before.ch, after.ch)
  {
    if c == 0 { return img; }
    var h: nat := if prev == 0 then c else first;
    var ss := if prev == 0 then [buf] else img.files[first] + [buf];
    MountedFileSet(img, root, area, before, h, ss, after.ch, img.free - 1);
    t := Image(img.dirs, img.files[h := ss], img.free - 1);
  }

  const NO_LOC := EntryLoc(ROOT, 0, 0, 0)

  class DirStore {
    const vol: Volume
    const root: array<Dirent>
    ghost var img: Image

    /** The root array of the kernel before `fs_init`: zeroed. */
    constructor (v: Volume)
      ensures vol == v && root.Length == ROOT_ENTRIES && fresh(root)
      ensures forall i | 0 <= i < ROOT_ENTRIES :: root[i] == FREE_ENTRY
    {
      vol := v;
      root := new Dirent[ROOT_ENTRIES](i => FREE_ENTRY);
    }

    /** Memory and disk agree with each other and with the image. */
    ghost predicate Valid()
      reads this, root, vol, vol.disk
    {
      vol.Valid() && root.Length == ROOT_ENTRIES && Mounted(img, root[..], vol.View().root, vol.Content())
    }

    /** Boot loader, kernel and boot sector: what no call writes. */
    ghost function Front(): FrontPart
      reads this, vol, vol.disk
    {
      if vol.Sized() then vol.View().front else FrontPart([], ZERO_SECTOR)
    }

    /** The cells of the FAT. */
    ghost function Table(): Fat
      reads this, vol, vol.disk
    {
      if vol.Sized() then vol.View().fat else seq(FAT_CELLS, i => 0)
    }

    lemma RootPresent()
      requires Valid()
      ensures Present(img, ROOT)
    {
    }

    lemma NoRootChain()
      requires Valid()
      ensures 0 !in img.files
    {
    }

    // ---------- directory cursor ----------

    lemma SlotOf(d: nat, k: nat)
      requires Valid() && d in img.dirs && d != 0
      ensures d in vol.x.ch && |img.dirs[d]| == 16 * |vol.x.ch[d]|
      ensures k < |img.dirs[d]| ==>
                && DataCluster(vol.x.ch[d][k / 16])
                && d in vol.store && k / 16 < |vol.store[d]|
                && vol.store[d][k / 16] == ClusterAt(vol.View().clusters, vol.x.ch[d][k / 16])
                && img.dirs[d][k] == EntryAt(vol.store[d][k / 16], k % 16)
                && vol.View().fat[vol.x.ch[d][k / 16]] == LinkAfter(vol.x.ch[d], k / 16)
                && (k / 16 + 1 < |vol.x.ch[d]| ==> DataCluster(vol.x.ch[d][k / 16 + 1]))
    {
      hide Holds, ViewOf, Mirrored, EntryAt;
      HoldsFacts(vol.View(), vol.x, vol.store);
      if k < |img.dirs[d]| { HoldsAt(vol.View(), vol.x, vol.store, d, k / 16); }
    }

    method DirIterStart(dir: DirRef) returns (it: DirIter)
      requires Valid() && Present(img, dir)
      ensures it.dir == dir && !it.done && IterAt(vol.x.ch, it, 0)
    {
      hide Holds, ViewOf, Mirrored;
      HoldsFacts(vol.View(), vol.x, vol.store);
      it := DirIter(dir, 0, if dir.isRoot then 0 else dir.cluster, 0, false);
    }

    /** Yields each slot of the directory once, in order, and then reports the end. */
    method DirIterNext(it: DirIter, ghost k: nat) returns (more: bool, next: DirIter, e: Dirent, loc: EntryLoc)
      requires Valid() && Present(img, it.dir) && IterAt(vol.x.ch, it, k)
      ensures next.dir == it.dir && k <= |img.dirs[Id(it.dir)]|
      ensures more <==> k < |img.dirs[Id(it.dir)]|
      ensures more ==> e == img.dirs[Id(it.dir)][k] && LocIs(vol.x.ch, loc, it.dir, k)
      ensures IterAt(vol.x.ch, next, if more then k + 1 else k)
    {
      hide Holds, ViewOf, Mirrored, EntryAt;
      next := it;
      e := FREE_ENTRY;
      loc := NO_LOC;
      if !it.dir.isRoot { SlotOf(it.dir.cluster, k); }
      if it.done { return false, next, e, loc; }
      if it.dir.isRoot {
        if it.rootIndex >= ROOT_ENTRIES {
          return false, it.(done := true), e, loc;
        }
        e := root[it.rootIndex];
        loc := EntryLoc(it.dir, it.rootIndex, 0, 0);
        return true, it.(rootIndex := it.rootIndex + 1), e, loc;
      }
      if it.cluster < FIRST_CLUSTER || it.cluster >= CLUSTER_EOC_MIN {
        return false, it.(done := true), e, loc;
      }
      var buf := vol.ReadCluster(it.cluster);
      e := EntryAt(buf, it.inCluster);
      loc := EntryLoc(it.dir, 0, it.cluster, it.inCluster);
      if it.inCluster + 1 >= ENTRIES_PER_CLUSTER {
        var c := vol.FatRead(it.cluster);
        assert (k + 1) / 16 == k / 16 + 1 && (k + 1) % 16 == 0;
        next := it.(inCluster := 0, cluster := c);
      } else {
        assert (k + 1) / 16 == k / 16 && (k + 1) % 16 == k % 16 + 1;
        next := it.(inCluster := it.inCluster + 1);
      }
      more := true;
    }

    /** Finds the slot that holds a name, if any does. */
    method DirScan(dir: DirRef, n: FName) returns (found: bool, e: Dirent, loc: EntryLoc)
      requires Valid() && Present(img, dir)
      ensures found <==> Has(img.dirs[Id(dir)], n)
      ensures found ==> var k := Find(img.dirs[Id(dir)], n);
                        e == img.dirs[Id(dir)][k] && LocIs(vol.x.ch, loc, dir, k)
    {
      hide Holds, ViewOf, Mirrored, IterAt, Mounted, LocIs, CountFree;
      var it := DirIterStart(dir);
      ghost var k := 0;
      ghost var slots := img.dirs[Id(dir)];
      var more := true;
      e := FREE_ENTRY;
      loc := NO_LOC;
      while true
        invariant it.dir == dir && k <= |slots| && IterAt(vol.x.ch, it, k)
        invariant Find(slots, n) == FindFrom(slots, n, k)
        decreases |slots| - k
      {
        more, it, e, loc := DirIterNext(it, k);
        if !more { return false, e, loc; }
        if Live(e) && NameOf(e) == n { return true, e, loc; }
        k := k + 1;
      }
    }

    /** Stores an entry: the root array and its sectors, or one slot of a directory cluster. */
    method DirWriteEntry(loc: EntryLoc, e: Dirent, ghost d: DirRef, ghost k: nat)
      requires Valid() && Present(img, d) && LocIs(vol.x.ch, loc, d, k) && k < |img.dirs[Id(d)]|
      modifies this`img, root, vol`store, vol.disk
      ensures Valid() && img == SetSlot(old(img), Id(d), k, e)
      ensures Front() == old(Front()) && Table() == old(Table())
    {
      hide Holds, ViewOf, Mirrored, EntryAt, WithEntry, Mounted;
      if loc.dir.isRoot {
        root[loc.rootIndex] := e;
        RootSave();
        MountedRootSlot(img, old(root[..]), old(vol.View().root), vol.Content(), k, e, vol.View().root);
        img := SetSlot(img, 0, k, e);
        assert root[..] == old(root[..])[k := e];
      } else {
        SlotOf(d.cluster, k);
        MountedSlot(img, root[..], vol.View().root, vol.Content(), d.cluster, k, e);
        var buf := vol.ReadCluster(loc.cluster);
        buf := WithEntry(buf, loc.index, e);
        vol.Rewrite(loc.cluster, buf, d.cluster, k / 16);
        img := SetSlot(img, d.cluster, k, e);
      }
    }

    /** Writes the whole root array back to its eight sectors. */
    method RootSave()
      requires vol.Valid() && root.Length == ROOT_ENTRIES
      modifies vol.disk
      ensures vol.Valid() && vol.Content() == old(vol.Content())
      ensures Front() == old(Front()) && Table() == old(Table())
      ensures Entries(vol.View().root) == root[..]
    {
      hide Holds, ViewOf, Mirrored, SectorOf;
      for s := 0 to ROOT_SECTORS
        invariant vol.Sized() && vol.Mirror()
        invariant vol.View() == old(vol.View()).(root := vol.View().root)
        invariant forall i | 0 <= i < s :: vol.View().root[i] == SectorOf(root[16 * i..16 * i + 16])
      {
        vol.WriteRoot(s, SectorOf(root[16 * s..16 * s + 16]));
      }
      RootSaved(root[..], vol.View().root);
      HoldsElsewhere(old(vol.View()), vol.View(), vol.x, vol.store);
    }

    // ---------- room for a new entry ----------

    /** The search loop of `dir_find_free`: a free slot, or the last cluster of a full directory. */
    method FreeSlotIn(dir: DirRef) returns (found: bool, loc: EntryLoc, last: u16)
      requires Valid() && Present(img, dir)
      ensures found <==> FreeSlot(img.dirs[Id(dir)]) < |img.dirs[Id(dir)]|
      ensures found ==> LocIs(vol.x.ch, loc, dir, FreeSlot(img.dirs[Id(dir)]))
      ensures !found && !dir.isRoot && |img.dirs[Id(dir)]| > 0 ==> LastIs(vol.x.ch, dir, |img.dirs[Id(dir)]| - 1, last)
    {
      hide Holds, ViewOf, Mirrored, IterAt, Mounted, CountFree;
      var it := DirIterStart(dir);
      ghost var k := 0;
      ghost var slots := img.dirs[Id(dir)];
      last := if dir.isRoot then 0 else dir.cluster;
      loc := NO_LOC;
      while true
        invariant it.dir == dir && k <= |slots| && IterAt(vol.x.ch, it, k)
        invariant FreeSlot(slots) == FreeSlotFrom(slots, k)
        invariant !dir.isRoot && k > 0 ==> LastIs(vol.x.ch, dir, k - 1, last)
        decreases |slots| - k
      {
        var more, next, e, l := DirIterNext(it, k);
        it := next;
        if !more { return false, loc, last; }
        if !dir.isRoot { last := l.cluster; }
        if e.name[0] == DIRENT_FREE || e.name[0] == DIRENT_DELETED {
          return true, l, last;
        }
        k := k + 1;
      }
    }

    /** A free slot of the directory; a full subdirectory grows by one cluster, the root cannot. */
    method DirFindFree(dir: DirRef) returns (ok: bool, loc: EntryLoc)
      requires Valid() && Present(img, dir)
      modifies this`img, vol`x, vol`store, vol.disk
      ensures Valid() && Front() == old(Front())
      ensures ok <==> Room(old(img), Id(dir))
      ensures ok <==> HasUnused(old(img).dirs[Id(dir)]) || (!dir.isRoot && old(img).free > 0)
      ensures ok ==> img == if HasUnused(old(img).dirs[Id(dir)]) then old(img)
                            else Image(old(img).dirs[Id(dir) := old(img).dirs[Id(dir)] + FreeSlots()], old(img).files, old(img).free - 1)
      ensures !ok ==> img == old(img) && vol.disk[..] == old(vol.disk[..]) && vol.x.ch == old(vol.x.ch) && Table() == old(Table())
      ensures ok ==> img == WithRoom(old(img), Id(dir)) && LocIs(vol.x.ch, loc, dir, FreeSlot(old(img).dirs[Id(dir)]))
    {
      hide Valid, HasUnused, FreeSlots, LocIs;
      RoomIs(img, Id(dir));
      ok, loc := SlotOrGrow(dir);
    }

    /** The body of `dir_find_free`. */
    method SlotOrGrow(dir: DirRef) returns (ok: bool, loc: EntryLoc)
      requires Valid() && Present(img, dir)
      modifies this`img, vol`x, vol`store, vol.disk
      ensures Valid() && Front() == old(Front())
      ensures ok <==> Room(old(img), Id(dir))
      ensures !ok ==> img == old(img) && vol.disk[..] == old(vol.disk[..]) && vol.x.ch == old(vol.x.ch) && Table() == old(Table())
      ensures ok ==> img == WithRoom(old(img), Id(dir)) && LocIs(vol.x.ch, loc, dir, FreeSlot(old(img).dirs[Id(dir)]))
    {
      hide Holds, ViewOf, Mirrored, IterAt, Mounted, CountFree;
      var last;
      ok, loc, last := FreeSlotIn(dir);
      if ok || dir.isRoot { return ok, loc; }
      SlotOf(dir.cluster, 0);
      HoldsFacts(vol.View(), vol.x, vol.store);
      SlotOf(dir.cluster, |img.dirs[dir.cluster]| - 1);
      var c := ExtendDir(last, dir);
      if c == 0 { return false, loc; }
      return true, EntryLoc(dir, 0, c, 0);
    }

    /** `last` is the cluster that holds slot `k`. */
    static ghost predicate LastIs(ch: ChainMap, d: DirRef, k: nat, last: u16) {
      d.cluster in ch && k / 16 < |ch[d.cluster]| && ch[d.cluster][k / 16] == last
    }

    /** Links a zeroed cluster to the end of a subdirectory. */
    method ExtendDir(last: u16, dir: DirRef) returns (c: u16)
      requires Valid() && Present(img, dir) && !dir.isRoot
      requires dir.cluster in vol.x.ch && |vol.x.ch[dir.cluster]| > 0 && vol.x.ch[dir.cluster][|vol.x.ch[dir.cluster]| - 1] == last
      requires last != 0
      modifies this`img, vol`x, vol`store, vol.disk
      ensures Valid() && Front() == old(Front())
      ensures c == 0 <==> old(img.free) == 0
      ensures c == 0 ==> img == old(img) && vol.disk[..] == old(vol.disk[..]) && vol.x.ch == old(vol.x.ch)
      ensures c != 0 ==> img == Grown(old(img), Id(dir))
      ensures c != 0 ==> vol.x.ch == old(vol.x.ch)[dir.cluster as nat := old(vol.x.ch)[dir.cluster] + [c as nat]]
    {
      hide Holds, ViewOf, Mirrored, CountFree;
      HoldsFacts(vol.View(), vol.x, vol.store);
      ghost var before := vol.Content();
      c := vol.Extend(last, ZERO_SECTOR, dir.cluster);
      if c != 0 {
        MountedGrown(img, root[..], vol.View().root, before, dir.cluster, vol.x.ch);
        img := Grown(img, dir.cluster);
      }
    }

    // ---------- chains of files and directories ----------

    /** `fat_free_chain` on a file's clusters. */
    method ReleaseFile(first: u16)
      requires Valid() && first in img.files
      modifies this`img, vol`x, vol`store, vol.disk
      ensures Valid() && Front() == old(Front())
      ensures img == old(Image(img.dirs, img.files - {first as nat}, img.free + |img.files[first]|))
      ensures first in old(vol.x.ch) && Table() == Cleared(old(Table()), old(vol.x.ch)[first])
      ensures DirChainsKept(img, old(vol.x.ch), vol.x.ch)
    {
      hide Holds, ViewOf, Mirrored, CountFree, Cleared;
      HoldsFacts(vol.View(), vol.x, vol.store);
      MountedFileGone(img, root[..], vol.View().root, vol.Content(), first, vol.x.ch - {first as nat}, |img.files[first]|);
      vol.Release(first);
      img := Image(img.dirs, img.files - {first as nat}, img.free + |img.files[first]|);
    }

    /** ... and on a directory's. */
    method ReleaseDir(first: u16)
      requires Valid() && first in img.dirs && first != 0
      modifies this`img, vol`x, vol`store, vol.disk
      ensures Valid() && Front() == old(Front())
      ensures img == old(Image(img.dirs - {first as nat}, img.files, img.free + |img.dirs[first]| / 16))
      ensures first in old(vol.x.ch) && Table() == Cleared(old(Table()), old(vol.x.ch)[first])
      ensures DirChainsKept(img, old(vol.x.ch), vol.x.ch)
    {
      hide Holds, ViewOf, Mirrored, CountFree, Cleared;
      HoldsFacts(vol.View(), vol.x, vol.store);
      SlotOf(first, 0);
      MountedDirGone(img, root[..], vol.View().root, vol.Content(), first, vol.x.ch - {first as nat}, |img.dirs[first]| / 16);
      vol.Release(first);
      img := Image(img.dirs - {first as nat}, img.files, img.free + |img.dirs[first]| / 16);
    }

    /** One more filled cluster for the file that ends in `prev`, or for a new file when `prev` is 0. */
    method ExtendFile(prev: u16, buf: Sector, first: u16) returns (c: u16)
      requires Valid() && IsTail(vol.x.ch, first, prev) && (prev != 0 ==> first in img.files)
      modifies this`img, vol`x, vol`store, vol.disk
      ensures Valid() && Front() == old(Front())
      ensures FileGrown(old(img), first, prev, buf, c, img)
      ensures c != 0 ==> IsTail(vol.x.ch, if prev == 0 then c else first, c)
      ensures DirChainsKept(img, old(vol.x.ch), vol.x.ch)
    {
      hide Holds, ViewOf, Mirrored, CountFree, Mounted, Extended, FileGrown, DirChainsKept;
      HoldsFacts(vol.View(), vol.x, vol.store);
      ghost var before := vol.Content();
      c := vol.Extend(prev, buf, first);
      img := ExtendedIsGrown(img, root[..], vol.View().root, before, first, prev, buf, c, vol.Content());
    }

    /** A zeroed cluster that starts a directory of its own. */
    method NewDir() returns (c: u16)
      requires Valid()
      modifies this`img, vol`x, vol`store, vol.disk
      ensures Valid() && Front() == old(Front())
      ensures c == 0 <==> old(img.free) == 0
      ensures c == 0 ==> img == old(img) && vol.x.ch == old(vol.x.ch) && vol.disk[..] == old(vol.disk[..])
      ensures c != 0 ==> DataCluster(c) && old(Table())[c] == CLUSTER_FREE && Table() == old(Table())[c := CLUSTER_EOC]
      ensures c != 0 ==> DataCluster(c) && c !in old(img).dirs && c !in old(img).files
      ensures c != 0 ==> img == Image(old(img).dirs[c as nat := FreeSlots()], old(img).files, old(img).free - 1)
      ensures c != 0 ==> vol.x.ch == old(vol.x.ch)[c as nat := [c as nat]]
    {
      hide Holds, ViewOf, Mirrored, CountFree;
      ghost var before := vol.Content();
      c := vol.Extend(0, ZERO_SECTOR, 0);
      if c != 0 {
        MountedNewDir(img, root[..], vol.View().root, before, c, vol.x.ch);
        img := Image(img.dirs[c as nat := FreeSlots()], img.files, img.free - 1);
      }
    }

    /** The first two slots of a fresh directory, where "." and ".." go. */
    lemma FirstSlots(c: u16)
      requires Valid() && c in img.dirs && c != 0 && |img.dirs[c]| == 16
      requires c in vol.x.ch && vol.x.ch[c] == [c as nat]
      ensures LocIs(vol.x.ch, EntryLoc(DirRef(false, c), 0, c, 0), DirRef(false, c), 0)
      ensures LocIs(vol.x.ch, EntryLoc(DirRef(false, c), 0, c, 1), DirRef(false, c), 1)
    {
    }

    lemma FileAt(first: nat, i: nat)
      requires Valid() && first in img.files
      ensures first in vol.x.ch && |vol.x.ch[first]| == |img.files[first]| && |img.files[first]| > 0 && vol.x.ch[first][0] == first
      ensures i < |img.files[first]| ==>
                && DataCluster(vol.x.ch[first][i])
                && img.files[first][i] == ClusterAt(vol.View().clusters, vol.x.ch[first][i])
                && vol.View().fat[vol.x.ch[first][i]] == LinkAfter(vol.x.ch[first], i)
                && first in vol.store && vol.store[first] == img.files[first]
    {
      hide Holds, ViewOf, Mirrored;
      HoldsFacts(vol.View(), vol.x, vol.store);
      if i < |img.files[first]| { HoldsAt(vol.View(), vol.x, vol.store, first, i); }
    }

    /** A file together with all free clusters fits the data area. */
    lemma Capacity(first: nat)
      requires Valid()
      ensures img.free <= DATA_CLUSTERS
      ensures first in img.files ==> |img.files[first]| + img.free <= DATA_CLUSTERS
    {
      hide ViewOf, Mirrored, Inv, Stores;
      CountFreeBound(vol.View().fat, CLUSTER_LIMIT);
      if first in img.files {
        FileAt(first, 0);
        ChainFits(vol.View().fat, vol.x, first);
      }
    }

    /** `cluster_at_index` inside a file. */
    method FileCluster(first: u16, index: nat) returns (c: u16)
      requires Valid() && first in img.files && index < |img.files[first]|
      ensures DataCluster(c) && first in vol.x.ch && index < |vol.x.ch[first]| && vol.x.ch[first][index] == c
      ensures index == |img.files[first]| - 1 ==> IsTail(vol.x.ch, first, c)
    {
      hide Holds, ViewOf, Mirrored, Mounted;
      FileAt(first, index);
      c := vol.ClusterAtIndex(first, index);
    }

    /** The sector of a file cluster and the link behind it. */
    method ReadFile(c: u16, ghost first: nat, ghost i: nat) returns (s: Sector, next: u16)
      requires Valid() && first in img.files && i < |img.files[first]|
      requires first in vol.x.ch && i < |vol.x.ch[first]| && vol.x.ch[first][i] == c
      ensures s == img.files[first][i] && next == LinkAfter(vol.x.ch[first], i)
    {
      hide Holds, ViewOf, Mirrored, Mounted;
      FileAt(first, i);
      s := vol.ReadCluster(c);
      next := vol.FatRead(c);
    }

    /** A cluster of a file gets new bytes. */
    method RewriteFile(c: u16, s: Sector, ghost first: nat, ghost i: nat)
      requires Valid() && first in img.files && i < |img.files[first]|
      requires first in vol.x.ch && i < |vol.x.ch[first]| && vol.x.ch[first][i] == c
      modifies this`img, vol`store, vol.disk
      ensures Valid() && Front() == old(Front())
      ensures img == Image(old(img).dirs, old(img).files[first := WithSector(old(img).files[first], i, s)], old(img).free)
    {
      hide Holds, ViewOf, Mirrored, CountFree;
      FileAt(first, i);
      MountedFileSet(img, root[..], vol.View().root, vol.Content(), first, WithSector(img.files[first], i, s), vol.x.ch, img.free);
      vol.Rewrite(c, s, first, i);
      img := Image(img.dirs, img.files[first := WithSector(img.files[first], i, s)], img.free);
    }

    /** Free clusters and the clusters of live files and directories make up the data area. */
    lemma SpaceBalance()
      requires Valid()
      ensures img.free + UsedClusters(img) == DATA_CLUSTERS
    {
      hide ViewOf, Mirrored, Inv, Stores, Mounted;
      HoldsFacts(vol.View(), vol.x, vol.store);
      SpaceIsConserved(vol.View().fat, vol.x);
      ChainsAreUsed(img, root[..], vol.View().root, vol.Content(), CLUSTER_LIMIT);
      FreeIsContent();
    }

    lemma FreeIsContent()
      requires Valid()
      ensures img.free == vol.Free()
    {
      hide ViewOf, Mirrored, Holds;
    }

    /** The counts of `fs_debug_stats`. */
    method Stats() returns (rootUsed: nat, freeClusters: u32, total: u32)
      requires Valid() && 0 in img.dirs && |img.dirs[0]| == ROOT_ENTRIES
      ensures rootUsed == |set i: nat | i < ROOT_ENTRIES && !Unused(img.dirs[0][i])|
      ensures freeClusters == img.free && total == DATA_CLUSTERS
    {
      hide ViewOf, Mirrored, Holds, CountFree;
      rootUsed := 0;
      RootIsSlots();
      for i := 0 to ROOT_ENTRIES
        invariant rootUsed == CountLive(img.dirs[0], i)
      {
        if Live(root[i]) { rootUsed := rootUsed + 1; }
      }
      CountLiveIs(img.dirs[0], ROOT_ENTRIES);
      FreeIsContent();
      freeClusters := vol.CountFreeClusters();
      total := DATA_CLUSTERS;
    }

    lemma RootIsSlots()
      requires Valid()
      ensures 0 in img.dirs && img.dirs[0] == root[..] && |img.dirs[0]| == ROOT_ENTRIES
    {
    }

    // ---------- mounting ----------

    /** The disk holds the image, whatever is in memory. */
    ghost predicate OnDisk()
      reads this, vol, vol.disk
    {
      vol.Valid() && root.Length == ROOT_ENTRIES && Mounted(img, Entries(vol.View().root), vol.View().root, vol.Content())
    }

    lemma ValidIsOnDisk()
      requires Valid()
      ensures OnDisk()
    {
    }

    lemma SizedIfValid()
      requires Valid()
      ensures vol.Sized() && root.Length == ROOT_ENTRIES
    {
    }

    /** With the root area in the cache, memory agrees with the volume on the disk. */
    lemma LoadedIsValid()
      requires OnDisk() && root[..] == Entries(vol.View().root)
      ensures Valid()
    {
    }

    /** `root_load`: whatever is in the root area comes into the cache. */
    method RootLoad()
      requires vol.Sized() && root.Length == ROOT_ENTRIES
      modifies root
      ensures root[..] == Entries(vol.View().root)
    {
      hide Holds, ViewOf, Mirrored, CountFree, EntryAt, Mounted;
      for s := 0 to ROOT_SECTORS
        invariant forall i | 0 <= i < 16 * s :: root[i] == Entries(vol.View().root)[i]
      {
        var buf := vol.ReadRoot(s);
        for k := 0 to 16
          invariant forall i | 0 <= i < 16 * s + k :: root[i] == Entries(vol.View().root)[i]
        {
          assert (16 * s + k) / 16 == s && (16 * s + k) % 16 == k;
          root[16 * s + k] := EntryAt(buf, k);
        }
      }
      assert root[..] == Entries(vol.View().root);
    }

    /** The formatting branch of `fs_init`: empty tables and an empty root, in memory and on disk. */
    method Format(boot: Sector)
      requires vol.Sized() && root.Length == ROOT_ENTRIES
      modifies this`img, root, vol`x, vol`store, vol.disk
      ensures Valid() && Front() == old(Front()).(boot := boot)
      ensures img == Image(map[0 := root[..]], map[], DATA_CLUSTERS)
      ensures forall i | 0 <= i < ROOT_ENTRIES :: root[i].name[0] == DIRENT_FREE
    {
      hide Holds, ViewOf, Mirrored, CountFree;
      vol.Format(boot);
      for i := 0 to ROOT_ENTRIES
        invariant vol.Valid() && vol.Content() == Contents(map[], map[], DATA_CLUSTERS)
        invariant vol.View().front == old(Front()).(boot := boot)
        invariant forall j | 0 <= j < i :: root[j].name[0] == DIRENT_FREE
      {
        root[i] := root[i].(name := root[i].name[0 := DIRENT_FREE], first := 0, size := 0);
      }
      RootSave();
      img := Image(map[0 := root[..]], map[], DATA_CLUSTERS);
    }
  }
}
