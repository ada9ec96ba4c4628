/** The disk: sectors, the two FAT copies and the cluster chains they describe. */
module Volumes {
  import opened Types
  import opened Layout
  import opened Codec
  import opened Chains

  type RootArea = s: seq<Sector> | |s| == 8 witness seq<Sector>(8, i => ZERO_SECTOR)

  /** What lies in front of the tables: boot loader and kernel, and the boot sector of the volume. */
  datatype FrontPart = FrontPart(kernel: seq<Sector>, boot: Sector)

  /** The disk as its readers see it: FAT copy 1 as a table, the rest area by area. */
  datatype View = View(front: FrontPart, fat: Fat, root: RootArea, clusters: DataArea)

  function ViewOf(disk: DiskImage): View {
    View(FrontPart(disk[..BOOT_LBA], disk[BOOT_LBA]), FatOf(disk), RootAreaOf(disk), ClustersOf(disk))
  }

  /** The table is partitioned into the chains of `x`, which hold the sectors of `store`. */
  ghost predicate Holds(v: View, x: Chains, store: Store) {
    Inv(v.fat, x) && Stores(v.clusters, x, store)
  }

  lemma HoldsStarted(v: View, x: Chains, store: Store, c: nat)
    requires Holds(v, x, store) && DataCluster(c) && v.fat[c] == CLUSTER_FREE
    ensures c !in x.ch && c !in store
    ensures Holds(v.(fat := v.fat[c := CLUSTER_EOC]), x.Started(c), store[c := [ClusterAt(v.clusters, c)]])
    ensures FreeCount(v.fat[c := CLUSTER_EOC]) == FreeCount(v.fat) - 1
  {
    InvStarted(v.fat, x, c);
    StoresStarted(v.clusters, x, store, c);
  }

  lemma HoldsLinked(v: View, x: Chains, store: Store, h: nat, c: nat)
    requires Holds(v, x, store) && h in x.ch && c in x.ch && h != c && |x.ch[c]| == 1
    ensures h in store && c in store && DataCluster(c) && DataCluster(x.ch[h][|x.ch[h]| - 1])
    ensures var last := x.ch[h][|x.ch[h]| - 1];
      && Holds(v.(fat := v.fat[last := c]), x.Linked(h, c), (store - {c})[h := store[h] + store[c]])
      && FreeCount(v.fat[last := c]) == FreeCount(v.fat)
  {
    InvLinked(v.fat, x, h, c);
    assert x.ch[c][0] == c && x.ch[c] == [c];
    StoresLinked(v.clusters, x, store, h, c);
  }

  lemma HoldsWritten(v: View, x: Chains, store: Store, h: nat, i: nat, s: Sector)
    requires Holds(v, x, store) && h in x.ch && i < |x.ch[h]|
    ensures h in store && i < |store[h]| && DataCluster(x.ch[h][i])
    ensures Holds(v.(clusters := WithCluster(v.clusters, x.ch[h][i], s)), x, store[h := WithSector(store[h], i, s)])
  {
    StoresWritten(v.clusters, x, store, h, i, s);
  }

  lemma HoldsFreed(v: View, x: Chains, store: Store, h: nat)
    requires Holds(v, x, store) && h in x.ch
    ensures LinksInRange(v.fat) && LinkOk(h)
    ensures Holds(v.(fat := FreeFrom(v.fat, h)), x.Freed(h), store - {h})
    ensures FreeCount(FreeFrom(v.fat, h)) == FreeCount(v.fat) + |x.ch[h]|
  {
    InvFreed(v.fat, x, h);
    PlacedFreed(x, h);
    StoresFreed(v.clusters, x, store, h);
  }

  /** The table with the given cells free. */
  function Cleared(fat: Fat, cells: seq<nat>): (t: Fat)
    ensures |t| == |fat|
  {
    seq(|fat|, c requires 0 <= c < |fat| => if c in cells then CLUSTER_FREE else fat[c])
  }

  /** Taking a cluster and giving it back leaves the table as it was. */
  lemma GivenBack(fat: Fat, c: u16)
    requires DataCluster(c) && fat[c] == CLUSTER_FREE
    ensures Cleared(fat[c := CLUSTER_EOC], [c as nat]) == fat
  {
  }

  lemma FreedIsCleared(v: View, x: Chains, store: Store, h: nat)
    requires Holds(v, x, store) && h in x.ch
    ensures LinksInRange(v.fat) && LinkOk(h) && FreeFrom(v.fat, h) == Cleared(v.fat, x.ch[h])
  {
    InvFreed(v.fat, x, h);
    ChainIsPath(v.fat, x, h);
    assert |x.ch[h]| > 0 && x.ch[h][0] == h;
    FreeFromPath(v.fat, x.ch[h]);
    hide Inv, Stores, FreeFrom;
  }

  lemma HoldsFacts(v: View, x: Chains, store: Store)
    requires Holds(v, x, store)
    ensures store.Keys == x.ch.Keys
    ensures forall h | h in x.ch :: |x.ch[h]| > 0 && x.ch[h][0] == h && |store[h]| == |x.ch[h]| && DataCluster(h)
  {
    InvLinksInRange(v.fat, x);
  }

  lemma HoldsAt(v: View, x: Chains, store: Store, h: nat, i: nat)
    requires Holds(v, x, store) && h in x.ch && i < |x.ch[h]|
    ensures h in store && i < |store[h]| && DataCluster(x.ch[h][i])
    ensures store[h][i] == ClusterAt(v.clusters, x.ch[h][i])
    ensures v.fat[x.ch[h][i]] == LinkAfter(x.ch[h], i)
    ensures i + 1 < |x.ch[h]| ==> DataCluster(x.ch[h][i + 1])
  {
    assert LinkedAt(v.fat, x.ch[h], i);
  }

  /** What the layers above see of the chains: their clusters, their sectors, and the free space. */
  datatype Content = Contents(ch: map<nat, seq<nat>>, store: Store, free: nat)

  /** `prev` is the last cluster of chain `h`, or 0. */
  ghost predicate IsTail(ch: map<nat, seq<nat>>, h: nat, prev: u16) {
    prev != 0 ==> h in ch && |ch[h]| > 0 && ch[h][|ch[h]| - 1] == prev
  }

  ghost predicate Extended(s: Content, h: nat, prev: u16, buf: Sector, c: u16, t: Content) {
    if s.free == 0 then c == 0 && t == s
    else
      && DataCluster(c) && c !in s.ch && c !in s.store
      && t == if prev == 0 || h !in s.ch || h !in s.store
              then Contents(s.ch[c := [c]], s.store[c := [buf]], s.free - 1)
              else Contents(s.ch[h := s.ch[h] + [c]], s.store[h := s.store[h] + [buf]], s.free - 1)
  }

  lemma ExtendedFull(s: Content, h: nat, prev: u16, buf: Sector)
    requires s.free == 0
    ensures Extended(s, h, prev, buf, 0, s)
  {
  }

  lemma HoldsBegun(v: View, x: Chains, store: Store, buf: Sector, c: u16)
    requires Holds(v, x, store) && DataCluster(c) && v.fat[c] == CLUSTER_FREE
    ensures Holds(v.(fat := v.fat[c := CLUSTER_EOC], clusters := WithCluster(v.clusters, c, buf)),
                  x.Started(c), store[c := [buf]])
  {
    hide Holds;
    HoldsStarted(v, x, store, c);
    var st := store[c := [ClusterAt(v.clusters, c)]];
    HoldsWritten(v.(fat := v.fat[c := CLUSTER_EOC]), x.Started(c), st, c, 0, buf);
    assert WithSector(st[c], 0, buf) == [buf];
    assert st[c := [buf]] == store[c := [buf]];
  }

  lemma HoldsContinued(v: View, x: Chains, store: Store, h: nat, prev: u16, buf: Sector, c: u16)
    requires Holds(v, x, store) && h in x.ch && |x.ch[h]| > 0 && x.ch[h][|x.ch[h]| - 1] == prev
    requires DataCluster(c) && v.fat[c] == CLUSTER_FREE
    ensures DataCluster(prev) && h in store
    ensures Holds(v.(fat := v.fat[c := CLUSTER_EOC][prev := c], clusters := WithCluster(v.clusters, c, buf)),
                  x.Started(c).Linked(h, c), store[h := store[h] + [buf]])
    ensures FreeCount(v.fat[c := CLUSTER_EOC][prev := c]) == FreeCount(v.fat[c := CLUSTER_EOC])
  {
    hide Holds, CountFree;
    HoldsFacts(v, x, store);
    HoldsBegun(v, x, store, buf, c);
    HoldsStarted(v, x, store, c);
    var u := v.(fat := v.fat[c := CLUSTER_EOC], clusters := WithCluster(v.clusters, c, buf));
    HoldsLinked(u, x.Started(c), store[c := [buf]], h, c);
    assert (store[c := [buf]] - {c})[h := store[h] + [buf]] == store[h := store[h] + [buf]];
  }

  lemma HoldsExtended(v: View, x: Chains, store: Store, h: nat, prev: u16, buf: Sector, c: u16)
    returns (y: Chains, st: Store)
    requires Holds(v, x, store) && IsTail(x.ch, h, prev) && DataCluster(c) && v.fat[c] == CLUSTER_FREE
    requires FreeCount(v.fat) > 0
    ensures prev < CLUSTER_LIMIT
    ensures var alloc := v.fat[c := CLUSTER_EOC];
            var fat: Fat := if prev == 0 then alloc else alloc[prev := c];
      && Holds(v.(fat := fat, clusters := WithCluster(v.clusters, c, buf)), y, st)
      && Extended(Contents(x.ch, store, FreeCount(v.fat)), h, prev, buf, c, Contents(y.ch, st, FreeCount(fat)))
  {
    hide Holds, CountFree;
    HoldsFacts(v, x, store);
    HoldsStarted(v, x, store, c);
    if prev == 0 {
      HoldsBegun(v, x, store, buf, c);
      y, st := x.Started(c), store[c := [buf]];
    } else {
      HoldsContinued(v, x, store, h, prev, buf, c);
      y, st := x.Started(c).Linked(h, c), store[h := store[h] + [buf]];
      assert y.ch == x.ch[h := x.ch[h] + [c as nat]];
    }
  }

  /** Only the table and the data area matter to the chains. */
  lemma HoldsElsewhere(v: View, w: View, x: Chains, store: Store)
    requires Holds(v, x, store) && w.fat == v.fat && w.clusters == v.clusters
    ensures Holds(w, x, store)
  {
  }

  class Volume {
    const disk: array<Sector>
    ghost var x: Chains
    ghost var store: Store

    /** A drive with the given sectors. */
    constructor (image: array<Sector>)
      requires image.Length == IMAGE_SECTORS
      ensures disk == image
    {
      disk := image;
    }

    ghost predicate Sized()
      reads this
    {
      disk.Length == IMAGE_SECTORS
    }

    ghost function View(): View
      reads this, disk
      requires Sized()
    {
      ViewOf(disk[..])
    }

    ghost predicate Mirror()
      reads this, disk
      requires Sized()
    {
      Mirrored(disk[..])
    }

    ghost predicate Valid()
      reads this, disk
    {
      Sized() && Mirror() && Holds(View(), x, store)
    }

    /** The free clusters, as `fs_debug_stats` counts them. */
    ghost function Free(): nat
      reads this, disk
      requires Sized()
    {
      FreeCount(View().fat)
    }

    ghost function Content(): Content
      reads this, disk
      requires Sized()
    {
      Contents(x.ch, store, Free())
    }

    // ---------- sectors ----------

    method ReadSector(lba: nat) returns (s: Sector)
      requires lba < disk.Length
      ensures s == disk[lba]
    {
      s := disk[lba];
    }

    method WriteSector(lba: nat, s: Sector)
      requires lba < disk.Length
      modifies disk
      ensures disk[..] == old(disk[..])[lba := s]
    {
      disk[lba] := s;
    }

    method ReadCluster(c: u16) returns (s: Sector)
      requires Sized() && DataCluster(c)
      ensures s == ClusterAt(View().clusters, c)
    {
      s := ReadSector(ClusterLba(c));
    }

    method WriteCluster(c: u16, s: Sector)
      requires Sized() && DataCluster(c)
      modifies disk
      ensures View() == old(View()).(clusters := WithCluster(old(View()).clusters, c, s))
      ensures old(Mirror()) ==> Mirror()
    {
      WriteSector(ClusterLba(c), s);
      ClusterStored(old(disk[..]), c, s);
    }

    // ---------- FAT cells ----------

    method FatRead(c: u16) returns (v: u16)
      requires Sized()
      ensures c < FAT_CELLS ==> v == View().fat[c]
    {
      var byteOff := 2 * c;
      var off := byteOff % BYTES_PER_SECTOR;
      assert off % 2 == 0;
      var buf := ReadSector(FAT1_LBA + byteOff / BYTES_PER_SECTOR);
      v := Word(buf[off], buf[off + 1]);
    }

    method FatWrite(c: u16, v: u16)
      requires Sized() && c < FAT_CELLS
      modifies disk
      ensures View() == old(View()).(fat := old(View()).fat[c := v])
      ensures old(Mirror()) ==> Mirror()
    {
      ghost var before := disk[..];
      FatStoreThenRead(before, c, v);
      FatPosition(c);
      var byteOff := 2 * c;
      var sectorIndex := byteOff / BYTES_PER_SECTOR;
      var off := byteOff % BYTES_PER_SECTOR;
      var buf := ReadSector(FAT1_LBA + sectorIndex);
      buf := buf[off := v % 0x100];
      buf := buf[off + 1 := v / 0x100 % 0x100];
      WriteSector(FAT1_LBA + sectorIndex, buf);
      WriteSector(FAT2_LBA + sectorIndex, buf);
      assert disk[..] == FatStored(before, c, v);
    }

    /** First fit; 0 when the disk is full. */
    method FatAlloc() returns (c: u16)
      requires Sized()
      modifies disk
      ensures c == 0 <==> old(Free()) == 0
      ensures c == 0 ==> disk[..] == old(disk[..])
      ensures c != 0 ==> DataCluster(c) && old(View()).fat[c] == CLUSTER_FREE
      ensures c != 0 ==> forall k | DataCluster(k) && k < c :: old(View()).fat[k] != CLUSTER_FREE
      ensures c != 0 ==> View() == old(View()).(fat := old(View()).fat[c := CLUSTER_EOC])
      ensures old(Mirror()) ==> Mirror()
    {
      hide ViewOf, Mirrored;
      c := FIRST_CLUSTER;
      CountFreeBound(View().fat, CLUSTER_LIMIT);
      while c < FIRST_CLUSTER + DATA_CLUSTERS
        invariant FIRST_CLUSTER <= c <= CLUSTER_LIMIT
        invariant disk[..] == old(disk[..]) && View() == old(View()) && Mirror() == old(Mirror())
        invariant forall k | DataCluster(k) && k < c :: View().fat[k] != CLUSTER_FREE
      {
        var v := FatRead(c);
        if v == CLUSTER_FREE {
          FatWrite(c, CLUSTER_EOC);
          return;
        }
        c := c + 1;
      }
      c := 0;
    }

    /** Stops on every table whose links stay in range; FreeFromClearsReachable says what it frees. */
    method FatFreeChain(first: u16)
      requires Sized() && LinksInRange(View().fat) && LinkOk(first)
      modifies disk
      ensures View() == old(View()).(fat := FreeFrom(old(View()).fat, first))
      ensures old(Mirror()) ==> Mirror()
    {
      hide ViewOf, Mirrored;
      var c: u16 := first;
      while c >= FIRST_CLUSTER && c < CLUSTER_EOC_MIN
        invariant Sized() && LinksInRange(View().fat) && LinkOk(c)
        invariant FreeFrom(View().fat, c) == FreeFrom(old(View()).fat, first)
        invariant View() == old(View()).(fat := View().fat)
        invariant old(Mirror()) ==> Mirror()
        decreases CLUSTER_LIMIT - Free(), if Followable(c) then 1 else 0
      {
        var next := FatRead(c);
        CountFreeUpdate(View().fat, c, CLUSTER_FREE, CLUSTER_LIMIT);
        FatWrite(c, CLUSTER_FREE);
        CountFreeBound(View().fat, CLUSTER_LIMIT);
        c := next;
      }
    }

    // ---------- chains ----------

    /** Allocates a cluster, links it after `prev` (the last cluster of chain `h`; 0 for none) and fills it:
        the step by which files and directories grow. 0 when the disk is full. */
    method Extend(prev: u16, buf: Sector, ghost h: nat) returns (c: u16)
      requires Valid() && IsTail(x.ch, h, prev)
      modifies this`x, this`store, disk
      ensures Valid()
      ensures View().front == old(View()).front && View().root == old(View()).root
      ensures Extended(old(Content()), h, prev, buf, c, Content())
      ensures c == 0 ==> disk[..] == old(disk[..])
      ensures c != 0 ==> DataCluster(c) && old(View()).fat[c] == CLUSTER_FREE
      ensures c != 0 && prev == 0 ==> View().fat == old(View()).fat[c := CLUSTER_EOC]
    {
      hide Holds, ViewOf, Mirrored, CountFree, Extended;
      c := FatAlloc();
      if c == 0 {
        ExtendedFull(Content(), h, prev, buf);
        return;
      }
      ghost var y, st := HoldsExtended(old(View()), x, store, h, prev, buf, c);
      if prev != 0 { FatWrite(prev, c); }
      WriteCluster(c, buf);
      x := y;
      store := st;
    }

    /** `fat_free_chain` on the first cluster of a chain. */
    method Release(first: u16)
      requires Valid() && first in x.ch
      modifies this`x, this`store, disk
      ensures Valid()
      ensures View().front == old(View()).front && View().root == old(View()).root
      ensures Content() == old(Contents(x.ch - {first}, store - {first}, Free() + |x.ch[first]|))
      ensures View().fat == Cleared(old(View()).fat, old(x.ch[first]))
    {
      hide Holds, ViewOf, Mirrored, CountFree, FreeFrom, Cleared;
      FreedIsCleared(View(), x, store, first);
      HoldsFreed(View(), x, store, first);
      FatFreeChain(first);
      x := x.Freed(first);
      store := store - {first};
    }

    /** A cluster already on a chain gets new bytes. */
    method Rewrite(c: u16, s: Sector, ghost h: nat, ghost i: nat)
      requires Valid() && h in x.ch && h in store && i < |x.ch[h]| && i < |store[h]| && x.ch[h][i] == c
      modifies this`store, disk
      ensures Valid()
      ensures View().front == old(View()).front && View().root == old(View()).root
      ensures Content() == old(Contents(x.ch, store[h := WithSector(store[h], i, s)], Free()))
      ensures View().fat == old(View()).fat
    {
      hide Holds, ViewOf, Mirrored, CountFree;
      HoldsWritten(View(), x, store, h, i, s);
      WriteCluster(c, s);
      store := store[h := WithSector(store[h], i, s)];
    }

    /** Follows `index` links. The end-of-chain mark comes back when the chain is exactly `index` long,
        0 when it is shorter still. */
    method ClusterAtIndex(first: u16, index: nat) returns (c: u16)
      requires Valid() && first in x.ch
      ensures c == if index < |x.ch[first]| then x.ch[first][index]
                   else if index == |x.ch[first]| then CLUSTER_EOC as nat else 0
    {
      hide Holds, ViewOf, Mirrored;
      HoldsFacts(View(), x, store);
      c := first;
      for i := 0 to index
        invariant i <= |x.ch[first]|
        invariant c == if i < |x.ch[first]| then x.ch[first][i] else CLUSTER_EOC as nat
      {
        if i < |x.ch[first]| { HoldsAt(View(), x, store, first, i); }
        if c < FIRST_CLUSTER || c >= CLUSTER_EOC_MIN { return 0; }
        c := FatRead(c);
      }
    }

    /** The counting loop of `fs_debug_stats`. */
    method CountFreeClusters() returns (n: u32)
      requires Sized()
      ensures n == Free()
    {
      n := 0;
      var c: u16 := FIRST_CLUSTER;
      while c < FIRST_CLUSTER + DATA_CLUSTERS
        invariant FIRST_CLUSTER <= c <= CLUSTER_LIMIT
        invariant n == CountFree(View().fat, c) && n <= c - FIRST_CLUSTER
      {
        var v := FatRead(c);
        if v == CLUSTER_FREE { n := n + 1; }
        c := c + 1;
      }
    }

    // ---------- boot sector, root area, formatting ----------

    method ReadRoot(i: nat) returns (s: Sector)
      requires Sized() && i < ROOT_SECTORS
      ensures s == View().root[i]
    {
      s := ReadSector(ROOT_LBA + i);
    }

    method WriteRoot(i: nat, s: Sector)
      requires Sized() && i < ROOT_SECTORS
      modifies disk
      ensures View() == old(View()).(root := old(View()).root[i := s])
      ensures old(Mirror()) ==> Mirror()
    {
      WriteSector(ROOT_LBA + i, s);
      RootStored(old(disk[..]), i, s);
    }

    method ZeroFats()
      requires Sized()
      modifies disk
      ensures Mirror() && View().front == old(View()).front && View().root == old(View()).root
      ensures forall c | 0 <= c < FAT_CELLS :: View().fat[c] == 0
    {
      for s := 0 to FAT_SECTORS
        invariant forall l | 0 <= l <= BOOT_LBA :: disk[l] == old(disk[l])
        invariant forall l | ROOT_LBA <= l < IMAGE_SECTORS :: disk[l] == old(disk[l])
        invariant forall l | FAT1_LBA <= l < FAT1_LBA + s :: disk[l] == ZERO_SECTOR
        invariant forall l | FAT2_LBA <= l < FAT2_LBA + s :: disk[l] == ZERO_SECTOR
      {
        WriteSector(FAT1_LBA + s, ZERO_SECTOR);
        WriteSector(FAT2_LBA + s, ZERO_SECTOR);
      }
      BlankFat(disk[..]);
      assert RootAreaOf(disk[..]) == old(RootAreaOf(disk[..]));
      assert disk[..BOOT_LBA] == old(disk[..BOOT_LBA]);
    }

    /** Writes the boot sector and two FAT copies in which only the two reserved cells are taken. */
    method Format(boot: Sector)
      requires Sized()
      modifies this`x, this`store, disk
      ensures Valid() && Content() == Contents(map[], map[], DATA_CLUSTERS)
      ensures View().front == old(View()).front.(boot := boot) && View().root == old(View()).root
    {
      hide Holds, ViewOf, Mirrored, CountFree;
      WriteSector(BOOT_LBA, boot);
      BootStored(old(disk[..]), boot);
      ZeroFats();
      BlankHolds(View());
      FatWrite(0, CLUSTER_BAD);
      FatWrite(1, CLUSTER_EOC);
      x := Chains(map[], map[]);
      store := map[];
    }
  }

  lemma BootStored(disk: DiskImage, s: Sector)
    ensures var d: DiskImage := disk[BOOT_LBA := s];
      ViewOf(d).front == ViewOf(disk).front.(boot := s) && ViewOf(d).root == ViewOf(disk).root
  {
    var d: DiskImage := disk[BOOT_LBA := s];
    assert RootAreaOf(d) == RootAreaOf(disk);
  }

  lemma BlankHolds(v: View)
    requires forall c | 0 <= c < FAT_CELLS :: v.fat[c] == 0
    ensures var w := v.(fat := v.fat[0 := CLUSTER_BAD][1 := CLUSTER_EOC]);
      Holds(w, Chains(map[], map[]), map[]) && FreeCount(w.fat) == DATA_CLUSTERS
  {
    CountFreeBound(v.fat[0 := CLUSTER_BAD][1 := CLUSTER_EOC], CLUSTER_LIMIT);
  }

  lemma ClusterStored(disk: DiskImage, c: nat, s: Sector)
    requires DataCluster(c)
    ensures var d: DiskImage := disk[ClusterLba(c) := s];
      && ViewOf(d) == ViewOf(disk).(clusters := WithCluster(ClustersOf(disk), c, s))
      && (Mirrored(disk) ==> Mirrored(d))
  {
    var d: DiskImage := disk[ClusterLba(c) := s];
    assert FatOf(d) == FatOf(disk) by {
      forall k | 0 <= k < FAT_CELLS
        ensures FatCell(d, k) == FatCell(disk, k)
      {
        FatPosition(k);
      }
    }
    assert d[FAT2_LBA..ROOT_LBA] == disk[FAT2_LBA..ROOT_LBA];
    assert d[FAT1_LBA..FAT2_LBA] == disk[FAT1_LBA..FAT2_LBA];
  }

  lemma RootStored(disk: DiskImage, i: nat, s: Sector)
    requires i < ROOT_SECTORS
    ensures var d: DiskImage := disk[ROOT_LBA + i := s];
      && ViewOf(d) == ViewOf(disk).(root := ViewOf(disk).root[i := s])
      && (Mirrored(disk) ==> Mirrored(d))
  {
    var d: DiskImage := disk[ROOT_LBA + i := s];
    assert FatOf(d) == FatOf(disk) by {
      forall k | 0 <= k < FAT_CELLS
        ensures FatCell(d, k) == FatCell(disk, k)
      {
        FatPosition(k);
      }
    }
    assert d[FAT2_LBA..ROOT_LBA] == disk[FAT2_LBA..ROOT_LBA];
    assert d[FAT1_LBA..FAT2_LBA] == disk[FAT1_LBA..FAT2_LBA];
    assert ClustersOf(d) == ClustersOf(disk);
  }

  lemma BlankFat(disk: DiskImage)
    requires forall l | FAT1_LBA <= l < ROOT_LBA :: disk[l] == ZERO_SECTOR
    ensures Mirrored(disk) && forall c | 0 <= c < FAT_CELLS :: FatOf(disk)[c] == 0
  {
    forall c | 0 <= c < FAT_CELLS
      ensures FatCell(disk, c) == 0
    {
      FatPosition(c);
    }
  }
}
