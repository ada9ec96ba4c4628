/** How an image lies on the volume: which chains are directories, which are files, and where the root is. */
module Mounts {
  import opened Types
  import opened Layout
  import opened Codec
  import opened Chains
  import opened Volumes
  import opened Images

  /** The root array in memory agrees with the root sectors, and every chain is decoded into the image. */
  ghost predicate Mounted(img: Image, root: seq<Dirent>, area: seq<Sector>, c: Content) {
    && 0 in img.dirs && img.dirs[0] == root && Entries(area) == root
    && img.free == c.free
    && 0 !in c.store && img.dirs.Keys !! img.files.Keys
    && c.store.Keys == (img.dirs.Keys - {0}) + img.files.Keys
    && (forall h | h in img.dirs && h != 0 :: img.dirs[h] == Entries(c.store[h]))
    && (forall h | h in img.files :: img.files[h] == c.store[h])
  }

  lemma MountedRootSlot(img: Image, root: seq<Dirent>, area: seq<Sector>, c: Content, k: nat, e: Dirent, area2: seq<Sector>)
    requires Mounted(img, root, area, c) && k < |root| && Entries(area2) == root[k := e]
    ensures Mounted(SetSlot(img, 0, k, e), root[k := e], area2, c)
  {
  }

  lemma MountedSlot(img: Image, root: seq<Dirent>, area: seq<Sector>, c: Content, d: nat, k: nat, e: Dirent)
    requires Mounted(img, root, area, c) && d in img.dirs && d != 0 && k < |img.dirs[d]|
    ensures d in c.store && k / 16 < |c.store[d]|
    ensures var s := WithEntry(c.store[d][k / 16], k % 16, e);
      Mounted(SetSlot(img, d, k, e), root, area, Contents(c.ch, c.store[d := WithSector(c.store[d], k / 16, s)], c.free))
  {
    EntriesUpdate(c.store[d], k / 16, k % 16, e);
  }

  lemma MountedGrown(img: Image, root: seq<Dirent>, area: seq<Sector>, c: Content, d: nat, ch: map<nat, seq<nat>>)
    requires Mounted(img, root, area, c) && d in img.dirs && d != 0 && c.free > 0
    ensures d in c.store
    ensures Mounted(Grown(img, d), root, area, Contents(ch, c.store[d := c.store[d] + [ZERO_SECTOR]], c.free - 1))
  {
    EntriesAppend(c.store[d], ZERO_SECTOR);
    ZeroSectorEntries();
    assert Entries([ZERO_SECTOR]) == FreeSlots();
  }

  lemma MountedNewDir(img: Image, root: seq<Dirent>, area: seq<Sector>, c: Content, h: nat, ch: map<nat, seq<nat>>)
    requires Mounted(img, root, area, c) && h !in c.store && h != 0 && c.free > 0
    ensures Mounted(Image(img.dirs[h := FreeSlots()], img.files, img.free - 1), root, area,
                    Contents(ch, c.store[h := [ZERO_SECTOR]], c.free - 1))
  {
    ZeroSectorEntries();
    assert Entries([ZERO_SECTOR]) == FreeSlots();
  }

  lemma MountedDirGone(img: Image, root: seq<Dirent>, area: seq<Sector>, c: Content, h: nat, ch: map<nat, seq<nat>>, n: nat)
    requires Mounted(img, root, area, c) && h in img.dirs && h != 0
    ensures Mounted(Image(img.dirs - {h}, img.files, img.free + n), root, area, Contents(ch, c.store - {h}, c.free + n))
  {
  }

  lemma MountedFileSet(img: Image, root: seq<Dirent>, area: seq<Sector>, c: Content, h: nat, ss: seq<Sector>,
                       ch: map<nat, seq<nat>>, free: nat)
    requires Mounted(img, root, area, c) && h !in img.dirs && h != 0
    ensures Mounted(Image(img.dirs, img.files[h := ss], free), root, area, Contents(ch, c.store[h := ss], free))
  {
  }

  lemma MountedFileGone(img: Image, root: seq<Dirent>, area: seq<Sector>, c: Content, h: nat, ch: map<nat, seq<nat>>, n: nat)
    requires Mounted(img, root, area, c) && h in img.files
    ensures Mounted(Image(img.dirs, img.files - {h}, img.free + n), root, area, Contents(ch, c.store - {h}, c.free + n))
  {
  }

  /** The eight root sectors, written from the array, read back as the array. */
  lemma RootSaved(root: seq<Dirent>, area: seq<Sector>)
    requires |root| == ROOT_ENTRIES && |area| == ROOT_SECTORS
    requires forall s | 0 <= s < ROOT_SECTORS :: area[s] == SectorOf(root[16 * s..16 * s + 16])
    ensures Entries(area) == root
  {
    hide Decode, Encode, SectorOf;
    forall k | 0 <= k < ROOT_ENTRIES
      ensures Entries(area)[k] == root[k]
    {
      var s := k / 16;
      var es := root[16 * s..16 * s + 16];
      SectorOfThenEntries(es);
      assert Entries([area[s]])[k % 16] == es[k % 16];
    }
  }

  // ---------- space ----------

  /** Clusters of the subdirectories with first cluster below `n`. */
  function SumDirClusters(dirs: map<nat, seq<Dirent>>, n: nat): nat {
    if n == 0 then 0
    else SumDirClusters(dirs, n - 1) + if n - 1 != 0 && n - 1 in dirs then |dirs[n - 1]| / 16 else 0
  }

  /** Clusters that the files and subdirectories of an image occupy. */
  function UsedClusters(img: Image): nat {
    TotalLength(img.files) + SumDirClusters(img.dirs, CLUSTER_LIMIT)
  }

  lemma {:induction false} ChainsAreUsed(img: Image, root: seq<Dirent>, area: seq<Sector>, c: Content, n: nat)
    requires Mounted(img, root, area, c) && c.ch.Keys == c.store.Keys
    requires forall h | h in c.ch :: |c.ch[h]| == |c.store[h]|
    ensures SumLengths(c.ch, n) == SumLengths(img.files, n) + SumDirClusters(img.dirs, n)
  {
    if n > 0 { ChainsAreUsed(img, root, area, c, n - 1); }
  }
}
