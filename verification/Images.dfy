/** The volume one level up: directories as slot arrays, files as sector lists, and when they fit together. */
module Images {
  import opened Types
  import opened Layout
  import opened Codec
  import opened Names

  const DIRENT_FREE: byte := 0x00
  const DIRENT_DELETED: byte := 0xE5
  const ATTR_NORMAL: byte := 0x20
  const ATTR_DIRECTORY: byte := 0x10

  const DOT_NAME := FName([DOT, SPACE, SPACE, SPACE, SPACE, SPACE, SPACE, SPACE], [SPACE, SPACE, SPACE])
  const DOTDOT_NAME := FName([DOT, DOT, SPACE, SPACE, SPACE, SPACE, SPACE, SPACE], [SPACE, SPACE, SPACE])

  /** What a zeroed directory cluster holds. */
  function FreeSlots(): (s: seq<Dirent>)
    ensures |s| == 16 && forall k | 0 <= k < 16 :: s[k] == FREE_ENTRY
  {
    seq<Dirent>(16, i => FREE_ENTRY)
  }

  predicate Live(e: Dirent) { e.name[0] != DIRENT_FREE && e.name[0] != DIRENT_DELETED }

  /** `attr & FS_ATTR_DIRECTORY`. */
  predicate IsDir(e: Dirent) { e.attr / 0x10 % 2 == 1 }

  lemma IsDirIsBit(e: Dirent)
    ensures IsDir(e) <==> (e.attr as bv8) & 0x10 != 0
  {
  }

  function NameOf(e: Dirent): FName { FName(e.name, e.ext) }

  predicate Matches(e: Dirent, n: FName) { Live(e) && NameOf(e) == n }

  /** The first slot from `k` on that holds `n`; the number of slots when there is none. */
  function FindFrom(slots: seq<Dirent>, n: FName, k: nat): (r: nat)
    requires k <= |slots|
    ensures k <= r <= |slots|
    ensures r < |slots| ==> Matches(slots[r], n)
    ensures forall j | k <= j < r :: !Matches(slots[j], n)
    decreases |slots| - k
  {
    if k == |slots| || Matches(slots[k], n) then k else FindFrom(slots, n, k + 1)
  }

  function Find(slots: seq<Dirent>, n: FName): nat { FindFrom(slots, n, 0) }

  predicate Has(slots: seq<Dirent>, n: FName) { Find(slots, n) < |slots| }

  /** The first slot from `k` on that is free or deleted. */
  function FreeSlotFrom(slots: seq<Dirent>, k: nat): (r: nat)
    requires k <= |slots|
    ensures k <= r <= |slots|
    ensures r < |slots| ==> !Live(slots[r])
    ensures forall j | k <= j < r :: Live(slots[j])
    decreases |slots| - k
  {
    if k == |slots| || !Live(slots[k]) then k else FreeSlotFrom(slots, k + 1)
  }

  function FreeSlot(slots: seq<Dirent>): nat { FreeSlotFrom(slots, 0) }

  /** Live slots among the first `n`. */
  function CountLive(slots: seq<Dirent>, n: nat): nat
    requires n <= |slots|
  {
    if n == 0 then 0 else CountLive(slots, n - 1) + if Live(slots[n - 1]) then 1 else 0
  }

  /** Directories by first cluster (0 is the root), files by first cluster, and the number of free clusters. */
  datatype Image = Image(dirs: map<nat, seq<Dirent>>, files: map<nat, seq<Sector>>, free: nat)

  datatype Loc = Loc(dir: nat, slot: nat)

  /** A live slot that is not one of the two dot entries of a subdirectory. */
  predicate UserSlot(img: Image, d: nat, k: nat) {
    d in img.dirs && k < |img.dirs[d]| && Live(img.dirs[d][k]) && (d == 0 || k >= 2)
  }

  // ---------- well-formed images ----------

  ghost predicate Shape(img: Image) {
    && 0 in img.dirs && |img.dirs[0]| == ROOT_ENTRIES
    && (forall d | d in img.dirs && d != 0 :: DataCluster(d) && |img.dirs[d]| >= 16 && |img.dirs[d]| % 16 == 0)
    && (forall h | h in img.files :: DataCluster(h) && h !in img.dirs)
  }

  predicate IsDotEntry(e: Dirent, n: FName, first: nat) {
    NameOf(e) == n && IsDir(e) && e.first == first
  }

  /** "." names the directory itself and ".." the directory that holds its entry (0 for the root). */
  ghost predicate DotsOk(img: Image, own: map<nat, Loc>) {
    forall d {:trigger own[d]} {:trigger img.dirs[d]} | d in img.dirs && d != 0 ::
      && d in own && |img.dirs[d]| >= 2
      && IsDotEntry(img.dirs[d][0], DOT_NAME, d)
      && IsDotEntry(img.dirs[d][1], DOTDOT_NAME, own[d].dir)
  }

  /** What a live entry promises: a directory entry leads to a directory, a file entry to a chain of
      exactly the right length, none if the file is empty; and the entry is the chain's one owner. */
  ghost predicate EntryOk(img: Image, own: map<nat, Loc>, loc: Loc, e: Dirent) {
    e.name[0] != DOT && if IsDir(e) then DirEntryOk(img, own, loc, e) else FileEntryOk(img, own, loc, e)
  }

  ghost predicate DirEntryOk(img: Image, own: map<nat, Loc>, loc: Loc, e: Dirent) {
    e.first != 0 && e.first in img.dirs && e.first in own && own[e.first] == loc
  }

  ghost predicate FileEntryOk(img: Image, own: map<nat, Loc>, loc: Loc, e: Dirent) {
    && (e.size == 0 <==> e.first == 0)
    && (e.first != 0 ==> && e.first in img.files && e.first in own && own[e.first] == loc
                         && |img.files[e.first]| == SectorsFor(e.size))
  }

  ghost predicate EntriesOk(img: Image, own: map<nat, Loc>) {
    forall d: nat, k: nat {:trigger UserSlot(img, d, k)} | UserSlot(img, d, k) ::
      EntryOk(img, own, Loc(d, k), img.dirs[d][k])
  }

  /** Chain `h` is owned by a live entry of the right kind. */
  ghost predicate OwnerOk(img: Image, own: map<nat, Loc>, h: nat)
    requires h in own
  {
    && UserSlot(img, own[h].dir, own[h].slot)
    && img.dirs[own[h].dir][own[h].slot].first == h
    && (IsDir(img.dirs[own[h].dir][own[h].slot]) <==> h in img.dirs)
  }

  /** No chain is lost. */
  ghost predicate OwnersOk(img: Image, own: map<nat, Loc>) {
    && own.Keys == (img.dirs.Keys - {0}) + img.files.Keys
    && (forall h | h in own :: OwnerOk(img, own, h))
  }

  /** The owners form a tree: every step towards the root lowers the depth. */
  ghost predicate DepthOk(img: Image, own: map<nat, Loc>, depth: map<nat, nat>) {
    && depth.Keys == img.dirs.Keys
    && forall d {:trigger own[d]} | d in img.dirs && d != 0 ::
         d in own && own[d].dir in depth && depth[d] == depth[own[d].dir] + 1
  }

  ghost predicate NamesUniqueIn(slots: seq<Dirent>) {
    forall i, j | 0 <= i < j < |slots| && Live(slots[i]) && Live(slots[j]) :: NameOf(slots[i]) != NameOf(slots[j])
  }

  ghost predicate NamesUnique(img: Image) {
    forall d | d in img.dirs :: NamesUniqueIn(img.dirs[d])
  }

  /** Everything on the volume is in its place. */
  ghost predicate Wf(img: Image, own: map<nat, Loc>, depth: map<nat, nat>) {
    && Shape(img) && DotsOk(img, own) && EntriesOk(img, own)
    && OwnersOk(img, own) && DepthOk(img, own, depth) && NamesUnique(img)
  }

  ghost predicate Sound(img: Image) {
    exists own, depth :: Wf(img, own, depth)
  }

  // ---------- finding names ----------

  lemma FindIs(slots: seq<Dirent>, n: FName, k: nat)
    requires NamesUniqueIn(slots) && k < |slots| && Matches(slots[k], n)
    ensures Find(slots, n) == k
  {
  }

  /** A name is found exactly when a live slot holds it. */
  lemma FindIff(slots: seq<Dirent>, n: FName)
    ensures Has(slots, n) <==> exists k :: 0 <= k < |slots| && Matches(slots[k], n)
  {
  }

  // ---------- what a reader sees ----------

  datatype Node = FileNode(bytes: seq<byte>) | DirNode(id: nat)

  function FileBytes(img: Image, e: Dirent): seq<byte> {
    if e.first in img.files && e.size <= 512 * |img.files[e.first]|
    then Flatten(img.files[e.first])[..e.size]
    else []
  }

  function NodeOf(img: Image, e: Dirent): Node {
    if IsDir(e) then DirNode(e.first) else FileNode(FileBytes(img, e))
  }

  function Lookup(img: Image, d: nat, n: FName): Option<Node> {
    if d in img.dirs && Has(img.dirs[d], n)
    then Some(NodeOf(img, img.dirs[d][Find(img.dirs[d], n)]))
    else None
  }

  /** `sectors` is a right-sized home for `data`. */
  predicate FileHolds(sectors: seq<Sector>, data: seq<byte>) {
    |sectors| == SectorsFor(|data|) && Flatten(sectors)[..|data|] == data
  }

  // ---------- updates ----------

  function SetSlot(img: Image, d: nat, k: nat, e: Dirent): Image
    requires d in img.dirs && k < |img.dirs[d]|
  {
    Image(img.dirs[d := img.dirs[d][k := e]], img.files, img.free)
  }

  /** One more cluster of free slots at the end of subdirectory `d`. */
  function Grown(img: Image, d: nat): Image
    requires d in img.dirs && img.free > 0
  {
    Image(img.dirs[d := img.dirs[d] + FreeSlots()], img.files, img.free - 1)
  }

  // ---------- room for one more entry ----------

  predicate Room(img: Image, d: nat) {
    d in img.dirs && (FreeSlot(img.dirs[d]) < |img.dirs[d]| || (d != 0 && img.free > 0))
  }

  /** Free or deleted, by the first byte of the name. */
  predicate Unused(e: Dirent) { e.name[0] == 0x00 || e.name[0] == 0xE5 }

  predicate HasUnused(slots: seq<Dirent>) { exists k | 0 <= k < |slots| :: Unused(slots[k]) }

  /** There is room where some slot is unused, or in a subdirectory that can take a free cluster. */
  lemma RoomIs(img: Image, d: nat)
    requires d in img.dirs
    ensures Room(img, d) <==> HasUnused(img.dirs[d]) || (d != 0 && img.free > 0)
    ensures FreeSlot(img.dirs[d]) < |img.dirs[d]| <==> HasUnused(img.dirs[d])
    ensures Room(img, d) ==>
              WithRoom(img, d) == if HasUnused(img.dirs[d]) then img
                                  else Image(img.dirs[d := img.dirs[d] + FreeSlots()], img.files, img.free - 1)
  {
    var slots := img.dirs[d];
    if FreeSlot(slots) < |slots| { assert Unused(slots[FreeSlot(slots)]); }
    if k :| 0 <= k < |slots| && Unused(slots[k]) { assert !Live(slots[k]); }
  }

  /** The count of used root entries is the number of slots in use. */
  lemma {:induction false} CountLiveIs(slots: seq<Dirent>, n: nat)
    requires n <= |slots|
    ensures CountLive(slots, n) == |set i: nat | i < n && !Unused(slots[i])|
  {
    var now := set i: nat | i < n && !Unused(slots[i]);
    if n == 0 {
      assert now == {};
    } else {
      CountLiveIs(slots, n - 1);
      var before := set i: nat | i < n - 1 && !Unused(slots[i]);
      assert now == if Unused(slots[n - 1]) then before else before + {n - 1};
    }
  }

  function WithRoom(img: Image, d: nat): (t: Image)
    requires Room(img, d)
    ensures d in t.dirs && FreeSlot(img.dirs[d]) < |t.dirs[d]|
  {
    if FreeSlot(img.dirs[d]) < |img.dirs[d]| then img else Grown(img, d)
  }

  // ---------- references to directories ----------

  /** A directory as the source passes it around. `cluster` is meaningless, and may be stale, for the root. */
  datatype DirRef = DirRef(isRoot: bool, cluster: u16)

  const ROOT := DirRef(true, 0)

  function Id(d: DirRef): nat { if d.isRoot then 0 else d.cluster }

  /** The directory is there, and a non-root reference does not use the root's number. */
  predicate Present(img: Image, d: DirRef) { Id(d) in img.dirs && (!d.isRoot ==> d.cluster != 0) }
}
