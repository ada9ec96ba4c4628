/** Every call keeps a well-formed image well-formed, except where the source does not. */
module Keeping {
  import opened Types
  import opened Layout
  import opened Codec
  import opened Names
  import opened Images
  import opened Paths
  import opened Soundness
  import opened Calls

  /** A typed name never finds a dot entry, and what it finds keeps its promises. */
  lemma FoundEntry(img: Image, own: map<nat, Loc>, depth: map<nat, nat>, d: nat, n: FName)
    requires Wf(img, own, depth) && d in img.dirs && Has(img.dirs[d], n) && DOT !in n.base
    ensures var k := Find(img.dirs[d], n);
      UserSlot(img, d, k) && NameOf(img.dirs[d][k]) == n && EntryOk(img, own, Loc(d, k), img.dirs[d][k])
  {
    hide EntryOk, OwnersOk, DepthOk, NamesUnique, Shape;
    var k := Find(img.dirs[d], n);
    assert n.base[0] != DOT;
    assert UserSlot(img, d, k);
  }

  /** The dot entries are live, so a free slot is never one of them. */
  lemma FreeSlotIsUser(img: Image, own: map<nat, Loc>, d: nat)
    requires DotsOk(img, own) && d in img.dirs && FreeSlot(img.dirs[d]) < |img.dirs[d]|
    ensures d != 0 ==> FreeSlot(img.dirs[d]) >= 2
  {
    if d != 0 {
      assert Live(img.dirs[d][0]) && Live(img.dirs[d][1]);
      assert !Live(img.dirs[d][FreeSlot(img.dirs[d])]);
    }
  }

  lemma RoomKept(img: Image, own: map<nat, Loc>, depth: map<nat, nat>, d: nat)
    requires Wf(img, own, depth) && Room(img, d)
    ensures Wf(WithRoom(img, d), own, depth)
    ensures var k := FreeSlot(img.dirs[d]); !Live(WithRoom(img, d).dirs[d][k]) && (d != 0 ==> k >= 2)
  {
    var k := FreeSlot(img.dirs[d]);
    if k < |img.dirs[d]| {
      FreeSlotIsUser(img, own, d);
    } else {
      assert d != 0 && |img.dirs[d]| >= 16;
      GrownWf(img, own, depth, d);
    }
  }

  /** No slot of the enlarged directory holds a name that was not there. */
  lemma StillMissing(img: Image, d: nat, n: FName)
    requires Room(img, d) && !Has(img.dirs[d], n)
    ensures forall j | 0 <= j < |WithRoom(img, d).dirs[d]| :: !Matches(WithRoom(img, d).dirs[d][j], n)
  {
  }

  lemma CreateKeeps(img: Image, own: map<nat, Loc>, depth: map<nat, nat>, d: nat, n: FName)
    requires Wf(img, own, depth) && DOT !in n.base
    ensures Wf(CreateIn(img, d, n).img, own, depth)
  {
    hide Wf;
    if CreateIn(img, d, n).ok {
      RoomKept(img, own, depth, d);
      StillMissing(img, d, n);
      PutFile(WithRoom(img, d), own, depth, d, FreeSlot(img.dirs[d]), NewFile(n));
    }
  }

  /** An empty file (or an entry that does not count) in a dead slot. */
  lemma PutFile(img: Image, own: map<nat, Loc>, depth: map<nat, nat>, d: nat, k: nat, e: Dirent)
    requires Wf(img, own, depth) && d in img.dirs && k < |img.dirs[d]| && !Live(img.dirs[d][k]) && (d != 0 ==> k >= 2)
    requires !IsDir(e) && e.first == 0 && e.size == 0 && e.name[0] != DOT
    requires forall j | 0 <= j < |img.dirs[d]| :: !Matches(img.dirs[d][j], NameOf(e))
    ensures Wf(SetSlot(img, d, k, e), own, depth)
  {
    hide Wf, OwnAfter, FileChange, FitsSlot;
    PutFileFits(img, own, depth, d, k, e);
    FileChangeWf(img, own, depth, d, k, e, SetSlot(img, d, k, e));
    NoZeroChain(img, own, depth);
    assert own - {0} == own;
    OwnAfterEmpty(own, img.dirs[d][k], e, Loc(d, k));
  }

  lemma PutFileFits(img: Image, own: map<nat, Loc>, depth: map<nat, nat>, d: nat, k: nat, e: Dirent)
    requires Wf(img, own, depth) && d in img.dirs && k < |img.dirs[d]| && !Live(img.dirs[d][k]) && (d != 0 ==> k >= 2)
    requires !IsDir(e) && e.first == 0 && e.size == 0 && e.name[0] != DOT
    requires forall j | 0 <= j < |img.dirs[d]| :: !Matches(img.dirs[d][j], NameOf(e))
    ensures FileChange(img, d, k, e, SetSlot(img, d, k, e)) && FitsSlot(img, d, k, e, SetSlot(img, d, k, e))
  {
    hide Wf;
    NoZeroChain(img, own, depth);
    assert img.files - {0} == img.files;
  }

  lemma OwnAfterEmpty(own: map<nat, Loc>, was: Dirent, e: Dirent, loc: Loc)
    requires 0 !in own && ChainOf(was) == 0 && ChainOf(e) == 0
    ensures OwnAfter(own, was, e, loc) == own
  {
  }

  lemma NoZeroChain(img: Image, own: map<nat, Loc>, depth: map<nat, nat>)
    requires Wf(img, own, depth)
    ensures 0 !in img.files && 0 !in own
  {
  }

  // ---------- delete ----------

  lemma DeleteKeeps(img: Image, own: map<nat, Loc>, depth: map<nat, nat>, d: nat, n: FName)
    requires Wf(img, own, depth) && DOT !in n.base
    ensures Sound(DeleteIn(img, d, n).img)
  {
    hide Wf, OwnAfter;
    var o := DeleteIn(img, d, n);
    if o.ok {
      var k := Find(img.dirs[d], n);
      FoundEntry(img, own, depth, d, n);
      assert FileChange(img, d, k, Deleted(img.dirs[d][k]), o.img);
      FileChangeWf(img, own, depth, d, k, Deleted(img.dirs[d][k]), o.img);
    }
  }

  // ---------- write ----------

  /** `e` is the entry of the plain file in slot `k` with another chain of the right length. */
  ghost predicate Swapped(img: Image, d: nat, k: nat, e: Dirent, t: Image) {
    && UserSlot(img, d, k) && !IsDir(img.dirs[d][k])
    && e == img.dirs[d][k].(first := e.first, size := e.size)
    && FileChange(img, d, k, e, t) && (e.size == 0 <==> e.first == 0)
    && (e.first != 0 ==>
          && e.first in t.files && DataCluster(e.first) && e.first !in img.dirs
          && e.first !in img.files - {img.dirs[d][k].first as nat}
          && |t.files[e.first]| == SectorsFor(e.size))
  }

  lemma SwapFits(img: Image, own: map<nat, Loc>, depth: map<nat, nat>, d: nat, k: nat, e: Dirent, t: Image)
    requires Wf(img, own, depth) && Swapped(img, d, k, e, t)
    ensures FitsSlot(img, d, k, e, t)
  {
    hide Wf;
    OthersDiffer(img, own, depth, d, k);
    UserEntry(img, own, depth, d, k);
    assert IsDir(e) == IsDir(img.dirs[d][k]);
  }

  /** A file that takes the slot of another file, with the same name. */
  lemma SwapFile(img: Image, own: map<nat, Loc>, depth: map<nat, nat>, d: nat, k: nat, e: Dirent, t: Image)
    requires Wf(img, own, depth) && Swapped(img, d, k, e, t)
    ensures Sound(t)
  {
    hide Wf, OwnAfter, FitsSlot;
    SwapFits(img, own, depth, d, k, e, t);
    FileChangeWf(img, own, depth, d, k, e, t);
  }

  lemma OthersDiffer(img: Image, own: map<nat, Loc>, depth: map<nat, nat>, d: nat, k: nat)
    requires Wf(img, own, depth) && UserSlot(img, d, k)
    ensures forall j | 0 <= j < |img.dirs[d]| && j != k :: !Matches(img.dirs[d][j], NameOf(img.dirs[d][k]))
  {
    hide Shape, DotsOk, EntriesOk, OwnersOk, DepthOk;
    assert NamesUniqueIn(img.dirs[d]);
  }

  lemma UserEntry(img: Image, own: map<nat, Loc>, depth: map<nat, nat>, d: nat, k: nat)
    requires Wf(img, own, depth) && UserSlot(img, d, k)
    ensures EntryOk(img, own, Loc(d, k), img.dirs[d][k])
  {
  }

  lemma OverwriteSwaps(img: Image, d: nat, k: nat, data: seq<byte>, ok: bool, t: Image)
    requires UserSlot(img, d, k) && !IsDir(img.dirs[d][k]) && |data| <= 0x1_0000_0000 - 512
    requires Overwritten(img, d, k, data, ok, t)
    ensures d in t.dirs && k < |t.dirs[d]| && Swapped(img, d, k, t.dirs[d][k], t)
  {
    hide FileHolds, FileChange;
    SectorsFor32IsRight(|data|);
    FileHoldsSize(t, t.dirs[d][k], data);
  }

  /** Overwriting keeps the volume sound exactly when the 32-bit cluster count did not wrap:
      the file's recorded size is then covered by its chain. */
  lemma OverwriteKeeps(img: Image, own: map<nat, Loc>, depth: map<nat, nat>, d: nat, k: nat, data: seq<byte>, ok: bool, t: Image)
    requires Wf(img, own, depth) && UserSlot(img, d, k) && |data| < 0x1_0000_0000
    requires OverwriteStep(img, d, k, data, ok, t)
    ensures Sound(t) <==> IsDir(img.dirs[d][k]) || |data| <= 0x1_0000_0000 - 512
    ensures !ok ==> |data| <= 0x1_0000_0000 - 512 || IsDir(img.dirs[d][k])
  {
    hide Wf, FileHolds, Swapped;
    SectorsFor32IsRight(|data|);
    if !IsDir(img.dirs[d][k]) {
      if |data| <= 0x1_0000_0000 - 512 {
        OverwriteSwaps(img, d, k, data, ok, t);
        SwapFile(img, own, depth, d, k, t.dirs[d][k], t);
      } else {
        assert t.dirs[d][k].size != 0 && t.dirs[d][k].first == 0;
        SizeNeedsChain(t, d, k);
      }
    }
  }

  lemma FileHoldsSize(t: Image, e: Dirent, data: seq<byte>)
    ensures e.first in t.files && FileHolds(t.files[e.first], data) ==> |t.files[e.first]| == SectorsFor(|data|)
  {
  }

  lemma SizeNeedsChain(t: Image, d: nat, k: nat)
    requires UserSlot(t, d, k) && !IsDir(t.dirs[d][k]) && t.dirs[d][k].size != 0 && t.dirs[d][k].first == 0
    ensures !Sound(t)
  {
    forall own: map<nat, Loc>, depth: map<nat, nat> | Wf(t, own, depth)
      ensures false
    {
      UserEntry(t, own, depth, d, k);
    }
  }

  lemma ExtendSwaps(img: Image, own: map<nat, Loc>, depth: map<nat, nat>, d: nat, k: nat, extra: seq<byte>, ok: bool, t: Image)
    requires Wf(img, own, depth) && UserSlot(img, d, k) && !IsDir(img.dirs[d][k])
    requires FileExtended(img, d, k, extra, ok, t)
    ensures d in t.dirs && k < |t.dirs[d]| && Swapped(img, d, k, t.dirs[d][k], t)
  {
    hide Wf, FileHolds, FileChange;
    var e := img.dirs[d][k];
    UserEntry(img, own, depth, d, k);
    FileBytesSize(img, own, Loc(d, k), e);
    ExtendedSize(img, e, t.dirs[d][k], extra, t);
  }

  lemma ExtendKeeps(img: Image, own: map<nat, Loc>, depth: map<nat, nat>, d: nat, k: nat, extra: seq<byte>, ok: bool, t: Image)
    requires Wf(img, own, depth) && UserSlot(img, d, k) && AppendStep(img, d, k, extra, ok, t)
    ensures Sound(t)
  {
    hide Wf, FileExtended, Swapped;
    if !IsDir(img.dirs[d][k]) && extra != [] {
      ExtendSwaps(img, own, depth, d, k, extra, ok, t);
      SwapFile(img, own, depth, d, k, t.dirs[d][k], t);
    }
  }

  lemma ExtendedSize(img: Image, e: Dirent, e2: Dirent, extra: seq<byte>, t: Image)
    requires |FileBytes(img, e)| == e.size
    ensures forall n | 0 <= n <= |extra| && e2.first in t.files && FileHolds(t.files[e2.first], FileBytes(img, e) + extra[..n]) ::
              |t.files[e2.first]| == SectorsFor(e.size + n)
  {
  }

  /** What is read from a file of a sound volume has the recorded size. */
  lemma FileBytesSize(img: Image, own: map<nat, Loc>, loc: Loc, e: Dirent)
    requires FileEntryOk(img, own, loc, e)
    ensures |FileBytes(img, e)| == e.size
  {
  }

  // ---------- directories ----------

  lemma NewDirSlotsFit(c: u16, parent: u16)
    ensures IsNewDir(NewDirSlots(c, parent), c, parent)
  {
  }

  /** What `fs_mkdir` did, as one added directory in an image with room. */
  lemma MadeIsAdded(img: Image, own: map<nat, Loc>, depth: map<nat, nat>, d: nat, n: FName, c: u16, t: Image)
    requires Wf(img, own, depth) && d in img.dirs && d < 0x1_0000 && img.free > 0 && Room(img.(free := img.free - 1), d)
    requires !Has(img.dirs[d], n) && DOT !in n.base && Made(img, d, n, c, t)
    ensures var mid := WithRoom(img.(free := img.free - 1), d);
      && Wf(mid, own, depth)
      && DirAdded(mid, d, FreeSlot(img.dirs[d]), DirEntry(n, c), c, t)
  {
    var less := img.(free := img.free - 1);
    assert Wf(less, own, depth) by { FreeIsFree(img, less, own, depth); }
    hide Wf, IsNewDir;
    RoomKept(less, own, depth, d);
    StillMissing(less, d, n);
    NewDirSlotsFit(c, d);
  }

  /** Being well-formed does not depend on the free count. */
  lemma FreeIsFree(img: Image, t: Image, own: map<nat, Loc>, depth: map<nat, nat>)
    requires Wf(img, own, depth) && t.dirs == img.dirs && t.files == img.files
    ensures Wf(t, own, depth)
  {
    forall d: nat, k: nat {:trigger UserSlot(t, d, k)} | UserSlot(t, d, k)
      ensures EntryOk(t, own, Loc(d, k), t.dirs[d][k])
    {
      assert UserSlot(img, d, k);
    }
    forall h | h in own
      ensures OwnerOk(t, own, h)
    {
      assert OwnerOk(img, own, h);
    }
  }

  /** `fs_mkdir` loses the new cluster exactly when it can make the directory and the name starts with
      byte 0xE5. */
  lemma MkdirKeeps(img: Image, own: map<nat, Loc>, depth: map<nat, nat>, d: nat, n: FName, ok: bool, t: Image)
    requires Wf(img, own, depth) && DOT !in n.base && n.base[0] != 0 && MkdirIn(img, d, n, ok, t)
    ensures Sound(t) <==> !(CanMkdir(img, d, n) && n.base[0] == DIRENT_DELETED)
  {
    hide Wf, Made;
    if ok {
      var c: u16 :| Made(img, d, n, c, t);
      MadeIsAdded(img, own, depth, d, n, c, t);
      var mid := WithRoom(img.(free := img.free - 1), d);
      var k := FreeSlot(img.dirs[d]);
      if n.base[0] != DIRENT_DELETED {
        DirAddedWf(mid, own, depth, d, k, DirEntry(n, c), c, t);
      } else {
        AddedButDead(mid, own, depth, d, k, DirEntry(n, c), c, t);
      }
    }
  }

  /** A chain that no user entry points to is lost. */
  lemma Orphan(t: Image, c: nat)
    requires c != 0 && (c in t.dirs || c in t.files)
    requires forall i: nat, j: nat {:trigger UserSlot(t, i, j)} | UserSlot(t, i, j) :: t.dirs[i][j].first != c
    ensures !Sound(t)
  {
    hide Shape, DotsOk, EntriesOk, DepthOk, NamesUnique;
    forall own: map<nat, Loc>, depth: map<nat, nat> | Wf(t, own, depth)
      ensures false
    {
      OwnerSlot(t, own, c);
    }
  }

  lemma OwnerSlot(t: Image, own: map<nat, Loc>, c: nat)
    requires OwnersOk(t, own) && c != 0 && (c in t.dirs || c in t.files)
    ensures c in own && UserSlot(t, own[c].dir, own[c].slot) && t.dirs[own[c].dir][own[c].slot].first == c
  {
    assert OwnerOk(t, own, c);
  }

  /** A chain the volume knows is owned by the slot of each live entry that names it. */
  lemma OneOwner(img: Image, own: map<nat, Loc>, depth: map<nat, nat>, d: nat, k: nat, c: nat)
    requires Wf(img, own, depth) && UserSlot(img, d, k) && img.dirs[d][k].first == c && c != 0
    ensures c in own && own[c] == Loc(d, k) && (c in img.dirs || c in img.files)
  {
    hide Shape, DotsOk, OwnersOk, DepthOk, NamesUnique;
    assert EntryOk(img, own, Loc(d, k), img.dirs[d][k]);
  }

  /** A directory entered under a dead name is owned by nobody. */
  lemma AddedButDead(img: Image, own: map<nat, Loc>, depth: map<nat, nat>, d: nat, k: nat, e: Dirent, c: nat, t: Image)
    requires Wf(img, own, depth) && DirAdded(img, d, k, e, c, t) && !Live(e)
    ensures !Sound(t)
  {
    hide Wf;
    forall i: nat, j: nat {:trigger UserSlot(t, i, j)} | UserSlot(t, i, j)
      ensures t.dirs[i][j].first != c
    {
      assert UserSlot(img, i, j);
      if img.dirs[i][j].first == c { OneOwner(img, own, depth, i, j, c); }
    }
    Orphan(t, c);
  }

  lemma RmdirIsRemoved(img: Image, own: map<nat, Loc>, depth: map<nat, nat>, cwd: DirRef, d: nat, n: FName)
    requires Wf(img, own, depth) && DOT !in n.base && RmdirIn(img, cwd, d, n).ok
    ensures var k := Find(img.dirs[d], n);
      DirRemoved(img, d, k, Deleted(img.dirs[d][k]), img.dirs[d][k].first, RmdirIn(img, cwd, d, n).img)
  {
    hide Wf;
    var k := Find(img.dirs[d], n);
    FoundEntry(img, own, depth, d, n);
    EmptyDirIsDead(img, own, depth, img.dirs[d][k].first);
    NotOwnParent(img, own, depth, d, k);
  }

  lemma RmdirKeeps(img: Image, own: map<nat, Loc>, depth: map<nat, nat>, cwd: DirRef, d: nat, n: FName)
    requires Wf(img, own, depth) && DOT !in n.base && Present(img, cwd)
    ensures Sound(RmdirIn(img, cwd, d, n).img) && Present(RmdirIn(img, cwd, d, n).img, cwd)
  {
    hide Wf, DirRemoved;
    var o := RmdirIn(img, cwd, d, n);
    if o.ok {
      var k := Find(img.dirs[d], n);
      RmdirIsRemoved(img, own, depth, cwd, d, n);
      DirRemovedWf(img, own, depth, d, k, Deleted(img.dirs[d][k]), img.dirs[d][k].first, o.img);
    }
  }

  /** The emptiness test of `fs_rmdir` lets no user entry through. */
  lemma EmptyDirIsDead(img: Image, own: map<nat, Loc>, depth: map<nat, nat>, h: nat)
    requires Wf(img, own, depth) && h in img.dirs && h != 0 && EmptyDir(img.dirs[h])
    ensures forall i | 2 <= i < |img.dirs[h]| :: !Live(img.dirs[h][i])
  {
    forall i | 2 <= i < |img.dirs[h]|
      ensures !Live(img.dirs[h][i])
    {
      if UserSlot(img, h, i) { UserEntry(img, own, depth, h, i); }
    }
  }

  lemma NotOwnParent(img: Image, own: map<nat, Loc>, depth: map<nat, nat>, d: nat, k: nat)
    requires Wf(img, own, depth) && UserSlot(img, d, k) && IsDir(img.dirs[d][k])
    ensures img.dirs[d][k].first != d
  {
    UserEntry(img, own, depth, d, k);
    hide EntriesOk, OwnersOk, NamesUnique, DotsOk;
  }

  /** Renaming to a name that starts with byte 0xE5 loses the entry; the volume stays sound only if
      there was nothing behind it. */
  lemma RenameKeeps(img: Image, own: map<nat, Loc>, depth: map<nat, nat>, d: nat, from: FName, to: FName)
    requires Wf(img, own, depth) && DOT !in from.base && DOT !in to.base && to.base[0] != 0
    ensures var o := RenameIn(img, d, from, to);
      Sound(o.img) <==> !o.ok || to.base[0] != DIRENT_DELETED || img.dirs[d][Find(img.dirs[d], from)].first == 0
  {
    hide Wf;
    var o := RenameIn(img, d, from, to);
    if o.ok {
      var k := Find(img.dirs[d], from);
      FoundEntry(img, own, depth, d, from);
      assert Renamed(img, d, k, to, o.img);
      if to.base[0] != DIRENT_DELETED {
        RenamedWf(img, own, depth, d, k, to, o.img);
      } else if img.dirs[d][k].first == 0 {
        RenamedAway(img, own, depth, d, k, to, o.img);
      } else {
        RenamedLost(img, own, depth, d, k, to, o.img);
      }
    }
  }

  lemma RenamedAway(img: Image, own: map<nat, Loc>, depth: map<nat, nat>, d: nat, k: nat, n: FName, t: Image)
    requires Wf(img, own, depth) && Renamed(img, d, k, n, t) && n.base[0] == DIRENT_DELETED && img.dirs[d][k].first == 0
    ensures Sound(t)
  {
    hide Wf, OwnAfter;
    UserEntry(img, own, depth, d, k);
    NoZeroChain(img, own, depth);
    var e := t.dirs[d][k];
    assert img.files - {0} == img.files;
    assert FileChange(img, d, k, e, t);
    FileChangeWf(img, own, depth, d, k, e, t);
  }

  lemma RenamedLost(img: Image, own: map<nat, Loc>, depth: map<nat, nat>, d: nat, k: nat, n: FName, t: Image)
    requires Wf(img, own, depth) && Renamed(img, d, k, n, t) && n.base[0] == DIRENT_DELETED && img.dirs[d][k].first != 0
    ensures !Sound(t)
  {
    hide Wf;
    var c := img.dirs[d][k].first;
    OneOwner(img, own, depth, d, k, c);
    forall i: nat, j: nat {:trigger UserSlot(t, i, j)} | UserSlot(t, i, j)
      ensures t.dirs[i][j].first != c
    {
      assert UserSlot(img, i, j);
      if img.dirs[i][j].first == c { OneOwner(img, own, depth, i, j, c); }
    }
    Orphan(t, c);
  }

  // ---------- every call ----------

  lemma AimPresent(s: State, own: map<nat, Loc>, depth: map<nat, nat>, path: CStr)
    requires Wf(s.img, own, depth) && Present(s.img, s.cwd) && Aim(s, path).Some?
    ensures Present(s.img, Aim(s, path).value.parent) && 0 !in Aim(s, path).value.leaf
  {
    hide Wf, WalkPath;
    if AfterLastSlash(path) > 0 {
      WalkPathPresent(s.img, own, depth, path[..Min(AfterLastSlash(path), DIRPART_MAX)], s.cwd);
    }
  }

  /** The call will leave something behind that nobody can reach, or a size no chain covers: a write
      past 2^32 - 512 bytes to a file that opens, a directory made or a chain renamed under a name that
      reads as deleted. Everything here can be checked before the call. */
  predicate Careless(s: State, c: Call) {
    match c
    case Write(p, data) => |data| > 0x1_0000_0000 - 512 && CanWrite(s, p)
    case Mkdir(p) =>
      Aim(s, p).Some? &&
      var a := Aim(s, p).value;
      && a.leaf != [] && !DotLeaf(a.leaf) && CanMkdir(s.img, Id(a.parent), SplitName(a.leaf))
      && SplitName(a.leaf).base[0] == DIRENT_DELETED
    case Rename(p, to) =>
      Aim(s, p).Some? && Aim(s, to).Some? &&
      var a, b := Aim(s, p).value, Aim(s, to).value;
      && b.leaf != [] && a.parent == b.parent && RenameIn(s.img, Id(a.parent), SplitName(a.leaf), SplitName(b.leaf)).ok
      && SplitName(b.leaf).base[0] == DIRENT_DELETED
      && RenamesChain(s.img, Id(a.parent), SplitName(a.leaf))
    case _ => false
  }

  predicate CanWrite(s: State, p: seq<byte>) {
    Aim(s, p).Some? &&
    var a := Aim(s, p).value;
    a.leaf != [] && OpensFile(s.img, Id(a.parent), SplitName(a.leaf))
  }

  predicate RenamesChain(img: Image, d: nat, n: FName) {
    d in img.dirs && Has(img.dirs[d], n) && img.dirs[d][Find(img.dirs[d], n)].first != 0
  }

  /** A file that was there or could be created, in a sound volume. */
  lemma OpenedKeeps(img: Image, own: map<nat, Loc>, depth: map<nat, nat>, d: nat, n: FName)
    requires Wf(img, own, depth) && DOT !in n.base
    ensures Wf(Opened(img, d, n).img, own, depth)
    ensures Opened(img, d, n).ok ==> UserSlot(Opened(img, d, n).img, d, Find(Opened(img, d, n).img.dirs[d], n))
  {
    hide Wf;
    CreateKeeps(img, own, depth, d, n);
    var o := Opened(img, d, n);
    if o.ok { FoundEntry(o.img, own, depth, d, n); }
  }

  /** Each call takes a sound volume to a sound one, with the current directory still in it,
      exactly when it is not a careless call. */
  lemma StepKeeps(s: State, own: map<nat, Loc>, depth: map<nat, nat>, c: Call, ok: bool, t: State)
    requires Wf(s.img, own, depth) && Present(s.img, s.cwd) && SizeFits(c) && Step(s, c, ok, t)
    ensures Sound(t.img) <==> !Careless(s, c)
    ensures Sound(t.img) ==> Present(t.img, t.cwd)
  {
    hide Wf, ResolveParent, WalkPath, SplitName, CreateIn, DeleteIn, RmdirIn, MkdirIn, OverwriteStep, AppendStep, Opened;
    assert Sound(s.img);
    if c.Chdir? {
      WalkPathPresent(s.img, own, depth, c.path, s.cwd);
    } else if Aim(s, c.path).Some? {
      AimPresent(s, own, depth, c.path);
      var a := Aim(s, c.path).value;
      var d, n := Id(a.parent), SplitName(a.leaf);
      SplitNameHasNoDot(a.leaf);
      SplitNameFirstByte(a.leaf);
      match c
      case Create(_) =>
        CreateKeeps(s.img, own, depth, d, n);
        CreatePresent(s.img, d, n, s.cwd);
      case Write(_, data) => WriteKeeps(s, own, depth, d, n, data, a, ok, t);
      case Append(_, data) => AppendKeeps(s, own, depth, d, n, data, a, ok, t);
      case Delete(_) =>
        DeleteKeeps(s.img, own, depth, d, n);
        DeletePresent(s.img, d, n, s.cwd);
      case Rename(_, to) => RenameStepKeeps(s, own, depth, c.path, to, ok, t);
      case Mkdir(_) =>
        if a.leaf != [] && !DotLeaf(a.leaf) {
          MkdirKeeps(s.img, own, depth, d, n, ok, t.img);
          MkdirPresent(s.img, d, n, ok, t.img, s.cwd);
        }
      case Rmdir(_) => RmdirKeeps(s.img, own, depth, s.cwd, d, n);
    }
  }

  lemma CreatePresent(img: Image, d: nat, n: FName, cwd: DirRef)
    requires Present(img, cwd)
    ensures Present(CreateIn(img, d, n).img, cwd)
  {
  }

  lemma DeletePresent(img: Image, d: nat, n: FName, cwd: DirRef)
    requires Present(img, cwd)
    ensures Present(DeleteIn(img, d, n).img, cwd)
  {
  }

  lemma MkdirPresent(img: Image, d: nat, n: FName, ok: bool, t: Image, cwd: DirRef)
    requires Present(img, cwd) && MkdirIn(img, d, n, ok, t)
    ensures Present(t, cwd)
  {
  }

  lemma OpenedPresent(img: Image, d: nat, n: FName, cwd: DirRef)
    requires Present(img, cwd)
    ensures Present(Opened(img, d, n).img, cwd)
  {
    CreatePresent(img, d, n, cwd);
    hide CreateIn;
  }

  lemma WriteKeeps(s: State, own: map<nat, Loc>, depth: map<nat, nat>, d: nat, n: FName, data: seq<byte>, a: Target, ok: bool, t: State)
    requires Wf(s.img, own, depth) && Present(s.img, s.cwd) && DOT !in n.base && |data| < 0x1_0000_0000
    requires d == Id(a.parent) && n == SplitName(a.leaf)
    requires if a.leaf == [] then Fails(s, ok, t) else WriteIn(s, d, n, data, ok, t)
    ensures Sound(t.img) <==> !(|data| > 0x1_0000_0000 - 512 && a.leaf != [] && OpensFile(s.img, d, n))
    ensures Present(t.img, t.cwd)
  {
    hide Wf, Opened, Overwritten;
    assert Sound(s.img);
    if a.leaf != [] {
      OpenedKeeps(s.img, own, depth, d, n);
      OpenedPresent(s.img, d, n, s.cwd);
      var o := Opened(s.img, d, n);
      if o.ok {
        var k := Find(o.img.dirs[d], n);
        OverwriteKeeps(o.img, own, depth, d, k, data, ok, t.img);
        OverwritePresent(o.img, d, k, data, ok, t.img);
      } else {
        assert Sound(o.img);
      }
    }
  }

  lemma OverwritePresent(img: Image, d: nat, k: nat, data: seq<byte>, ok: bool, t: Image)
    requires d in img.dirs && k < |img.dirs[d]| && |data| < 0x1_0000_0000 && OverwriteStep(img, d, k, data, ok, t)
    ensures t.dirs.Keys == img.dirs.Keys
    ensures IsDir(img.dirs[d][k]) ==> !ok
  {
  }

  lemma AppendKeeps(s: State, own: map<nat, Loc>, depth: map<nat, nat>, d: nat, n: FName, extra: seq<byte>, a: Target, ok: bool, t: State)
    requires Wf(s.img, own, depth) && Present(s.img, s.cwd) && DOT !in n.base
    requires d == Id(a.parent) && n == SplitName(a.leaf)
    requires if a.leaf == [] then Fails(s, ok, t) else AppendIn(s, d, n, extra, ok, t)
    ensures Sound(t.img) && Present(t.img, t.cwd)
  {
    hide Wf, Opened, FileExtended;
    assert Sound(s.img);
    if a.leaf != [] {
      OpenedKeeps(s.img, own, depth, d, n);
      OpenedPresent(s.img, d, n, s.cwd);
      var o := Opened(s.img, d, n);
      if o.ok {
        var k := Find(o.img.dirs[d], n);
        ExtendKeeps(o.img, own, depth, d, k, extra, ok, t.img);
        ExtendPresent(o.img, d, k, extra, ok, t.img);
      } else {
        assert Sound(o.img);
      }
    }
  }

  lemma ExtendPresent(img: Image, d: nat, k: nat, extra: seq<byte>, ok: bool, t: Image)
    requires d in img.dirs && k < |img.dirs[d]| && AppendStep(img, d, k, extra, ok, t)
    ensures t.dirs.Keys == img.dirs.Keys
  {
  }

  lemma RenameStepKeeps(s: State, own: map<nat, Loc>, depth: map<nat, nat>, path: CStr, to: CStr, ok: bool, t: State)
    requires Wf(s.img, own, depth) && Present(s.img, s.cwd) && RenameStep(s, path, to, ok, t)
    ensures Sound(t.img) <==> !Careless(s, Rename(path, to))
    ensures Present(t.img, t.cwd)
  {
    hide Wf, Aim, SplitName;
    assert Sound(s.img);
    if Aim(s, path).Some? && Aim(s, to).Some? {
      var a, b := Aim(s, path).value, Aim(s, to).value;
      AimPresent(s, own, depth, to);
      SplitNameHasNoDot(a.leaf);
      SplitNameHasNoDot(b.leaf);
      SplitNameFirstByte(b.leaf);
      RenameKeeps(s.img, own, depth, Id(a.parent), SplitName(a.leaf), SplitName(b.leaf));
    }
  }
}
