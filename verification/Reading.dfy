/** What readers see after a call: the volume as a map from names to contents. */
module Reading {
  import opened Types
  import opened Codec
  import opened Names
  import opened Images
  import opened Paths
  import opened Soundness
  import opened Calls
  import opened Keeping

  // ---------- one slot of one directory ----------

  /** Looking a name up after slot `k` became `e`. */
  lemma FindSet(slots: seq<Dirent>, k: nat, e: Dirent, n: FName)
    requires k < |slots| && NamesUniqueIn(slots) && NamesUniqueIn(slots[k := e])
    ensures Matches(e, n) ==> Find(slots[k := e], n) == k
    ensures !Matches(e, n) && Matches(slots[k], n) ==> !Has(slots[k := e], n)
    ensures !Matches(e, n) && !Matches(slots[k], n) ==> Find(slots[k := e], n) == Find(slots, n)
  {
    var t := slots[k := e];
    if Matches(e, n) {
      FindIs(t, n, k);
    } else if Has(t, n) {
      var j := Find(t, n);
      assert Matches(t[j], n) && j != k && Matches(slots[j], n);
      FindIs(slots, n, j);
    } else if Has(slots, n) {
      assert t[Find(slots, n)] == slots[Find(slots, n)] || Find(slots, n) == k;
    }
  }

  /** What a lookup finds is a dot entry or a user entry with its own chain. */
  lemma FoundSlot(img: Image, own: map<nat, Loc>, depth: map<nat, nat>, d: nat, n: FName)
    requires Wf(img, own, depth) && d in img.dirs && Has(img.dirs[d], n)
    ensures var k := Find(img.dirs[d], n); var e := img.dirs[d][k];
      IsDir(e) || (UserSlot(img, d, k) && FileEntryOk(img, own, Loc(d, k), e))
  {
    hide OwnersOk, DepthOk, NamesUnique, Shape;
    var k := Find(img.dirs[d], n);
    if d == 0 || k >= 2 {
      assert UserSlot(img, d, k);
      UserEntry(img, own, depth, d, k);
    }
  }

  // ---------- a file changes ----------

  /** After a file change: the new entry under its name, nothing under the old one, the rest as before. */
  ghost function LookupAfter(img: Image, t: Image, d: nat, was: Dirent, e: Dirent, d2: nat, n2: FName): Option<Node> {
    if d2 == d && Matches(e, n2) then Some(NodeOf(t, e))
    else if d2 == d && Matches(was, n2) then None
    else Lookup(img, d2, n2)
  }

  lemma FileChangeLookup(img: Image, own: map<nat, Loc>, depth: map<nat, nat>, d: nat, k: nat, e: Dirent, t: Image,
                         d2: nat, n2: FName)
    requires Wf(img, own, depth) && FileChange(img, d, k, e, t) && FitsSlot(img, d, k, e, t)
    ensures Lookup(t, d2, n2) == LookupAfter(img, t, d, img.dirs[d][k], e, d2, n2)
  {
    hide Wf, FitsSlot, NodeOf;
    if d2 in img.dirs {
      var slots := img.dirs[d2];
      if d2 == d {
        FitsNames(img, own, depth, d, k, e, t);
        FindSet(slots, k, e, n2);
      }
      if (d2 != d || !(Matches(e, n2) || Matches(slots[k], n2))) && Has(slots, n2) {
        FoundSlot(img, own, depth, d2, n2);
        OtherBytes(img, own, depth, d, k, e, t, d2, Find(slots, n2));
      }
    }
  }

  lemma FitsNames(img: Image, own: map<nat, Loc>, depth: map<nat, nat>, d: nat, k: nat, e: Dirent, t: Image)
    requires Wf(img, own, depth) && FileChange(img, d, k, e, t) && FitsSlot(img, d, k, e, t)
    ensures NamesUniqueIn(img.dirs[d]) && NamesUniqueIn(img.dirs[d][k := e])
  {
    hide Shape, DotsOk, EntriesOk, OwnersOk, DepthOk;
    SlotNamesUnique(img.dirs[d], k, e);
  }

  lemma LeavingChainIs(img: Image, own: map<nat, Loc>, depth: map<nat, nat>, d: nat, k: nat, e: Dirent, t: Image)
    requires Wf(img, own, depth) && FileChange(img, d, k, e, t) && FitsSlot(img, d, k, e, t)
    ensures var was := ChainOf(img.dirs[d][k]); was != 0 ==> was in img.files && was in own && own[was] == Loc(d, k)
  {
    LeavingChain(img, own, d, k);
  }

  /** The bytes of every other file stay what they were. */
  lemma OtherBytes(img: Image, own: map<nat, Loc>, depth: map<nat, nat>, d: nat, k: nat, e: Dirent, t: Image, d2: nat, j: nat)
    requires Wf(img, own, depth) && FileChange(img, d, k, e, t) && FitsSlot(img, d, k, e, t)
    requires d2 in img.dirs && j < |img.dirs[d2]| && (d2 != d || j != k)
    requires IsDir(img.dirs[d2][j]) || (UserSlot(img, d2, j) && FileEntryOk(img, own, Loc(d2, j), img.dirs[d2][j]))
    ensures NodeOf(t, img.dirs[d2][j]) == NodeOf(img, img.dirs[d2][j])
  {
    hide Wf, IsDir;
    LeavingChainIs(img, own, depth, d, k, e, t);
    NoZeroChain(img, own, depth);
    var f := img.dirs[d2][j].first;
    if !IsDir(img.dirs[d2][j]) {
      assert f != 0 ==> f != ChainOf(img.dirs[d][k]) && f != ChainOf(e);
      assert f in t.files <==> f in img.files;
    }
  }

  // ---------- the calls on one name ----------

  lemma GrownLookup(img: Image, d: nat, d2: nat, n2: FName)
    requires d in img.dirs && img.free > 0
    ensures Lookup(Grown(img, d), d2, n2) == Lookup(img, d2, n2)
  {
    var slots := img.dirs[d] + FreeSlots();
    if d2 == d {
      assert forall j | 0 <= j < |img.dirs[d]| :: slots[j] == img.dirs[d][j];
      assert forall j | |img.dirs[d]| <= j < |slots| :: !Live(slots[j]);
      if Has(img.dirs[d], n2) {
        assert Matches(slots[Find(img.dirs[d], n2)], n2);
        assert Find(slots, n2) == Find(img.dirs[d], n2);
      }
    }
  }

  lemma WithRoomLookup(img: Image, d: nat, d2: nat, n2: FName)
    requires Room(img, d)
    ensures Lookup(WithRoom(img, d), d2, n2) == Lookup(img, d2, n2)
  {
    if FreeSlot(img.dirs[d]) >= |img.dirs[d]| { GrownLookup(img, d, d2, n2); }
  }

  /** A created file is found, and is empty, unless its name starts with byte 0xE5; nothing else changes. */
  lemma CreateLookup(img: Image, own: map<nat, Loc>, depth: map<nat, nat>, d: nat, n: FName, d2: nat, n2: FName)
    requires Wf(img, own, depth) && DOT !in n.base && n.base[0] != 0 && CreateIn(img, d, n).ok
    ensures Lookup(CreateIn(img, d, n).img, d2, n2) ==
            if d2 == d && n2 == n && n.base[0] != DIRENT_DELETED then Some(FileNode([])) else Lookup(img, d2, n2)
  {
    hide Wf, FitsSlot, FileChange, Lookup;
    var k, e, mid := FreeSlot(img.dirs[d]), NewFile(n), WithRoom(img, d);
    RoomKept(img, own, depth, d);
    StillMissing(img, d, n);
    PutFileFits(mid, own, depth, d, k, e);
    FileChangeLookup(mid, own, depth, d, k, e, SetSlot(mid, d, k, e), d2, n2);
    WithRoomLookup(img, d, d2, n2);
    EmptyBytes(SetSlot(mid, d, k, e), own, e);
    NoZeroChain(img, own, depth);
  }

  lemma EmptyBytes(img: Image, own: map<nat, Loc>, e: Dirent)
    requires e.size == 0
    ensures FileBytes(img, e) == []
  {
  }

  lemma OverwriteLookup(img: Image, own: map<nat, Loc>, depth: map<nat, nat>, d: nat, n: FName, data: seq<byte>,
                        ok: bool, t: Image, d2: nat, n2: FName)
    requires Wf(img, own, depth) && d in img.dirs && Has(img.dirs[d], n) && DOT !in n.base
    requires |data| <= 0x1_0000_0000 - 512 && !IsDir(img.dirs[d][Find(img.dirs[d], n)])
    requires Overwritten(img, d, Find(img.dirs[d], n), data, ok, t)
    ensures Lookup(t, d2, n2) == if d2 == d && n2 == n then Some(FileNode(if ok then data else [])) else Lookup(img, d2, n2)
  {
    hide Wf, FitsSlot, Swapped, Lookup;
    var k := Find(img.dirs[d], n);
    FoundEntry(img, own, depth, d, n);
    OverwriteSwaps(img, d, k, data, ok, t);
    SwapFits(img, own, depth, d, k, t.dirs[d][k], t);
    FileChangeLookup(img, own, depth, d, k, t.dirs[d][k], t, d2, n2);
    OverwrittenBytes(img, d, k, data, ok, t);
  }

  lemma OverwrittenBytes(img: Image, d: nat, k: nat, data: seq<byte>, ok: bool, t: Image)
    requires d in img.dirs && k < |img.dirs[d]| && |data| <= 0x1_0000_0000 - 512
    requires UserSlot(img, d, k) && !IsDir(img.dirs[d][k]) && Overwritten(img, d, k, data, ok, t)
    ensures d in t.dirs && k < |t.dirs[d]| && !IsDir(t.dirs[d][k]) && NameOf(t.dirs[d][k]) == NameOf(img.dirs[d][k])
    ensures Live(t.dirs[d][k]) && FileBytes(t, t.dirs[d][k]) == if ok then data else []
  {
    SectorsFor32IsRight(|data|);
    assert IsDir(t.dirs[d][k]) == IsDir(img.dirs[d][k]);
    hide FileChange, IsDir;
  }

  /** How many bytes an append to this entry stores. */
  function Fitting(img: Image, e: Dirent, extra: seq<byte>): (n: int)
    ensures n <= |extra|
  {
    if |extra| <= RoomToAppend(img, e) then |extra| else RoomToAppend(img, e)
  }

  lemma ExtendLookup(img: Image, own: map<nat, Loc>, depth: map<nat, nat>, d: nat, n: FName, extra: seq<byte>,
                     ok: bool, t: Image, d2: nat, n2: FName)
    requires Wf(img, own, depth) && d in img.dirs && Has(img.dirs[d], n) && DOT !in n.base
    requires !IsDir(img.dirs[d][Find(img.dirs[d], n)])
    requires FileExtended(img, d, Find(img.dirs[d], n), extra, ok, t)
    ensures var e := img.dirs[d][Find(img.dirs[d], n)];
      && 0 <= Fitting(img, e, extra)
      && Lookup(t, d2, n2) == if d2 == d && n2 == n then Some(FileNode(FileBytes(img, e) + extra[..Fitting(img, e, extra)]))
                              else Lookup(img, d2, n2)
  {
    hide Wf, FitsSlot, Swapped, Lookup;
    var k := Find(img.dirs[d], n);
    FoundEntry(img, own, depth, d, n);
    ExtendSwaps(img, own, depth, d, k, extra, ok, t);
    SwapFits(img, own, depth, d, k, t.dirs[d][k], t);
    FileChangeLookup(img, own, depth, d, k, t.dirs[d][k], t, d2, n2);
    FileBytesSize(img, own, Loc(d, k), img.dirs[d][k]);
    ExtendedBytes(img, d, k, extra, ok, t);
  }

  lemma ExtendedBytes(img: Image, d: nat, k: nat, extra: seq<byte>, ok: bool, t: Image)
    requires d in img.dirs && k < |img.dirs[d]| && UserSlot(img, d, k) && !IsDir(img.dirs[d][k])
    requires FileExtended(img, d, k, extra, ok, t) && |FileBytes(img, img.dirs[d][k])| == img.dirs[d][k].size
    ensures d in t.dirs && k < |t.dirs[d]| && !IsDir(t.dirs[d][k]) && NameOf(t.dirs[d][k]) == NameOf(img.dirs[d][k])
    ensures 0 <= Fitting(img, img.dirs[d][k], extra)
    ensures Live(t.dirs[d][k])
    ensures FileBytes(t, t.dirs[d][k]) == FileBytes(img, img.dirs[d][k]) + extra[..Fitting(img, img.dirs[d][k], extra)]
  {
    assert IsDir(t.dirs[d][k]) == IsDir(img.dirs[d][k]);
    hide FileChange, IsDir;
    var e2 := t.dirs[d][k];
    var all := FileBytes(img, img.dirs[d][k]) + extra[..Fitting(img, img.dirs[d][k], extra)];
    assert |all| == e2.size;
    if e2.first == 0 {
      assert e2.size == 0;
      EmptyBytes(t, map[], e2);
    } else {
      HeldBytes(t, e2, all);
    }
  }

  lemma HeldBytes(t: Image, e: Dirent, data: seq<byte>)
    requires e.first in t.files && FileHolds(t.files[e.first], data) && e.size == |data|
    ensures FileBytes(t, e) == data
  {
  }

  lemma DeleteLookup(img: Image, own: map<nat, Loc>, depth: map<nat, nat>, d: nat, n: FName, d2: nat, n2: FName)
    requires Wf(img, own, depth) && DOT !in n.base && DeleteIn(img, d, n).ok
    ensures Lookup(DeleteIn(img, d, n).img, d2, n2) == if d2 == d && n2 == n then None else Lookup(img, d2, n2)
  {
    hide Wf, Lookup;
    var o := DeleteIn(img, d, n);
    var k := Find(img.dirs[d], n);
    FoundEntry(img, own, depth, d, n);
    var e := Deleted(img.dirs[d][k]);
    assert FileChange(img, d, k, e, o.img);
    FileChangeLookup(img, own, depth, d, k, e, o.img, d2, n2);
  }

  // ---------- directories and names ----------

  /** A new directory is found under its name and holds its two dot entries; nothing else changes. */
  lemma MkdirLookup(img: Image, own: map<nat, Loc>, depth: map<nat, nat>, d: nat, n: FName, c: u16, t: Image, d2: nat, n2: FName)
    requires Wf(img, own, depth) && d in img.dirs && d < 0x1_0000 && img.free > 0 && Room(img.(free := img.free - 1), d)
    requires !Has(img.dirs[d], n) && DOT !in n.base && n.base[0] != 0 && n.base[0] != DIRENT_DELETED
    requires Made(img, d, n, c, t)
    ensures Lookup(t, d2, n2) ==
            if d2 == d && n2 == n then Some(DirNode(c))
            else if d2 == c then (if n2 == DOT_NAME then Some(DirNode(c)) else if n2 == DOTDOT_NAME then Some(DirNode(d)) else None)
            else Lookup(img, d2, n2)
  {
    hide Wf, Made, DirAdded;
    MadeIsAdded(img, own, depth, d, n, c, t);
    var less := img.(free := img.free - 1);
    WithRoomLookup(less, d, d2, n2);
    DirAddedLookup(WithRoom(less, d), own, depth, d, FreeSlot(img.dirs[d]), DirEntry(n, c), c, t, d2, n2);
  }

  lemma DirAddedLookup(img: Image, own: map<nat, Loc>, depth: map<nat, nat>, d: nat, k: nat, e: Dirent, c: nat, t: Image, d2: nat, n2: FName)
    requires Wf(img, own, depth) && DirAdded(img, d, k, e, c, t) && Live(e)
    ensures Lookup(t, d2, n2) ==
            if d2 == d && n2 == NameOf(e) then Some(DirNode(c))
            else if d2 == c then (if n2 == DOT_NAME then Some(DirNode(c)) else if n2 == DOTDOT_NAME then Some(DirNode(d)) else None)
            else Lookup(img, d2, n2)
  {
    hide Shape, DotsOk, EntriesOk, OwnersOk, DepthOk, FileBytes, IsDotEntry;
    SameFiles(img, t);
    if d2 == c {
      NewDirLookup(t, c, d, n2);
    } else if d2 == d {
      SlotNamesUnique(img.dirs[d], k, e);
      FindSet(img.dirs[d], k, e, n2);
    }
  }

  lemma NewDirLookup(t: Image, c: nat, parent: nat, n2: FName)
    requires c in t.dirs && IsNewDir(t.dirs[c], c, parent)
    ensures Lookup(t, c, n2) == if n2 == DOT_NAME then Some(DirNode(c)) else if n2 == DOTDOT_NAME then Some(DirNode(parent)) else None
  {
    var slots := t.dirs[c];
    NewDirNames(slots, c, parent);
    assert Matches(slots[0], DOT_NAME) && Matches(slots[1], DOTDOT_NAME);
    FindIs(slots, DOT_NAME, 0);
    FindIs(slots, DOTDOT_NAME, 1);
    if Has(slots, n2) {
      assert Find(slots, n2) < 2;
    }
  }

  /** A removed directory is no longer found, nor is anything in it; the rest is as before. */
  lemma RmdirLookup(img: Image, own: map<nat, Loc>, depth: map<nat, nat>, cwd: DirRef, d: nat, n: FName, d2: nat, n2: FName)
    requires Wf(img, own, depth) && DOT !in n.base && RmdirIn(img, cwd, d, n).ok
    ensures var h := img.dirs[d][Find(img.dirs[d], n)].first;
      Lookup(RmdirIn(img, cwd, d, n).img, d2, n2) ==
      if (d2 == d && n2 == n) || d2 == h then None else Lookup(img, d2, n2)
  {
    hide Shape, DotsOk, EntriesOk, OwnersOk, DepthOk, FileBytes, EmptyDir;
    var k := Find(img.dirs[d], n);
    FoundEntry(img, own, depth, d, n);
    NotOwnParent(img, own, depth, d, k);
    SameFiles(img, RmdirIn(img, cwd, d, n).img);
    if d2 == d {
      SlotNamesUnique(img.dirs[d], k, Deleted(img.dirs[d][k]));
      FindSet(img.dirs[d], k, Deleted(img.dirs[d][k]), n2);
    }
  }

  /** A renamed entry is found under the new name, with what it held, and no longer under the old one. */
  lemma RenameLookup(img: Image, own: map<nat, Loc>, depth: map<nat, nat>, d: nat, from: FName, to: FName, d2: nat, n2: FName)
    requires Wf(img, own, depth) && DOT !in from.base && DOT !in to.base && to.base[0] != 0 && to.base[0] != DIRENT_DELETED
    requires RenameIn(img, d, from, to).ok
    ensures Lookup(RenameIn(img, d, from, to).img, d2, n2) ==
            if d2 == d && n2 == to then Lookup(img, d, from)
            else if d2 == d && n2 == from then None
            else Lookup(img, d2, n2)
  {
    hide Shape, DotsOk, EntriesOk, OwnersOk, DepthOk, FileBytes;
    var k := Find(img.dirs[d], from);
    var e := img.dirs[d][k].(name := to.base, ext := to.ext);
    assert IsDir(e) == IsDir(img.dirs[d][k]);
    hide IsDir;
    FoundEntry(img, own, depth, d, from);
    RenamedBytes(img, SetSlot(img, d, k, e), img.dirs[d][k], e);
    if d2 == d {
      SlotNamesUnique(img.dirs[d], k, e);
      FindSet(img.dirs[d], k, e, n2);
    }
    SameFiles(img, SetSlot(img, d, k, e));
  }

  lemma RenamedBytes(img: Image, t: Image, e: Dirent, f: Dirent)
    requires t.files == img.files && e.first == f.first && e.size == f.size
    ensures FileBytes(t, f) == FileBytes(img, e)
  {
  }

  lemma SameFiles(img: Image, t: Image)
    requires t.files == img.files
    ensures forall e :: FileBytes(t, e) == FileBytes(img, e)
  {
  }

  // ---------- from names to paths ----------

  /** The directory a name leads to, if it names one. */
  function DirView(img: Image, d: nat, n: FName): Option<nat> {
    match Lookup(img, d, n)
    case Some(DirNode(id)) => Some(id)
    case _ => None
  }

  ghost predicate SameTree(img: Image, t: Image) {
    forall d, n :: DirView(t, d, n) == DirView(img, d, n)
  }

  lemma UpIsView(img: Image, own: map<nat, Loc>, depth: map<nat, nat>, d: DirRef)
    requires Wf(img, own, depth) && Present(img, d) && !d.isRoot
    ensures var v := DirView(img, Id(d), DOTDOT_NAME);
      v.Some? && v.value < 0x1_0000 && Up(img, d) == UpTo(d, v.value)
  {
    hide EntriesOk, OwnerOk, DepthOk, FileBytes;
    var slots := img.dirs[Id(d)];
    assert Id(d) in own;
    assert Matches(slots[1], DOTDOT_NAME);
    assert NamesUniqueIn(slots);
    FindIs(slots, DOTDOT_NAME, 1);
  }

  /** Walks only depend on the directories. */
  lemma {:induction false} SameTreeWalk(img: Image, own: map<nat, Loc>, depth: map<nat, nat>, t: Image, own2: map<nat, Loc>,
                                        depth2: map<nat, nat>, p: seq<byte>, d: DirRef)
    requires Wf(img, own, depth) && Wf(t, own2, depth2) && SameTree(img, t) && t.dirs.Keys == img.dirs.Keys && Present(img, d)
    ensures Walk(t, p, d) == Walk(img, p, d)
    decreases |p|
  {
    hide Wf, Up, Lookup, SplitName;
    if p != [] {
      var c := Comp(p);
      if c == [] || c == ONE_DOT {
        SameTreeWalk(img, own, depth, t, own2, depth2, Rest(p), d);
      } else if c == TWO_DOTS {
        if !d.isRoot {
          UpIsView(img, own, depth, d);
          UpIsView(t, own2, depth2, d);
        } else {
          assert Up(img, d) == d && Up(t, d) == d by { UpAtRoot(img, d); UpAtRoot(t, d); }
        }
        UpIsParent(img, own, depth, d);
        SameTreeWalk(img, own, depth, t, own2, depth2, Rest(p), Up(img, d));
      } else {
        assert DirView(t, Id(d), SplitName(c)) == DirView(img, Id(d), SplitName(c));
        DownIsLookup(img, own, depth, d, c);
        match Down(img, d, c)
        case None =>
        case Some(next) => SameTreeWalk(img, own, depth, t, own2, depth2, Rest(p), next);
      }
    }
  }

  lemma UpAtRoot(img: Image, d: DirRef)
    requires d.isRoot
    ensures Up(img, d) == d
  {
  }

  lemma RootThere(img: Image, own: map<nat, Loc>, depth: map<nat, nat>)
    requires Wf(img, own, depth)
    ensures Present(img, ROOT)
  {
  }

  lemma SameTreeAim(s: State, own: map<nat, Loc>, depth: map<nat, nat>, t: State, own2: map<nat, Loc>, depth2: map<nat, nat>, q: seq<byte>)
    requires Wf(s.img, own, depth) && Wf(t.img, own2, depth2) && SameTree(s.img, t.img) && t.img.dirs.Keys == s.img.dirs.Keys
    requires Present(s.img, s.cwd) && t.cwd == s.cwd
    ensures Aim(t, q) == Aim(s, q)
  {
    hide Wf, Walk, SameTree, Present;
    RootThere(s.img, own, depth);
    if q != [] && AfterLastSlash(q) > 0 {
      var dir := q[..Min(AfterLastSlash(q), DIRPART_MAX)];
      if IsAbsolute(dir) {
        SameTreeWalk(s.img, own, depth, t.img, own2, depth2, dir[1..], ROOT);
      } else {
        SameTreeWalk(s.img, own, depth, t.img, own2, depth2, dir, s.cwd);
      }
    }
  }

  /** Both paths stand for the same name in the same directory. */
  predicate SameTarget(s: State, p: seq<byte>, q: seq<byte>) {
    && Aim(s, p).Some? && Aim(s, q).Some?
    && Id(Aim(s, p).value.parent) == Id(Aim(s, q).value.parent)
    && SplitName(Aim(s, p).value.leaf) == SplitName(Aim(s, q).value.leaf)
  }

  function AsFile(node: Option<Node>): Option<seq<byte>> {
    match node
    case Some(FileNode(bytes)) => Some(bytes)
    case _ => None
  }

  predicate NoDir(node: Option<Node>) { node.Some? ==> node.value.FileNode? }

  /** If one name of one directory changes and no directory is involved, then of all paths exactly
      those that stand for that name read differently. */
  lemma OneNameChanged(s: State, own: map<nat, Loc>, depth: map<nat, nat>, p: seq<byte>, t: State, node: Option<Node>, q: seq<byte>)
    requires Wf(s.img, own, depth) && Present(s.img, s.cwd) && Sound(t.img)
    requires t.cwd == s.cwd && t.img.dirs.Keys == s.img.dirs.Keys && Aim(s, p).Some?
    requires var d, n := Id(Aim(s, p).value.parent), SplitName(Aim(s, p).value.leaf);
      && NoDir(node) && NoDir(Lookup(s.img, d, n))
      && forall d2, n2 :: Lookup(t.img, d2, n2) == if d2 == d && n2 == n then node else Lookup(s.img, d2, n2)
    ensures FileAt(t, q) == if SameTarget(s, p, q) then AsFile(node) else FileAt(s, q)
  {
    hide Wf, Aim, Lookup, SplitName;
    var own2, depth2 :| Wf(t.img, own2, depth2);
    var d, n := Id(Aim(s, p).value.parent), SplitName(Aim(s, p).value.leaf);
    forall d2, n2
      ensures DirView(t.img, d2, n2) == DirView(s.img, d2, n2)
    {
      assert Lookup(t.img, d2, n2) == if d2 == d && n2 == n then node else Lookup(s.img, d2, n2);
    }
    SameTreeAim(s, own, depth, t, own2, depth2, q);
  }
}
