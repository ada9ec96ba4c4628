/** What each kind of update does to a well-formed image. */
module Soundness {
  import opened Types
  import opened Layout
  import opened Codec
  import opened Names
  import opened Images

  /** The chain an entry accounts for, 0 when it has none. */
  function ChainOf(e: Dirent): u16 { if Live(e) then e.first else 0 }

  /** Same directories, same owners, same dot entries: the tree has not changed. */
  lemma StructureKept(img: Image, t: Image, own: map<nat, Loc>, own2: map<nat, Loc>, depth: map<nat, nat>)
    requires DotsOk(img, own) && DepthOk(img, own, depth) && t.dirs.Keys == img.dirs.Keys
    requires forall h | h in img.dirs && h != 0 :: h in own && h in own2 && own2[h] == own[h]
    requires forall h | h in img.dirs && h != 0 && |img.dirs[h]| >= 2 ::
               |t.dirs[h]| >= 2 && t.dirs[h][0] == img.dirs[h][0] && t.dirs[h][1] == img.dirs[h][1]
    ensures DotsOk(t, own2) && DepthOk(t, own2, depth)
  {
  }

  lemma DotsOwned(img: Image, own: map<nat, Loc>)
    requires DotsOk(img, own)
    ensures forall h | h in img.dirs && h != 0 :: h in own && |img.dirs[h]| >= 2
  {
  }

  // ---------- one slot of files changes ----------

  /** Slot `k` of directory `d` becomes `e`, and the file chains change to match. */
  ghost predicate FileChange(img: Image, d: nat, k: nat, e: Dirent, t: Image) {
    && d in img.dirs && k < |img.dirs[d]|
    && t.dirs == img.dirs[d := img.dirs[d][k := e]]
    && (if ChainOf(e) == 0 then t.files == img.files - {ChainOf(img.dirs[d][k])}
        else && ChainOf(e) in t.files
             && t.files == (img.files - {ChainOf(img.dirs[d][k])})[ChainOf(e) := t.files[ChainOf(e)]])
  }

  /** The slot may hold a file, a dead entry or `e`, and `e` is fit to stand there. */
  ghost predicate FitsSlot(img: Image, d: nat, k: nat, e: Dirent, t: Image)
    requires FileChange(img, d, k, e, t)
  {
    var was := img.dirs[d][k];
    && (d != 0 ==> k >= 2)
    && (Live(was) ==> !IsDir(was))
    && (Live(e) ==>
          && !IsDir(e) && e.name[0] != DOT
          && (e.size == 0 <==> e.first == 0)
          && (forall j | 0 <= j < |img.dirs[d]| && j != k :: !Matches(img.dirs[d][j], NameOf(e))))
    && (ChainOf(e) != 0 ==>
          && DataCluster(e.first) && e.first !in img.dirs
          && (e.first in img.files ==> e.first == ChainOf(was))
          && |t.files[e.first]| == SectorsFor(e.size))
  }

  ghost function OwnAfter(own: map<nat, Loc>, was: Dirent, e: Dirent, loc: Loc): map<nat, Loc> {
    var kept := own - {ChainOf(was) as nat};
    if ChainOf(e) == 0 then kept else kept[ChainOf(e) as nat := loc]
  }

  lemma FileChangeEntries(img: Image, own: map<nat, Loc>, d: nat, k: nat, e: Dirent, t: Image)
    requires Shape(img) && EntriesOk(img, own)
    requires FileChange(img, d, k, e, t) && FitsSlot(img, d, k, e, t)
    ensures EntriesOk(t, OwnAfter(own, img.dirs[d][k], e, Loc(d, k)))
  {
    var own2 := OwnAfter(own, img.dirs[d][k], e, Loc(d, k));
    var was := img.dirs[d][k];
    if Live(was) { assert UserSlot(img, d, k); }
    forall i: nat, j: nat {:trigger UserSlot(t, i, j)} | UserSlot(t, i, j)
      ensures EntryOk(t, own2, Loc(i, j), t.dirs[i][j])
    {
      if i != d || j != k {
        assert UserSlot(img, i, j);
      }
    }
  }

  /** The chain that leaves the slot is a file's, and the slot was its owner. */
  lemma LeavingChain(img: Image, own: map<nat, Loc>, d: nat, k: nat)
    requires EntriesOk(img, own) && d in img.dirs && k < |img.dirs[d]| && (d != 0 ==> k >= 2)
    requires Live(img.dirs[d][k]) ==> !IsDir(img.dirs[d][k])
    ensures var was := ChainOf(img.dirs[d][k]);
      was != 0 ==> was in img.files && was in own && own[was] == Loc(d, k)
  {
    if Live(img.dirs[d][k]) { assert UserSlot(img, d, k); }
  }

  lemma FileChangeOwners(img: Image, own: map<nat, Loc>, d: nat, k: nat, e: Dirent, t: Image)
    requires Shape(img) && EntriesOk(img, own) && OwnersOk(img, own)
    requires FileChange(img, d, k, e, t) && FitsSlot(img, d, k, e, t)
    ensures OwnersOk(t, OwnAfter(own, img.dirs[d][k], e, Loc(d, k)))
  {
    hide IsDir;
    LeavingChain(img, own, d, k);
    FileChangeKeys(img, own, d, k, e, t);
    hide EntriesOk, Shape, OwnerOk;
    var own2 := OwnAfter(own, img.dirs[d][k], e, Loc(d, k));
    forall h | h in own2
      ensures OwnerOk(t, own2, h)
    {
      if h != ChainOf(e) { OwnerKept(img, own, own2, d, k, e, t, h); } else { OwnerNew(img, own2, d, k, e, t); }
    }
  }

  lemma OwnerNew(img: Image, own2: map<nat, Loc>, d: nat, k: nat, e: Dirent, t: Image)
    requires d in img.dirs && k < |img.dirs[d]| && t.dirs == img.dirs[d := img.dirs[d][k := e]] && (d != 0 ==> k >= 2)
    requires ChainOf(e) != 0 && e.first in own2 && own2[e.first] == Loc(d, k) && (IsDir(e) <==> e.first in img.dirs)
    ensures OwnerOk(t, own2, e.first)
  {
  }

  lemma OwnerKept(img: Image, own: map<nat, Loc>, own2: map<nat, Loc>, d: nat, k: nat, e: Dirent, t: Image, h: nat)
    requires OwnersOk(img, own) && h in own && h in own2 && own2[h] == own[h]
    requires d in img.dirs && k < |img.dirs[d]| && t.dirs == img.dirs[d := img.dirs[d][k := e]]
    requires h != ChainOf(img.dirs[d][k])
    ensures OwnerOk(t, own2, h)
  {
    assert OwnerOk(img, own, h);
  }

  lemma FileChangeKeys(img: Image, own: map<nat, Loc>, d: nat, k: nat, e: Dirent, t: Image)
    requires Shape(img) && OwnersOk(img, own)
    requires FileChange(img, d, k, e, t) && FitsSlot(img, d, k, e, t)
    requires ChainOf(img.dirs[d][k]) != 0 ==> ChainOf(img.dirs[d][k]) in img.files
    ensures t.dirs.Keys == img.dirs.Keys
    ensures OwnAfter(own, img.dirs[d][k], e, Loc(d, k)).Keys == (t.dirs.Keys - {0}) + t.files.Keys
  {
    hide IsDir;
  }

  lemma FileChangeDirOwners(img: Image, own: map<nat, Loc>, d: nat, k: nat, e: Dirent, t: Image)
    requires Shape(img) && EntriesOk(img, own) && DotsOk(img, own)
    requires FileChange(img, d, k, e, t) && FitsSlot(img, d, k, e, t)
    ensures t.dirs.Keys == img.dirs.Keys
    ensures forall h | h in img.dirs && h != 0 ::
              h in own && h in OwnAfter(own, img.dirs[d][k], e, Loc(d, k)) && OwnAfter(own, img.dirs[d][k], e, Loc(d, k))[h] == own[h]
  {
    LeavingChain(img, own, d, k);
  }

  lemma FileChangeShape(img: Image, d: nat, k: nat, e: Dirent, t: Image)
    requires Shape(img) && FileChange(img, d, k, e, t) && FitsSlot(img, d, k, e, t)
    ensures Shape(t)
  {
  }

  lemma SlotNamesUnique(slots: seq<Dirent>, k: nat, e: Dirent)
    requires NamesUniqueIn(slots) && k < |slots|
    requires Live(e) ==> forall j | 0 <= j < |slots| && j != k :: !Matches(slots[j], NameOf(e))
    ensures NamesUniqueIn(slots[k := e])
  {
  }

  lemma FileChangeWf(img: Image, own: map<nat, Loc>, depth: map<nat, nat>, d: nat, k: nat, e: Dirent, t: Image)
    requires Wf(img, own, depth)
    requires FileChange(img, d, k, e, t) && FitsSlot(img, d, k, e, t)
    ensures Wf(t, OwnAfter(own, img.dirs[d][k], e, Loc(d, k)), depth)
  {
    hide Shape, DotsOk, EntriesOk, OwnersOk, DepthOk, NamesUniqueIn, OwnAfter;
    FileChangeEntries(img, own, d, k, e, t);
    FileChangeOwners(img, own, d, k, e, t);
    FileChangeDirOwners(img, own, d, k, e, t);
    var own2 := OwnAfter(own, img.dirs[d][k], e, Loc(d, k));
    FileChangeShape(img, d, k, e, t);
    StructureKept(img, t, own, own2, depth);
    SlotNamesUnique(img.dirs[d], k, e);
  }

  // ---------- a subdirectory gets one more cluster ----------

  lemma GrownEntries(img: Image, own: map<nat, Loc>, d: nat)
    requires EntriesOk(img, own) && d in img.dirs && img.free > 0
    ensures EntriesOk(Grown(img, d), own)
  {
    var t := Grown(img, d);
    forall i: nat, j: nat {:trigger UserSlot(t, i, j)} | UserSlot(t, i, j)
      ensures EntryOk(t, own, Loc(i, j), t.dirs[i][j])
    {
      assert UserSlot(img, i, j);
    }
  }

  lemma GrownOwners(img: Image, own: map<nat, Loc>, d: nat)
    requires OwnersOk(img, own) && d in img.dirs && img.free > 0
    ensures OwnersOk(Grown(img, d), own)
  {
    forall h | h in own
      ensures OwnerOk(Grown(img, d), own, h)
    {
      assert OwnerOk(img, own, h);
    }
  }

  lemma GrownShape(img: Image, d: nat)
    requires Shape(img) && d in img.dirs && d != 0 && img.free > 0
    ensures Shape(Grown(img, d))
  {
    assert (|img.dirs[d]| + 16) % 16 == |img.dirs[d]| % 16;
  }

  lemma GrownNames(slots: seq<Dirent>)
    requires NamesUniqueIn(slots)
    ensures NamesUniqueIn(slots + FreeSlots())
  {
  }

  lemma GrownWf(img: Image, own: map<nat, Loc>, depth: map<nat, nat>, d: nat)
    requires Wf(img, own, depth) && d in img.dirs && d != 0 && img.free > 0
    ensures Wf(Grown(img, d), own, depth)
  {
    hide EntriesOk, OwnersOk, DotsOk, DepthOk, NamesUniqueIn, Shape;
    GrownEntries(img, own, d);
    GrownOwners(img, own, d);
    GrownShape(img, d);
    GrownNames(img.dirs[d]);
    DotsOwned(img, own);
    StructureKept(img, Grown(img, d), own, own, depth);
  }

  // ---------- a subdirectory appears ----------

  predicate IsNewDir(slots: seq<Dirent>, c: nat, parent: nat) {
    && |slots| == 16
    && IsDotEntry(slots[0], DOT_NAME, c) && IsDotEntry(slots[1], DOTDOT_NAME, parent)
    && (forall i | 2 <= i < 16 :: !Live(slots[i]))
  }

  /** Directory `c` comes into being under slot `k` of directory `d`. */
  ghost predicate DirAdded(img: Image, d: nat, k: nat, e: Dirent, c: nat, t: Image) {
    && d in img.dirs && k < |img.dirs[d]| && (d != 0 ==> k >= 2) && !Live(img.dirs[d][k])
    && DataCluster(c) && c !in img.dirs && c !in img.files
    && IsDir(e) && e.first == c && e.name[0] != DOT
    && (Live(e) ==> forall j | 0 <= j < |img.dirs[d]| && j != k :: !Matches(img.dirs[d][j], NameOf(e)))
    && c in t.dirs && IsNewDir(t.dirs[c], c, d)
    && t.dirs == img.dirs[d := img.dirs[d][k := e]][c := t.dirs[c]]
    && t.files == img.files
  }

  lemma DirAddedEntries(img: Image, own: map<nat, Loc>, d: nat, k: nat, e: Dirent, c: nat, t: Image)
    requires EntriesOk(img, own) && DirAdded(img, d, k, e, c, t) && c !in own
    ensures EntriesOk(t, own[c := Loc(d, k)])
  {
    forall i: nat, j: nat {:trigger UserSlot(t, i, j)} | UserSlot(t, i, j)
      ensures EntryOk(t, own[c := Loc(d, k)], Loc(i, j), t.dirs[i][j])
    {
      if i != c && (i != d || j != k) { assert UserSlot(img, i, j); }
    }
  }

  lemma DirAddedOwners(img: Image, own: map<nat, Loc>, d: nat, k: nat, e: Dirent, c: nat, t: Image)
    requires OwnersOk(img, own) && DirAdded(img, d, k, e, c, t) && Live(e) && c != 0
    ensures OwnersOk(t, own[c := Loc(d, k)])
  {
    var own2 := own[c := Loc(d, k)];
    assert own2.Keys == (t.dirs.Keys - {0}) + t.files.Keys;
    forall h | h in own2
      ensures OwnerOk(t, own2, h)
    {
      if h != c { assert OwnerOk(img, own, h); }
    }
  }

  lemma DirAddedNames(img: Image, d: nat, k: nat, e: Dirent, c: nat, t: Image)
    requires NamesUnique(img) && DirAdded(img, d, k, e, c, t)
    ensures NamesUnique(t)
  {
    SlotNamesUnique(img.dirs[d], k, e);
    hide NamesUniqueIn;
    assert NamesUniqueIn(t.dirs[c]) by { NewDirNames(t.dirs[c], c, d); }
  }

  lemma NewDirNames(slots: seq<Dirent>, c: nat, parent: nat)
    requires IsNewDir(slots, c, parent)
    ensures NamesUniqueIn(slots)
  {
    assert slots[0].name[1] == SPACE && slots[1].name[1] == DOT;
  }

  lemma DirAddedFresh(img: Image, own: map<nat, Loc>, c: nat)
    requires OwnersOk(img, own) && c !in img.dirs && c !in img.files
    ensures c !in own
  {
  }

  lemma DirAddedShape(img: Image, d: nat, k: nat, e: Dirent, c: nat, t: Image)
    requires Shape(img) && DirAdded(img, d, k, e, c, t)
    ensures Shape(t)
  {
  }

  lemma DirAddedDots(img: Image, own: map<nat, Loc>, d: nat, k: nat, e: Dirent, c: nat, t: Image)
    requires DotsOk(img, own) && DirAdded(img, d, k, e, c, t)
    ensures DotsOk(t, own[c := Loc(d, k)])
  {
    hide IsDotEntry;
  }

  lemma DirAddedDepth(img: Image, own: map<nat, Loc>, depth: map<nat, nat>, d: nat, k: nat, e: Dirent, c: nat, t: Image)
    requires DepthOk(img, own, depth) && DirAdded(img, d, k, e, c, t)
    ensures d in depth && DepthOk(t, own[c := Loc(d, k)], depth[c := depth[d] + 1])
  {
  }

  lemma DirAddedWf(img: Image, own: map<nat, Loc>, depth: map<nat, nat>, d: nat, k: nat, e: Dirent, c: nat, t: Image)
    requires Wf(img, own, depth) && DirAdded(img, d, k, e, c, t) && Live(e)
    ensures d in depth && Wf(t, own[c := Loc(d, k)], depth[c := depth[d] + 1])
  {
    hide EntriesOk, OwnersOk, DotsOk, DepthOk, NamesUnique, Shape;
    DirAddedFresh(img, own, c);
    DirAddedEntries(img, own, d, k, e, c, t);
    DirAddedOwners(img, own, d, k, e, c, t);
    DirAddedNames(img, d, k, e, c, t);
    DirAddedShape(img, d, k, e, c, t);
    DirAddedDots(img, own, d, k, e, c, t);
    DirAddedDepth(img, own, depth, d, k, e, c, t);
  }

  // ---------- an empty subdirectory goes away ----------

  /** Directory `h`, owned by slot `k` of directory `d`, is gone and the slot is dead. */
  ghost predicate DirRemoved(img: Image, d: nat, k: nat, e: Dirent, h: nat, t: Image) {
    && UserSlot(img, d, k) && IsDir(img.dirs[d][k]) && img.dirs[d][k].first == h
    && h != 0 && h in img.dirs && h != d
    && (forall i | 2 <= i < |img.dirs[h]| :: !Live(img.dirs[h][i]))
    && !Live(e)
    && t.dirs == (img.dirs - {h})[d := img.dirs[d][k := e]]
    && t.files == img.files
  }

  /** Only the removed entry led to the removed directory. */
  lemma DirRemovedEntries(img: Image, own: map<nat, Loc>, d: nat, k: nat, e: Dirent, h: nat, t: Image)
    requires EntriesOk(img, own) && DirRemoved(img, d, k, e, h, t) && Shape(img)
    ensures EntriesOk(t, own - {h})
  {
    assert UserSlot(img, d, k);
    forall i: nat, j: nat {:trigger UserSlot(t, i, j)} | UserSlot(t, i, j)
      ensures EntryOk(t, own - {h}, Loc(i, j), t.dirs[i][j])
    {
      assert UserSlot(img, i, j);
    }
  }

  lemma DirRemovedOwners(img: Image, own: map<nat, Loc>, d: nat, k: nat, e: Dirent, h: nat, t: Image)
    requires OwnersOk(img, own) && DirRemoved(img, d, k, e, h, t) && Shape(img)
    ensures OwnersOk(t, own - {h})
  {
    hide OwnerOk;
    var own2 := own - {h};
    assert own2.Keys == (t.dirs.Keys - {0}) + t.files.Keys;
    forall g | g in own2
      ensures OwnerOk(t, own2, g)
    {
      DirRemovedOwner(img, own, d, k, e, h, t, g);
    }
  }

  lemma DirRemovedOwner(img: Image, own: map<nat, Loc>, d: nat, k: nat, e: Dirent, h: nat, t: Image, g: nat)
    requires OwnersOk(img, own) && DirRemoved(img, d, k, e, h, t) && g in own && g != h
    ensures OwnerOk(t, own - {h}, g)
  {
    hide IsDir;
    assert OwnerOk(img, own, g);
  }

  lemma DirRemovedDepth(img: Image, own: map<nat, Loc>, depth: map<nat, nat>, d: nat, k: nat, e: Dirent, h: nat, t: Image)
    requires DepthOk(img, own, depth) && OwnersOk(img, own) && DirRemoved(img, d, k, e, h, t)
    ensures DepthOk(t, own - {h}, depth - {h})
  {
    forall g | g in t.dirs && g != 0
      ensures g in own && own[g].dir in depth - {h}
    {
      assert OwnerOk(img, own, g);
    }
  }

  lemma DirRemovedShape(img: Image, d: nat, k: nat, e: Dirent, h: nat, t: Image)
    requires Shape(img) && DirRemoved(img, d, k, e, h, t)
    ensures Shape(t)
  {
  }

  lemma DirRemovedDots(img: Image, own: map<nat, Loc>, d: nat, k: nat, e: Dirent, h: nat, t: Image)
    requires DotsOk(img, own) && DirRemoved(img, d, k, e, h, t)
    ensures DotsOk(t, own - {h})
  {
    hide IsDotEntry;
  }

  lemma DirRemovedWf(img: Image, own: map<nat, Loc>, depth: map<nat, nat>, d: nat, k: nat, e: Dirent, h: nat, t: Image)
    requires Wf(img, own, depth) && DirRemoved(img, d, k, e, h, t)
    ensures Wf(t, own - {h}, depth - {h})
  {
    hide EntriesOk, OwnersOk, DotsOk, DepthOk, NamesUniqueIn, Shape;
    DirRemovedEntries(img, own, d, k, e, h, t);
    DirRemovedOwners(img, own, d, k, e, h, t);
    DirRemovedDepth(img, own, depth, d, k, e, h, t);
    DirRemovedShape(img, d, k, e, h, t);
    DirRemovedDots(img, own, d, k, e, h, t);
    SlotNamesUnique(img.dirs[d], k, e);
  }

  // ---------- an entry gets another name ----------

  /** Slot `k` of directory `d` keeps everything but its name. */
  ghost predicate Renamed(img: Image, d: nat, k: nat, n: FName, t: Image) {
    && UserSlot(img, d, k) && n.base[0] != DOT && n.base[0] != 0
    && (forall j | 0 <= j < |img.dirs[d]| :: !Matches(img.dirs[d][j], n))
    && t == SetSlot(img, d, k, img.dirs[d][k].(name := n.base, ext := n.ext))
  }

  lemma RenamedWf(img: Image, own: map<nat, Loc>, depth: map<nat, nat>, d: nat, k: nat, n: FName, t: Image)
    requires Wf(img, own, depth) && Renamed(img, d, k, n, t) && n.base[0] != DIRENT_DELETED
    ensures Wf(t, own, depth)
  {
    hide EntriesOk, OwnersOk, DotsOk, DepthOk, NamesUniqueIn, Shape;
    var e := t.dirs[d][k];
    RenamedEntries(img, own, d, k, n, t);
    RenamedOwners(img, own, d, k, n, t);
    RenamedShape(img, d, k, n, t);
    DotsOwned(img, own);
    StructureKept(img, t, own, own, depth);
    SlotNamesUnique(img.dirs[d], k, e);
  }

  lemma RenamedEntries(img: Image, own: map<nat, Loc>, d: nat, k: nat, n: FName, t: Image)
    requires EntriesOk(img, own) && Renamed(img, d, k, n, t)
    ensures EntriesOk(t, own)
  {
    assert IsDir(t.dirs[d][k]) == IsDir(img.dirs[d][k]);
    hide IsDir;
    assert UserSlot(img, d, k);
    forall i: nat, j: nat {:trigger UserSlot(t, i, j)} | UserSlot(t, i, j)
      ensures EntryOk(t, own, Loc(i, j), t.dirs[i][j])
    {
      assert UserSlot(img, i, j);
    }
  }

  lemma RenamedOwners(img: Image, own: map<nat, Loc>, d: nat, k: nat, n: FName, t: Image)
    requires OwnersOk(img, own) && Renamed(img, d, k, n, t) && n.base[0] != DIRENT_DELETED
    ensures OwnersOk(t, own)
  {
    assert IsDir(t.dirs[d][k]) == IsDir(img.dirs[d][k]);
    hide IsDir;
    forall h | h in own
      ensures OwnerOk(t, own, h)
    {
      assert OwnerOk(img, own, h);
    }
  }

  lemma RenamedShape(img: Image, d: nat, k: nat, n: FName, t: Image)
    requires Shape(img) && Renamed(img, d, k, n, t)
    ensures Shape(t)
  {
  }
}
