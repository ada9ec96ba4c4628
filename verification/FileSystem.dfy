/** RinkFS16: path walking and the public calls. */
module FileSystems {
  import opened Types
  import opened Layout
  import opened Codec
  import opened Volumes
  import opened Names
  import opened Images
  import opened Paths
  import opened PathTexts
  import opened Calls
  import opened Keeping
  import opened Runs
  import opened Directories
  import opened Sectors
  import opened Growth
  import Exactness

  /** "RINKFS16", at offset 54 of the boot sector. */
  const MARKER: seq<byte> := [0x52, 0x49, 0x4E, 0x4B, 0x46, 0x53, 0x31, 0x36]
  const MARKER_OFFSET := 54

  predicate Marked(boot: Sector) { boot[MARKER_OFFSET..MARKER_OFFSET + 8] == MARKER }

  /** A freshly formatted volume is sound: nothing in it, everything free. */
  lemma EmptySound(root: seq<Dirent>)
    requires |root| == ROOT_ENTRIES && forall i | 0 <= i < ROOT_ENTRIES :: root[i].name[0] == DIRENT_FREE
    ensures Sound(Image(map[0 := root], map[], DATA_CLUSTERS))
  {
    var img := Image(map[0 := root], map[], DATA_CLUSTERS);
    assert Wf(img, map[], map[0 := 0]);
  }

  class FileSystem {
    const dirs: DirStore
    var cwdIsRoot: bool
    var cwdCluster: u16
    var cwdPath: CStr

    /** The statics of the kernel before `fs_init`. */
    constructor (d: DirStore)
      ensures dirs == d
      ensures Cwd() == ROOT && cwdPath == [SLASH]
    {
      dirs := d;
      cwdIsRoot, cwdCluster, cwdPath := true, 0, [SLASH];
    }

    ghost function Cwd(): DirRef
      reads this
    {
      DirRef(cwdIsRoot, cwdCluster)
    }

    ghost function State(): State
      reads this, dirs
    {
      Calls.State(dirs.img, Cwd(), cwdPath)
    }

    ghost function Front(): FrontPart
      reads dirs, dirs.vol, dirs.vol.disk
    {
      dirs.Front()
    }

    /** Memory and disk agree, everything on the volume is in its place, and so is the current directory. */
    ghost predicate Ready()
      reads this, dirs, dirs.root, dirs.vol, dirs.vol.disk
    {
      dirs.Valid() && Sound(dirs.img) && Present(dirs.img, Cwd()) && |cwdPath| <= PATH_MAX
    }

    method CwdDir() returns (d: DirRef)
      ensures d == Cwd()
    {
      d := DirRef(cwdIsRoot, cwdCluster);
    }

    // ---------- paths ----------

    /** `str_copy_n`: at most `max - 1` characters. */
    method StrCopyN(src: CStr, max: nat) returns (dst: CStr)
      requires max > 0
      ensures dst == src[..Min(|src|, max - 1)]
    {
      dst := [];
      var i := 0;
      while i < |src| && i < max - 1
        invariant i <= Min(|src|, max - 1) && dst == src[..i]
      {
        dst := dst + [src[i]];
        i := i + 1;
      }
    }

    /** `walk_path`; no text is kept when `buf` is None. */
    method WalkTo(path: CStr, dir: DirRef, buf: Option<CStr>) returns (ok: bool, d: DirRef, text: Option<CStr>)
      requires dirs.Valid() && Sound(dirs.img) && Present(dirs.img, dir)
      ensures match WalkPath(dirs.img, path, dir)
              case None => !ok
              case Some(r) => ok && d == r && Present(dirs.img, d)
      ensures ok && buf.Some? ==> text == Some(WalkPathText(dirs.img, path, dir, buf.value))
    {
      hide Wf, DirStore.Valid, Up, Down, Present, Comp, SkipSlashes, SplitName, Display, Appended, Trimmed;
      ghost var own, depth :| Wf(dirs.img, own, depth);
      d := dir;
      text := buf;
      var p: CStr := path;
      if p != [] && p[0] == SLASH {
        dirs.RootPresent();
        d := ROOT;
        if text.Some? { text := Some([SLASH]); }
        p := p[1..];
      }
      while p != []
        invariant Present(dirs.img, d)
        invariant Walk(dirs.img, p, d) == WalkPath(dirs.img, path, dir)
        invariant buf.Some? ==> text.Some? && WalkText(dirs.img, p, d, text.value) == WalkPathText(dirs.img, path, dir, buf.value)
        invariant buf.None? ==> text.None?
        decreases |p|
      {
        var comp := NextComponent(p);
        p := SkipSlash(p[|comp|..]);
        if comp == [] || comp == ONE_DOT { continue; }
        if comp == TWO_DOTS {
          UpIsParent(dirs.img, own, depth, d);
          d := StepUp(d);
          if text.Some? {
            var t := TrimLast(text.value);
            text := Some(t);
          }
          continue;
        }
        DownIsLookup(dirs.img, own, depth, d, comp);
        var found, next := StepDown(d, comp);
        if !found { return false, d, text; }
        d := next;
        if text.Some? {
          var n := ParseName(comp);
          var t := AppendName(text.value, n);
          text := Some(t);
        }
      }
      ok := true;
    }

    /** ".." is read from the directory; a directory without one stays where it is. */
    method StepUp(d: DirRef) returns (r: DirRef)
      requires dirs.Valid() && Present(dirs.img, d)
      ensures r == Up(dirs.img, d)
    {
      hide DirStore.Valid;
      r := d;
      if !d.isRoot {
        var found, e, loc := dirs.DirScan(d, DOTDOT_NAME);
        if found {
          if e.first == 0 { r := r.(isRoot := true); } else { r := DirRef(false, e.first); }
        }
      }
    }

    /** A component must be the name of a directory here. */
    method StepDown(d: DirRef, comp: CStr) returns (ok: bool, r: DirRef)
      requires dirs.Valid() && Present(dirs.img, d)
      ensures match Down(dirs.img, d, comp)
              case None => !ok
              case Some(next) => ok && r == next
    {
      hide DirStore.Valid, SplitName;
      r := d;
      var n := ParseName(comp);
      var found, e, loc := dirs.DirScan(d, n);
      if !found { return false, r; }
      if !IsDir(e) { return false, r; }
      return true, DirRef(false, e.first);
    }

    /** The first loop of `walk_path`: up to 12 bytes, stopping at a slash. */
    method NextComponent(p: CStr) returns (comp: CStr)
      ensures comp == Comp(p)
    {
      var t := Until(p, SLASH);
      var i := 0;
      while i < |p| && p[i] != SLASH && i < COMPONENT_MAX
        invariant i <= |t| && i <= COMPONENT_MAX
      {
        i := i + 1;
      }
      comp := p[..i];
    }

    /** The second: past all slashes. */
    method SkipSlash(p: CStr) returns (r: CStr)
      ensures r == SkipSlashes(p)
    {
      r := p;
      while r != [] && r[0] == SLASH
        invariant SkipSlashes(r) == SkipSlashes(p)
        decreases |r|
      {
        r := r[1..];
      }
    }

    /** `resolve_parent`: the directory a path ends in and the leaf after its last slash. */
    method FindParent(path: CStr) returns (ok: bool, dir: DirRef, leaf: CStr)
      requires Ready()
      ensures match Aim(State(), path)
              case None => !ok
              case Some(t) => ok && dir == t.parent && leaf == t.leaf && Present(dirs.img, dir)
    {
      hide Wf, DirStore.Valid, Walk;
      dir := CwdDir();
      leaf := [];
      if path == [] { return false, dir, leaf; }
      var after := 0;
      var len := 0;
      while len < |path|
        invariant len <= |path| && after == AfterLastSlash(path[..len])
      {
        assert path[..len + 1][..len] == path[..len];
        if path[len] == SLASH { after := len + 1; }
        len := len + 1;
      }
      assert path[..len] == path;
      leaf := StrCopyN(path[after..], COMPONENT_MAX + 1);
      if after == 0 { return true, dir, leaf; }
      var dirpart := path[..Min(after, DIRPART_MAX)];
      var text;
      ok, dir, text := WalkTo(dirpart, dir, None);
    }

    // ---------- public calls ----------

    method FsCreate(path: CStr) returns (ok: bool)
      requires Ready()
      modifies dirs`img, dirs.root, dirs.vol`x, dirs.vol`store, dirs.vol.disk
      ensures dirs.Valid() && Front() == old(Front())
      ensures CreateStep(old(State()), path, ok, State())
      ensures !ok ==> dirs.vol.disk[..] == old(dirs.vol.disk[..]) && dirs.Table() == old(dirs.Table())
    {
      hide Wf, DirStore.Valid, Aim, SplitName, IterAt, Present;
      var found, parent, leaf := FindParent(path);
      if !found { return false; }
      if leaf == [] { return false; }
      var n := ParseName(leaf);
      var exists_, e0, loc0 := dirs.DirScan(parent, n);
      if exists_ { return false; }
      var room, loc := dirs.DirFindFree(parent);
      if !room { return false; }
      RoomPresent(old(dirs.img), parent);
      dirs.DirWriteEntry(loc, NewFile(n), parent, FreeSlot(old(dirs.img).dirs[Id(parent)]));
      return true;
    }

    lemma RoomPresent(img: Image, d: DirRef)
      requires Present(img, d) && Room(img, Id(d))
      ensures Present(WithRoom(img, Id(d)), d)
    {
    }

    method FsDelete(path: CStr) returns (ok: bool)
      requires Ready()
      modifies dirs`img, dirs.root, dirs.vol`x, dirs.vol`store, dirs.vol.disk
      ensures dirs.Valid() && Front() == old(Front())
      ensures DeleteStep(old(State()), path, ok, State())
      ensures !ok ==> dirs.vol.disk[..] == old(dirs.vol.disk[..]) && dirs.Table() == old(dirs.Table())
    {
      hide Wf, DirStore.Valid, Aim, SplitName, IterAt, LocIs;
      ghost var own, depth :| Wf(dirs.img, own, depth);
      var found, parent, leaf := FindParent(path);
      if !found { return false; }
      var n := ParseName(leaf);
      SplitNameHasNoDot(leaf);
      var there, d, loc := dirs.DirScan(parent, n);
      if !there { return false; }
      FoundEntry(dirs.img, own, depth, Id(parent), n);
      if IsDir(d) { return false; }
      ghost var k := Find(dirs.img.dirs[Id(parent)], n);
      NoZeroChain(dirs.img, own, depth);
      if d.first != 0 {
        dirs.ReleaseFile(d.first);
        LocKept(dirs.img, old(dirs.vol.x.ch), dirs.vol.x.ch, loc, parent, k);
      }
      assert d.first == 0 ==> dirs.img.files - {0} == dirs.img.files;
      dirs.DirWriteEntry(loc, Deleted(d), parent, k);
      return true;
    }

    method FsRename(path: CStr, to: CStr) returns (ok: bool)
      requires Ready()
      modifies dirs`img, dirs.root, dirs.vol`store, dirs.vol.disk
      ensures dirs.Valid() && Front() == old(Front())
      ensures RenameStep(old(State()), path, to, ok, State())
      ensures !ok ==> dirs.vol.disk[..] == old(dirs.vol.disk[..]) && dirs.Table() == old(dirs.Table())
    {
      hide Wf, DirStore.Valid, Aim, SplitName, IterAt, LocIs;
      var found, oldParent, oldLeaf := FindParent(path);
      if !found { return false; }
      var on := ParseName(oldLeaf);
      var there, d, loc := dirs.DirScan(oldParent, on);
      if !there { return false; }
      var found2, newParent, newLeaf := FindParent(to);
      if !found2 { return false; }
      if newLeaf == [] { return false; }
      var nn := ParseName(newLeaf);
      if newParent.isRoot != oldParent.isRoot || newParent.cluster != oldParent.cluster { return false; }
      var taken, e2, loc2 := dirs.DirScan(newParent, nn);
      if taken { return false; }
      dirs.DirWriteEntry(loc, d.(name := nn.base, ext := nn.ext), oldParent, Find(dirs.img.dirs[Id(oldParent)], on));
      return true;
    }

    method FsChdir(path: CStr) returns (ok: bool)
      requires Ready()
      modifies this`cwdIsRoot, this`cwdCluster, this`cwdPath
      ensures ChdirStep(old(State()), path, ok, State())
      ensures |cwdPath| <= PATH_MAX
    {
      hide Wf, DirStore.Valid, WalkPath, WalkText;
      var d := CwdDir();
      var buf := StrCopyN(cwdPath, PATH_MAX + 1);
      assert buf == cwdPath;
      WalkTextFits(dirs.img, if IsAbsolute(path) then path[1..] else path, if IsAbsolute(path) then ROOT else d,
                   if IsAbsolute(path) then [SLASH] else buf);
      var found, dir, text := WalkTo(path, d, Some(buf));
      if !found { return false; }
      cwdIsRoot := dir.isRoot;
      cwdCluster := dir.cluster;
      cwdPath := StrCopyN(text.value, PATH_MAX + 1);
      assert cwdPath == text.value;
      return true;
    }

    /** The recorded size, which for a plain file is the number of its bytes. */
    method FsStat(path: CStr) returns (ok: bool, size: u32)
      requires Ready()
      ensures SizeAt(State(), path) == if ok then Some(size) else None
      ensures FileAt(State(), path).Some? ==> ok && size == |FileAt(State(), path).value|
    {
      hide Wf, DirStore.Valid, FileAt, SizeAt, Present, Aim, Lookup, SplitName;
      ok, size := EntrySize(path);
      ghost var own, depth :| Wf(dirs.img, own, depth);
      Exactness.StatExactly(State(), own, depth, path);
    }

    /** The body of `fs_stat`. */
    method EntrySize(path: CStr) returns (ok: bool, size: u32)
      requires Ready()
      ensures SizeAt(State(), path) == if ok then Some(size) else None
    {
      hide Wf, DirStore.Valid, Aim, SplitName;
      var found, parent, leaf := FindParent(path);
      size := 0;
      if !found { return false, size; }
      var n := ParseName(leaf);
      var there, d, loc := dirs.DirScan(parent, n);
      if !there { return false, size; }
      return true, d.size;
    }

    /** The allocation loop that `fs_write` and `fs_append` share: up to `rounds` clusters more,
        filled from `data[from..]`. Fails when the disk is full, with what fitted in place. */
    method GrowFile(first: u16, prev: u16, data: seq<byte>, from: nat, rounds: nat)
      returns (ok: bool, first2: u16, written: nat, ghost n: nat)
      requires dirs.Valid() && from <= |data| && (rounds > 0 ==> from + 512 * (rounds - 1) < |data|)
      requires first == 0 <==> prev == 0
      requires IsTail(dirs.vol.x.ch, first, prev) && (first != 0 ==> first in dirs.img.files)
      modifies dirs`img, dirs.vol`x, dirs.vol`store, dirs.vol.disk
      ensures dirs.Valid() && Front() == old(Front())
      ensures ok <==> rounds <= old(dirs.img).free
      ensures n == Min(rounds, old(dirs.img).free)
      ensures Grew(old(dirs.img), first, data, from, n, first2, dirs.img) && written == from + Taken(data, from, n)
      ensures DirChainsKept(dirs.img, old(dirs.vol.x.ch), dirs.vol.x.ch) && dirs.img.dirs == old(dirs.img).dirs
    {
      hide DirStore.Valid, Tail;
      first2 := first;
      var p := prev;
      written := from;
      var i := 0;
      dirs.NoRootChain();
      while i < rounds
        invariant dirs.Valid() && Front() == old(Front())
        invariant i <= rounds && i <= old(dirs.img).free && dirs.img.free == old(dirs.img).free - i
        invariant Grew(old(dirs.img), first, data, from, i, first2, dirs.img)
        invariant first2 == 0 <==> p == 0
        invariant IsTail(dirs.vol.x.ch, first2, p) && (first2 != 0 ==> first2 in dirs.img.files)
        invariant written == from + Taken(data, from, i)
        invariant DirChainsKept(dirs.img, old(dirs.vol.x.ch), dirs.vol.x.ch) && dirs.img.dirs == old(dirs.img).dirs
      {
        var remaining := |data| - written;
        var chunk := if remaining < BYTES_PER_SECTOR then remaining else BYTES_PER_SECTOR;
        var buf := CopyInto(ZERO_SECTOR, 0, data, written, chunk);
        ghost var mid, first1 := dirs.img, first2;
        var c := dirs.ExtendFile(p, buf, first2);
        if c == 0 { return false, first2, written, i; }
        if first2 == 0 { first2 := c; }
        GrewStep(old(dirs.img), first, data, from, i, first1, mid, p, c, buf, chunk, dirs.img);
        p := c;
        written := written + chunk;
        i := i + 1;
      }
      return true, first2, written, i;
    }

    /** The start of `fs_write` and `fs_append`: the entry of the file, created if it is not there. */
    method OpenFile(path: CStr, parent: DirRef, n: FName) returns (ok: bool, d: Dirent, loc: EntryLoc)
      requires Ready() && Present(dirs.img, parent)
      requires Aim(State(), path).Some? && Aim(State(), path).value.parent == parent
      requires Aim(State(), path).value.leaf != [] && n == SplitName(Aim(State(), path).value.leaf)
      modifies dirs`img, dirs.root, dirs.vol`x, dirs.vol`store, dirs.vol.disk
      ensures dirs.Valid() && Front() == old(Front()) && Present(dirs.img, parent)
      ensures Outcome(ok, dirs.img) == Opened(old(dirs.img), Id(parent), n)
      ensures ok ==> FoundAt(dirs.img, parent, n, d, loc, dirs.vol.x.ch)
    {
      hide Wf, DirStore.Valid, Aim, SplitName, CreateIn, LocIs;
      ok, d, loc := dirs.DirScan(parent, n);
      if ok { return; }
      var made := FsCreate(path);
      CreatePresent(old(dirs.img), Id(parent), n, parent);
      if !made { return; }
      ok, d, loc := dirs.DirScan(parent, n);
    }

    static ghost predicate FoundAt(img: Image, parent: DirRef, n: FName, d: Dirent, loc: EntryLoc, ch: ChainMap) {
      && Id(parent) in img.dirs && Has(img.dirs[Id(parent)], n)
      && d == img.dirs[Id(parent)][Find(img.dirs[Id(parent)], n)]
      && LocIs(ch, loc, parent, Find(img.dirs[Id(parent)], n))
    }

    method FsWrite(path: CStr, data: seq<byte>) returns (ok: bool)
      requires Ready() && |data| < 0x1_0000_0000
      modifies dirs`img, dirs.root, dirs.vol`x, dirs.vol`store, dirs.vol.disk
      ensures dirs.Valid() && Front() == old(Front())
      ensures WriteStep(old(State()), path, data, ok, State())
    {
      hide Wf, DirStore.Valid, Aim, SplitName, Present, Opened, Overwritten, Grew, SectorsFor32, LocIs;
      ghost var own, depth :| Wf(dirs.img, own, depth);
      var found, parent, leaf := FindParent(path);
      if !found { return false; }
      if leaf == [] { return false; }
      var n := ParseName(leaf);
      SplitNameHasNoDot(leaf);
      OpenedKeeps(dirs.img, own, depth, Id(parent), n);
      var there, d, loc := OpenFile(path, parent, n);
      if !there { return false; }
      if IsDir(d) { return false; }
      ok := Overwrite(parent, n, d, loc, data, own, depth);
    }

    /** The rest of `fs_write`, once the entry is at hand. */
    method Overwrite(parent: DirRef, n: FName, d: Dirent, loc: EntryLoc, data: seq<byte>,
                     ghost own: map<nat, Loc>, ghost depth: map<nat, nat>) returns (ok: bool)
      requires dirs.Valid() && |data| < 0x1_0000_0000 && Present(dirs.img, parent) && Wf(dirs.img, own, depth)
      requires DOT !in n.base && FoundAt(dirs.img, parent, n, d, loc, dirs.vol.x.ch) && !IsDir(d)
      modifies dirs`img, dirs.root, dirs.vol`x, dirs.vol`store, dirs.vol.disk
      ensures dirs.Valid() && Front() == old(Front())
      ensures Id(parent) in old(dirs.img).dirs && Has(old(dirs.img).dirs[Id(parent)], n)
      ensures Overwritten(old(dirs.img), Id(parent), Find(old(dirs.img).dirs[Id(parent)], n), data, ok, dirs.img)
    {
      hide Wf, DirStore.Valid, Overwritten, Grew, SectorsFor32, LocIs, SplitName;
      ghost var img, k, ch := dirs.img, Find(dirs.img.dirs[Id(parent)], n), dirs.vol.x.ch;
      FoundEntry(img, own, depth, Id(parent), n);
      NoZeroChain(img, own, depth);
      SectorsFor32IsRight(|data|);
      if d.first != 0 {
        dirs.ReleaseFile(d.first);
      } else {
        assert img.files - {0} == img.files;
      }
      assert dirs.img == WithoutFile(img, d);
      LocKept(img, ch, dirs.vol.x.ch, loc, parent, k);
      ghost var base := dirs.img;
      var need := SectorsFor32(|data|);
      RoundsBound(data);
      var grown, first, written, rounds := GrowFile(0, 0, data, 0, need);
      LocKept(img, ch, dirs.vol.x.ch, loc, parent, k);
      if !grown {
        GrewUndone(base, data, rounds, first, dirs.img);
        if first != 0 { dirs.ReleaseFile(first); }
        LocKept(img, ch, dirs.vol.x.ch, loc, parent, k);
        OverwriteFailed(img, Id(parent), k, data, d.(first := 0, size := 0));
        dirs.DirWriteEntry(loc, d.(first := 0, size := 0), parent, k);
        return false;
      }
      OverwriteDone(img, Id(parent), k, data, first, dirs.img, d.(first := first, size := |data|));
      dirs.DirWriteEntry(loc, d.(first := first, size := |data|), parent, k);
      return true;
    }

    lemma RoundsBound(data: seq<byte>)
      requires |data| < 0x1_0000_0000
      ensures SectorsFor32(|data|) > 0 ==> 512 * (SectorsFor32(|data|) - 1) < |data|
    {
      SectorsFor32IsRight(|data|);
      SectorsForBounds(|data|);
    }

    method FsAppend(path: CStr, extra: seq<byte>) returns (ok: bool)
      requires Ready() && |extra| < 0x1_0000_0000
      modifies dirs`img, dirs.root, dirs.vol`x, dirs.vol`store, dirs.vol.disk
      ensures dirs.Valid() && Front() == old(Front())
      ensures AppendPathStep(old(State()), path, extra, ok, State())
    {
      hide Wf, DirStore.Valid, Aim, SplitName, Present, Opened, FileExtended, LocIs;
      ghost var own, depth :| Wf(dirs.img, own, depth);
      var found, parent, leaf := FindParent(path);
      if !found { return false; }
      if leaf == [] { return false; }
      var n := ParseName(leaf);
      SplitNameHasNoDot(leaf);
      OpenedKeeps(dirs.img, own, depth, Id(parent), n);
      var there, d, loc := OpenFile(path, parent, n);
      if !there { return false; }
      if IsDir(d) { return false; }
      if |extra| == 0 { return true; }
      ok := ExtendBy(parent, n, d, loc, extra, own, depth);
    }

    /** The rest of `fs_append`: first the slack of the last cluster, then new clusters. The test for a
        corrupt chain is left out: on a sound volume the last cluster is always found. */
    method ExtendBy(parent: DirRef, n: FName, d: Dirent, loc: EntryLoc, extra: seq<byte>,
                    ghost own: map<nat, Loc>, ghost depth: map<nat, nat>) returns (ok: bool)
      requires dirs.Valid() && |extra| < 0x1_0000_0000 && Present(dirs.img, parent) && Wf(dirs.img, own, depth)
      requires DOT !in n.base && FoundAt(dirs.img, parent, n, d, loc, dirs.vol.x.ch) && !IsDir(d)
      modifies dirs`img, dirs.root, dirs.vol`x, dirs.vol`store, dirs.vol.disk
      ensures dirs.Valid() && Front() == old(Front())
      ensures Id(parent) in old(dirs.img).dirs && Has(old(dirs.img).dirs[Id(parent)], n)
      ensures FileExtended(old(dirs.img), Id(parent), Find(old(dirs.img).dirs[Id(parent)], n), extra, ok, dirs.img)
    {
      hide Wf, DirStore.Valid, FileExtended, Grew, LocIs, SplitName, SlackFilled, SectorsFor, Flatten;
      ghost var img, k, ch := dirs.img, Find(dirs.img.dirs[Id(parent)], n), dirs.vol.x.ch;
      FoundEntry(img, own, depth, Id(parent), n);
      FileEntryFacts(img, own, depth, Id(parent), k);
      dirs.Capacity(d.first);
      var prev, written := FillLast(d, extra);
      ghost var one := dirs.img;
      SectorsForBounds(|extra| - written);
      var grown, first, total, rounds := GrowFile(d.first, prev, extra, written, SectorsFor(|extra| - written));
      LocKept(img, ch, dirs.vol.x.ch, loc, parent, k);
      SizeFitsDisk(img, d, extra, one, written, rounds, total);
      var e := d.(first := first, size := d.size + total);
      ExtendDone(img, Id(parent), k, extra, one, written, rounds, first, dirs.img, grown, e);
      dirs.DirWriteEntry(loc, e, parent, k);
      return grown;
    }

    lemma FileEntryFacts(img: Image, own: map<nat, Loc>, depth: map<nat, nat>, d: nat, k: nat)
      requires Wf(img, own, depth) && UserSlot(img, d, k) && !IsDir(img.dirs[d][k])
      ensures var e := img.dirs[d][k];
        && 0 !in img.files && (e.size == 0 <==> e.first == 0)
        && (e.first != 0 ==> e.first in img.files && DataCluster(e.first) && e.first !in img.dirs)
        && |SectorsAt(img, e.first)| == SectorsFor(e.size) && e.size <= 512 * |SectorsAt(img, e.first)|
    {
      UserEntry(img, own, depth, d, k);
      SectorsForBounds(img.dirs[d][k].size);
      hide EntriesOk, OwnersOk, DepthOk, NamesUnique, DotsOk;
    }

    /** The size an append records never passes the size of the data area. */
    lemma SizeFitsDisk(img: Image, d: Dirent, extra: seq<byte>, one: Image, written: nat, n: nat, total: nat)
      requires |SectorsAt(img, d.first)| == SectorsFor(d.size) && d.size <= 512 * |SectorsAt(img, d.first)|
      requires SlackFilled(SectorsAt(img, d.first), d.size, extra, SectorsAt(one, d.first), written)
      requires n <= img.free && total == written + Taken(extra, written, n)
      requires img.free <= DATA_CLUSTERS && |SectorsAt(img, d.first)| + img.free <= DATA_CLUSTERS
      ensures d.size + total <= 512 * DATA_CLUSTERS
    {
      SlackAmount(SectorsAt(img, d.first), d.size, extra, SectorsAt(one, d.first), written);
    }

    /** Finds the last cluster and fills its slack. */
    method FillLast(d: Dirent, extra: seq<byte>) returns (prev: u16, written: nat)
      requires dirs.Valid() && (d.size == 0 <==> d.first == 0)
      requires 0 !in dirs.img.files && (d.first != 0 ==> d.first in dirs.img.files)
      requires |SectorsAt(dirs.img, d.first)| == SectorsFor(d.size)
      modifies dirs`img, dirs.vol`store, dirs.vol.disk
      ensures dirs.Valid() && Front() == old(Front()) && d.size <= 512 * |SectorsAt(old(dirs.img), d.first)|
      ensures written <= |extra|
      ensures SlackFilled(SectorsAt(old(dirs.img), d.first), d.size, extra, SectorsAt(dirs.img, d.first), written)
      ensures if d.first == 0 then dirs.img == old(dirs.img)
              else dirs.img == Image(old(dirs.img).dirs, old(dirs.img).files[d.first as nat := SectorsAt(dirs.img, d.first)], old(dirs.img).free)
      ensures (d.first == 0 <==> prev == 0) && IsTail(dirs.vol.x.ch, d.first, prev)
      ensures d.first != 0 ==> d.first in dirs.img.files
    {
      hide DirStore.Valid, SlackFilled, SectorsFor, Flatten;
      prev, written := 0, 0;
      ghost var before := SectorsAt(dirs.img, d.first);
      SectorsForBounds(d.size);
      if d.size > 0 {
        var lastIndex := (d.size - 1) / BYTES_PER_SECTOR;
        LastIndex(d.size, |before|);
        prev := dirs.FileCluster(d.first, lastIndex);
        var off := d.size % BYTES_PER_SECTOR;
        if off != 0 {
          var buf, next := dirs.ReadFile(prev, d.first, lastIndex);
          var space := BYTES_PER_SECTOR - off;
          var chunk := if |extra| < space then |extra| else space;
          buf := CopyInto(buf, off, extra, 0, chunk);
          FillSlack(before, d.size, extra, buf, chunk);
          dirs.RewriteFile(prev, buf, d.first, lastIndex);
          written := chunk;
        } else {
          NoSlack(before, d.size, extra);
        }
      } else {
        NoSlack(before, 0, extra);
      }
    }

    lemma LastIndex(size: nat, n: nat)
      requires n == SectorsFor(size) && size > 0
      ensures (size - 1) / 512 == n - 1
    {
    }

    method FsRead(path: CStr, maxSize: u32) returns (ok: bool, out: seq<byte>)
      requires Ready()
      ensures ReadStep(State(), path, maxSize, ok, out)
      ensures ok <==> FileAt(State(), path).Some?
      ensures ok ==> out == FileAt(State(), path).value[..if maxSize < |FileAt(State(), path).value| then maxSize else |FileAt(State(), path).value|]
    {
      hide Wf, DirStore.Valid, Aim, SplitName, Flatten, SectorsFor32;
      ghost var own, depth :| Wf(dirs.img, own, depth);
      out := [];
      var found, parent, leaf := FindParent(path);
      if !found { return false, out; }
      var n := ParseName(leaf);
      SplitNameHasNoDot(leaf);
      var there, d, loc := dirs.DirScan(parent, n);
      if !there { return false, out; }
      FoundEntry(dirs.img, own, depth, Id(parent), n);
      if IsDir(d) { return false, out; }
      FileEntryFacts(dirs.img, own, depth, Id(parent), Find(dirs.img.dirs[Id(parent)], n));
      dirs.Capacity(d.first);
      var size := if d.size > maxSize then maxSize else d.size;
      out := ReadBytes(d, size);
      assert out == FileBytes(dirs.img, d)[..size];
      return true, out;
    }

    /** The copying loop of `fs_read`. The test that stops it on a short chain never fires on a sound volume. */
    method ReadBytes(d: Dirent, size: u32) returns (out: seq<byte>)
      requires dirs.Valid() && size <= d.size && (d.first == 0 ==> d.size == 0)
      requires d.first != 0 ==> d.first in dirs.img.files
      requires d.size <= 512 * |SectorsAt(dirs.img, d.first)| && |SectorsAt(dirs.img, d.first)| <= DATA_CLUSTERS
      ensures out == Flatten(SectorsAt(dirs.img, d.first))[..size]
    {
      hide DirStore.Valid, Flatten, SectorsFor32, SectorsFor;
      var need := SectorsFor32(size);
      SectorsFor32IsRight(size);
      SectorsForBounds(size);
      ghost var ss := SectorsAt(dirs.img, d.first);
      var c: u16 := d.first;
      out := [];
      if need > 0 { dirs.FileAt(d.first, 0); }
      var s := 0;
      while s < need
        invariant s <= need && |out| == Min(512 * s, size) && out == Flatten(ss)[..|out|]
        invariant s < need ==> InChain(dirs.vol.x.ch, d.first, s, c)
      {
        dirs.FileAt(d.first, s);
        if c < FIRST_CLUSTER || c >= CLUSTER_EOC_MIN { break; }
        var buf, next := dirs.ReadFile(c, d.first, s);
        var remaining := size - |out|;
        var chunk := if remaining < BYTES_PER_SECTOR then remaining else BYTES_PER_SECTOR;
        FlattenPrefix(ss, s, chunk);
        out := out + buf[..chunk];
        c := next;
        s := s + 1;
      }
    }

    static ghost predicate InChain(ch: ChainMap, first: u16, s: nat, c: u16) {
      first in ch && s < |ch[first]| && ch[first][s] == c
    }

    method FsMkdir(path: CStr) returns (ok: bool)
      requires Ready()
      modifies dirs`img, dirs.root, dirs.vol`x, dirs.vol`store, dirs.vol.disk
      ensures dirs.Valid() && Front() == old(Front())
      ensures MkdirStep(old(State()), path, ok, State())
      ensures !ok ==> dirs.Table() == old(dirs.Table())
    {
      hide Wf, DirStore.Valid, Aim, SplitName, LocIs, MkdirIn;
      var found, parent, leaf := FindParent(path);
      if !found { return false; }
      if leaf == [] { return false; }
      if leaf == ONE_DOT || leaf == TWO_DOTS { return false; }
      var n := ParseName(leaf);
      ok := MakeDir(parent, n);
    }

    /** The rest of `fs_mkdir`: take a cluster, fill in "." and "..", enter it in the parent, or give it back. */
    method MakeDir(parent: DirRef, n: FName) returns (ok: bool)
      requires dirs.Valid() && Present(dirs.img, parent)
      modifies dirs`img, dirs.root, dirs.vol`x, dirs.vol`store, dirs.vol.disk
      ensures dirs.Valid() && Front() == old(Front())
      ensures MkdirIn(old(dirs.img), Id(parent), n, ok, dirs.img)
      ensures !ok ==> dirs.Table() == old(dirs.Table())
    {
      hide DirStore.Valid, DirStore.Table, LocIs, Made, Cleared;
      ghost var img, table := dirs.img, dirs.Table();
      var taken, e0, l0 := dirs.DirScan(parent, n);
      if taken { return false; }
      var c := StartDir(parent);
      if c == 0 { return false; }
      ghost var mid := dirs.img;
      var room, loc := dirs.DirFindFree(parent);
      if !room {
        dirs.ReleaseDir(c);
        GivenBack(table, c);
        assert dirs.img.dirs == img.dirs;
        return false;
      }
      dirs.DirWriteEntry(loc, DirEntry(n, c), parent, FreeSlot(mid.dirs[Id(parent)]));
      MadeOf(img, Id(parent), n, c, mid, dirs.img);
      return true;
    }

    /** A cluster with "." and ".." in it, 0 when none is free. */
    method StartDir(parent: DirRef) returns (c: u16)
      requires dirs.Valid() && Present(dirs.img, parent)
      modifies dirs`img, dirs.root, dirs.vol`x, dirs.vol`store, dirs.vol.disk
      ensures dirs.Valid() && Front() == old(Front())
      ensures c == 0 <==> old(dirs.img.free) == 0
      ensures c == 0 ==> dirs.img == old(dirs.img) && dirs.Table() == old(dirs.Table())
      ensures c != 0 ==> DataCluster(c) && old(dirs.Table())[c] == CLUSTER_FREE && dirs.Table() == old(dirs.Table())[c := CLUSTER_EOC]
      ensures c != 0 ==> c in dirs.vol.x.ch && dirs.vol.x.ch[c] == [c as nat]
      ensures c != 0 ==> DataCluster(c) && c !in old(dirs.img).dirs && c !in old(dirs.img).files
      ensures c != 0 ==>
                dirs.img == old(Image(dirs.img.dirs[c as nat := NewDirSlots(c, Id(parent))], dirs.img.files, dirs.img.free - 1))
    {
      hide DirStore.Valid, LocIs;
      ghost var img := dirs.img;
      c := dirs.NewDir();
      if c == 0 { return; }
      var self := DirRef(false, c);
      dirs.FirstSlots(c);
      dirs.DirWriteEntry(EntryLoc(self, 0, c, 0), DirEntry(DOT_NAME, c), self, 0);
      dirs.FirstSlots(c);
      dirs.DirWriteEntry(EntryLoc(self, 0, c, 1), DirEntry(DOTDOT_NAME, if parent.isRoot then 0 else parent.cluster), self, 1);
      assert dirs.img == Image(img.dirs[c as nat := NewDirSlots(c, Id(parent))], img.files, img.free - 1);
    }

    lemma MadeOf(img: Image, d: nat, n: FName, c: u16, mid: Image, t: Image)
      requires d in img.dirs && d < 0x1_0000 && img.free > 0 && DataCluster(c) && c !in img.dirs && c !in img.files
      requires mid == Image(img.dirs[c as nat := NewDirSlots(c, d)], img.files, img.free - 1)
      requires Room(mid, d) && t == SetSlot(WithRoom(mid, d), d, FreeSlot(mid.dirs[d]), DirEntry(n, c))
      ensures Room(img.(free := img.free - 1), d) && Made(img, d, n, c, t)
    {
      hide NewDirSlots;
      var p := Placed(img.(free := img.free - 1), d, DirEntry(n, c));
      assert t.dirs == p.dirs[c as nat := NewDirSlots(c, d)];
    }

    method FsRmdir(path: CStr) returns (ok: bool)
      requires Ready()
      modifies dirs`img, dirs.root, dirs.vol`x, dirs.vol`store, dirs.vol.disk
      ensures dirs.Valid() && Front() == old(Front())
      ensures RmdirStep(old(State()), path, ok, State())
      ensures !ok ==> dirs.vol.disk[..] == old(dirs.vol.disk[..]) && dirs.Table() == old(dirs.Table())
    {
      hide Wf, DirStore.Valid, Aim, SplitName, RmdirIn;
      ghost var own, depth :| Wf(dirs.img, own, depth);
      var found, parent, leaf := FindParent(path);
      if !found { return false; }
      if leaf == [] { return false; }
      if leaf == ONE_DOT || leaf == TWO_DOTS { return false; }
      var n := ParseName(leaf);
      SplitNameHasNoDot(leaf);
      ok := RemoveDir(parent, n, own, depth);
    }

    /** The rest of `fs_rmdir`. */
    method RemoveDir(parent: DirRef, n: FName, ghost own: map<nat, Loc>, ghost depth: map<nat, nat>) returns (ok: bool)
      requires Ready() && Present(dirs.img, parent) && Wf(dirs.img, own, depth) && DOT !in n.base
      modifies dirs`img, dirs.root, dirs.vol`x, dirs.vol`store, dirs.vol.disk
      ensures dirs.Valid() && Front() == old(Front())
      ensures Outcome(ok, dirs.img) == RmdirIn(old(dirs.img), old(Cwd()), Id(parent), n)
      ensures !ok ==> dirs.vol.disk[..] == old(dirs.vol.disk[..]) && dirs.Table() == old(dirs.Table())
    {
      hide Wf, DirStore.Valid, LocIs, EmptyDir;
      var there, d, loc := dirs.DirScan(parent, n);
      if !there { return false; }
      FoundEntry(dirs.img, own, depth, Id(parent), n);
      if !IsDir(d) { return false; }
      ghost var k := Find(dirs.img.dirs[Id(parent)], n);
      NotOwnParent(dirs.img, own, depth, Id(parent), k);
      var cur := CwdDir();
      if !cur.isRoot && cur.cluster == d.first { return false; }
      var empty := IsEmpty(DirRef(false, d.first));
      if !empty { return false; }
      dirs.ReleaseDir(d.first);
      LocKept(dirs.img, old(dirs.vol.x.ch), dirs.vol.x.ch, loc, parent, k);
      dirs.DirWriteEntry(loc, Deleted(d), parent, k);
      return true;
    }

    /** The emptiness loop of `fs_rmdir`. */
    method IsEmpty(dir: DirRef) returns (empty: bool)
      requires dirs.Valid() && Present(dirs.img, dir)
      ensures empty <==> EmptyDir(dirs.img.dirs[Id(dir)])
    {
      hide DirStore.Valid, IterAt, LocIs;
      var it := dirs.DirIterStart(dir);
      ghost var slots := dirs.img.dirs[Id(dir)];
      ghost var k := 0;
      while true
        invariant it.dir == dir && k <= |slots| && IterAt(dirs.vol.x.ch, it, k)
        invariant EmptyDir(slots[..k])
        decreases |slots| - k
      {
        var more, next, e, loc := dirs.DirIterNext(it, k);
        it := next;
        if !more {
          assert slots[..k] == slots;
          return true;
        }
        assert slots[..k + 1] == slots[..k] + [e];
        if Live(e) && e.name != DOT_NAME.base && e.name != DOTDOT_NAME.base { return false; }
        k := k + 1;
      }
    }

    // ---------- mounting ----------

    /** Mounts a marked volume, whatever it holds, and formats anything else. */
    method FsInit()
      requires dirs.vol.Sized() && dirs.root.Length == ROOT_ENTRIES
      modifies this, dirs`img, dirs.root, dirs.vol`x, dirs.vol`store, dirs.vol.disk
      ensures Marked(Front().boot) && Cwd() == ROOT && cwdPath == [SLASH] && Front().kernel == old(Front()).kernel
      ensures old(Marked(Front().boot)) ==>
                && dirs.img == old(dirs.img) && dirs.vol.disk[..] == old(dirs.vol.disk[..])
                && dirs.vol.Sized() && dirs.root[..] == Entries(dirs.vol.View().root)
      ensures old(Marked(Front().boot) && dirs.OnDisk() && Sound(dirs.img)) ==> Ready()
      ensures !old(Marked(Front().boot)) ==> Ready()
      ensures !old(Marked(Front().boot)) ==> dirs.img.dirs.Keys == {0} && dirs.img.files == map[] && dirs.img.free == DATA_CLUSTERS
      ensures !old(Marked(Front().boot)) ==> forall n :: Lookup(dirs.img, 0, n) == None
    {
      hide DirStore.Valid, DirStore.OnDisk, Sound;
      var buf := dirs.vol.ReadSector(BOOT_LBA);
      var formatted := true;
      var i := 0;
      while i < 8
        invariant i <= 8 && formatted && buf[MARKER_OFFSET..MARKER_OFFSET + i] == MARKER[..i]
      {
        if buf[MARKER_OFFSET + i] != MARKER[i] {
          formatted := false;
          break;
        }
        assert MARKER[..i + 1] == MARKER[..i] + [MARKER[i]];
        assert buf[MARKER_OFFSET..MARKER_OFFSET + i + 1] == buf[MARKER_OFFSET..MARKER_OFFSET + i] + [buf[MARKER_OFFSET + i]];
        i := i + 1;
      }
      assert buf == Front().boot;
      assert formatted <==> Marked(buf);
      if !formatted {
        var boot := ZERO_SECTOR;
        boot := CopyInto(boot, MARKER_OFFSET, MARKER, 0, 8);
        dirs.Format(boot);
        EmptySound(dirs.root[..]);
      } else {
        dirs.RootLoad();
        if old(dirs.OnDisk()) { dirs.LoadedIsValid(); }
      }
      cwdIsRoot := true;
      cwdCluster := 0;
      cwdPath := [SLASH];
      if dirs.Valid() { dirs.RootPresent(); }
    }

    /** Running `fs_init` again on a mounted volume recovers the same image; only the current directory
        goes back to the root. */
    method Remount()
      requires Ready() && Marked(Front().boot)
      modifies this, dirs`img, dirs.root, dirs.vol`x, dirs.vol`store, dirs.vol.disk
      ensures Ready() && Marked(Front().boot)
      ensures State() == Calls.State(old(dirs.img), ROOT, [SLASH])
    {
      dirs.ValidIsOnDisk();
      dirs.SizedIfValid();
      hide DirStore.Valid, DirStore.OnDisk;
      FsInit();
    }

    // ---------- runs ----------

    method Perform(c: Call) returns (ok: bool)
      requires Ready() && SizeFits(c)
      modifies this`cwdIsRoot, this`cwdCluster, this`cwdPath
      modifies dirs`img, dirs.root, dirs.vol`x, dirs.vol`store, dirs.vol.disk
      ensures dirs.Valid() && Front() == old(Front())
      ensures Step(old(State()), c, ok, State()) && |cwdPath| <= PATH_MAX
      ensures !ok && !c.Write? && !c.Append? ==> dirs.Table() == old(dirs.Table())
    {
      hide Sound, DirStore.Valid, CreateStep, WriteStep, AppendPathStep, DeleteStep, RenameStep, MkdirStep, RmdirStep, ChdirStep;
      match c
      case Create(p) => ok := FsCreate(p);
      case Write(p, data) => ok := FsWrite(p, data);
      case Append(p, data) => ok := FsAppend(p, data);
      case Delete(p) => ok := FsDelete(p);
      case Rename(p, to) => ok := FsRename(p, to);
      case Mkdir(p) => ok := FsMkdir(p);
      case Rmdir(p) => ok := FsRmdir(p);
      case Chdir(p) => ok := FsChdir(p);
    }

    /** Any sequence of harmless calls on a mounted volume leaves a mounted, sound volume. */
    method RunCalls(calls: seq<Call>) returns (oks: seq<bool>)
      requires Ready() && Marked(Front().boot)
      requires forall i | 0 <= i < |calls| :: SizeFits(calls[i]) && Harmless(calls[i])
      modifies this`cwdIsRoot, this`cwdCluster, this`cwdPath
      modifies dirs`img, dirs.root, dirs.vol`x, dirs.vol`store, dirs.vol.disk
      ensures Ready() && Front() == old(Front())
      ensures Run(old(State()), calls, oks, State())
    {
      hide Sound, Present, DirStore.Valid, Step, Harmless, Marked;
      oks := [];
      assert calls[..0] == [];
      for n := 0 to |calls|
        invariant dirs.Valid() && Sound(dirs.img) && Present(dirs.img, Cwd()) && Front() == old(Front())
        invariant |cwdPath| <= PATH_MAX
        invariant Run(old(State()), calls[..n], oks, State())
      {
        ghost var mid := State();
        var ok := Perform(calls[n]);
        assert calls[..n + 1][..n] == calls[..n] && (oks + [ok])[..n] == oks;
        oks := oks + [ok];
        RunKeeps(old(State()), calls[..n + 1], oks, State());
      }
      assert calls[..|calls|] == calls;
    }
  }
}
