/** When each call succeeds and how much space it takes, in terms of slots, names and counts alone. */
module Exactness {
  import opened Types
  import opened Codec
  import opened Names
  import opened Images
  import opened Paths
  import opened Calls
  import opened Keeping
  import opened Reading
  import opened Effects
  import opened Runs
  import opened Survival

  /** The slot is in use under this name. */
  predicate Bears(e: Dirent, n: FName) { !Unused(e) && e.name == n.base && e.ext == n.ext }

  predicate IsTaken(slots: seq<Dirent>, n: FName) { exists k | 0 <= k < |slots| :: Bears(slots[k], n) }

  /** An entry more goes into an unused slot, or into a further cluster of a subdirectory. */
  predicate CanEnter(img: Image, d: nat) {
    d in img.dirs && (HasUnused(img.dirs[d]) || (d != 0 && img.free > 0))
  }

  /** Clusters the directory takes for it. */
  function EntryCost(img: Image, d: nat): nat {
    if d in img.dirs && HasUnused(img.dirs[d]) then 0 else 1
  }

  lemma HasIsTaken(slots: seq<Dirent>, n: FName)
    ensures Has(slots, n) <==> IsTaken(slots, n)
  {
    FindIff(slots, n);
    if k :| 0 <= k < |slots| && Matches(slots[k], n) { assert Bears(slots[k], n); }
    if k :| 0 <= k < |slots| && Bears(slots[k], n) { assert Matches(slots[k], n); }
  }

  lemma RoomIsCanEnter(img: Image, d: nat)
    ensures Room(img, d) <==> CanEnter(img, d)
    ensures d in img.dirs ==> (FreeSlot(img.dirs[d]) < |img.dirs[d]| <==> HasUnused(img.dirs[d]))
  {
    if d in img.dirs { RoomIs(img, d); }
    hide HasUnused;
  }

  /** Directory `d` has the entry `e` in its first unused slot, or, if it had none, at the start of one more
      cluster whose other fifteen slots are zero. Nothing else differs. */
  ghost predicate Entered(img: Image, d: nat, e: Dirent, t: Image)
    requires d in img.dirs
  {
    && t.dirs.Keys == img.dirs.Keys && t.files == img.files
    && (forall h | h in img.dirs && h != d :: t.dirs[h] == img.dirs[h])
    && t.free == img.free - EntryCost(img, d)
    && var slots := img.dirs[d];
       if HasUnused(slots)
       then exists k | 0 <= k < |slots| ::
              Unused(slots[k]) && (forall j | 0 <= j < k :: !Unused(slots[j])) && t.dirs[d] == slots[k := e]
       else t.dirs[d] == slots + [e] + seq(15, i => FREE_ENTRY)
  }

  lemma PlacedIsEntered(img: Image, d: nat, e: Dirent)
    requires Room(img, d)
    ensures Entered(img, d, e, Placed(img, d, e))
  {
    RoomIsCanEnter(img, d);
    var slots, t := img.dirs[d], Placed(img, d, e);
    var k := FreeSlot(slots);
    if k < |slots| {
      assert Unused(slots[k]) && t.dirs[d] == slots[k := e];
      forall j | 0 <= j < k ensures !Unused(slots[j]) { assert Live(slots[j]); }
    } else {
      assert (slots + FreeSlots())[k := e] == slots + [e] + seq(15, i => FREE_ENTRY);
    }
  }

  // ---------- fs_create ----------

  /** `fs_create` succeeds exactly when the parent resolves, the leaf is not empty, no entry of the parent
      bears the name, and there is an unused slot or, in a subdirectory, a free cluster. The new entry is
      that of an empty plain file. */
  lemma CreateExactly(s: State, own: map<nat, Loc>, depth: map<nat, nat>, p: CStr, ok: bool, t: State)
    requires Wf(s.img, own, depth) && Present(s.img, s.cwd) && CreateStep(s, p, ok, t)
    ensures ok <==>
            Aim(s, p).Some? && Aim(s, p).value.leaf != [] &&
            var d, n := Id(Aim(s, p).value.parent), SplitName(Aim(s, p).value.leaf);
            d in s.img.dirs && !IsTaken(s.img.dirs[d], n) && (HasUnused(s.img.dirs[d]) || (d != 0 && s.img.free > 0))
    ensures ok ==>
              var d, n := Id(Aim(s, p).value.parent), SplitName(Aim(s, p).value.leaf);
              t.cwd == s.cwd && t.text == s.text
              && Entered(s.img, d, Dirent(n.base, n.ext, 0x20, [0, 0, 0, 0, 0, 0, 0, 0, 0, 0], 0, 0, 0, 0), t.img)
  {
    hide Wf, Aim, SplitName, Has, IsTaken, Room, HasUnused, Entered, Placed;
    if Aim(s, p).Some? {
      AimPresent(s, own, depth, p);
      var d, n := Id(Aim(s, p).value.parent), SplitName(Aim(s, p).value.leaf);
      HasIsTaken(s.img.dirs[d], n);
      RoomIsCanEnter(s.img, d);
      if Room(s.img, d) { PlacedIsEntered(s.img, d, NewFile(n)); }
    }
  }

  /** The slot that bears the name reads as deleted, without a cluster or a size. */
  ghost predicate Struck(img: Image, d: nat, n: FName, t: Image) {
    && d in img.dirs && d in t.dirs
    && exists k | 0 <= k < |img.dirs[d]| ::
         var e := img.dirs[d][k];
         Bears(e, n) && t.dirs[d] == img.dirs[d][k := e.(name := e.name[0 := 0xE5], first := 0, size := 0)]
  }

  lemma FoundIsStruck(img: Image, d: nat, n: FName, t: Image)
    ensures d in img.dirs && Has(img.dirs[d], n) && d in t.dirs
            && t.dirs[d] == img.dirs[d][Find(img.dirs[d], n) := Deleted(img.dirs[d][Find(img.dirs[d], n)])]
            ==> Struck(img, d, n, t)
  {
    if d in img.dirs && Has(img.dirs[d], n) { assert Bears(img.dirs[d][Find(img.dirs[d], n)], n); }
  }

  // ---------- fs_delete ----------

  /** `fs_delete` succeeds exactly on what `fs_read` would read, and frees its clusters. */
  lemma DeleteExactly(s: State, own: map<nat, Loc>, depth: map<nat, nat>, p: CStr, ok: bool, t: State)
    requires Wf(s.img, own, depth) && Present(s.img, s.cwd) && DeleteStep(s, p, ok, t)
    ensures ok <==> FileAt(s, p).Some?
    ensures ok ==> t.img.free == s.img.free + SectorsFor(|FileAt(s, p).value|)
    ensures ok ==> Struck(s.img, Id(Aim(s, p).value.parent), SplitName(Aim(s, p).value.leaf), t.img)
  {
    hide Wf, Aim, SplitName, FileBytes, Struck;
    if Aim(s, p).Some? {
      var d, n := Id(Aim(s, p).value.parent), SplitName(Aim(s, p).value.leaf);
      SplitNameHasNoDot(Aim(s, p).value.leaf);
      FoundIsStruck(s.img, d, n, t.img);
      if d in s.img.dirs && Has(s.img.dirs[d], n) { PlainFileSize(s.img, own, depth, d, n); }
    }
  }

  /** A plain file's recorded size, contents and clusters agree. */
  lemma PlainFileSize(img: Image, own: map<nat, Loc>, depth: map<nat, nat>, d: nat, n: FName)
    requires Wf(img, own, depth) && d in img.dirs && Has(img.dirs[d], n) && DOT !in n.base
    ensures var e := img.dirs[d][Find(img.dirs[d], n)];
      !IsDir(e) ==> |FileBytes(img, e)| == e.size && SectorsOf(img, e) == SectorsFor(e.size)
  {
    hide Wf, FileBytes;
    FoundEntry(img, own, depth, d, n);
    NoZeroChain(img, own, depth);
    var e := img.dirs[d][Find(img.dirs[d], n)];
    if !IsDir(e) { FileBytesSize(img, own, Loc(d, Find(img.dirs[d], n)), e); }
  }

  // ---------- fs_read and fs_stat ----------

  /** What a read gives: the first bytes of the file, as many as there is room for. */
  lemma ReadExactly(s: State, q: seq<byte>, max: nat, ok: bool, out: seq<byte>)
    requires ReadStep(s, q, max, ok, out)
    ensures ok <==> FileAt(s, q).Some?
    ensures ok ==> |out| == (if max < |FileAt(s, q).value| then max else |FileAt(s, q).value|) && out <= FileAt(s, q).value
  {
    hide FileAt;
  }

  /** Written and read back. */
  lemma WriteThenFsRead(s: State, own: map<nat, Loc>, depth: map<nat, nat>, p: CStr, data: seq<byte>, t: State,
                        q: seq<byte>, max: nat, ok: bool, out: seq<byte>)
    requires Wf(s.img, own, depth) && Present(s.img, s.cwd) && |data| <= 0x1_0000_0000 - 512
    requires WriteStep(s, p, data, true, t) && SameTarget(s, p, q) && ReadStep(t, q, max, ok, out)
    ensures ok && out == data[..if max < |data| then max else |data|]
  {
    hide Wf, WriteStep, SameTarget, FileAt;
    WriteThenRead(s, own, depth, p, data, true, t, q);
  }

  /** Appended and read back. */
  lemma AppendThenFsRead(s: State, own: map<nat, Loc>, depth: map<nat, nat>, p: CStr, extra: seq<byte>, t: State,
                         q: seq<byte>, max: nat, ok: bool, out: seq<byte>)
    requires Wf(s.img, own, depth) && Present(s.img, s.cwd) && |extra| < 0x1_0000_0000
    requires AppendPathStep(s, p, extra, true, t) && SameTarget(s, p, q) && ReadStep(t, q, max, ok, out)
    ensures ok && var all := OrEmpty(FileAt(s, q)) + extra; out == all[..if max < |all| then max else |all|]
  {
    hide Wf, AppendPathStep, SameTarget, FileAt, CanWrite, StorableAt;
    AppendThenRead(s, own, depth, p, extra, true, t, q);
    assert extra[..|extra|] == extra;
  }

  /** Written, then any calls that spare the file, then read back. */
  lemma WriteRunFsRead(s: State, own: map<nat, Loc>, depth: map<nat, nat>, p: CStr, data: seq<byte>, mid: State,
                       calls: seq<Call>, oks: seq<bool>, t: State, q: seq<byte>, max: nat, ok: bool, out: seq<byte>)
    requires Wf(s.img, own, depth) && Present(s.img, s.cwd) && |data| <= 0x1_0000_0000 - 512
    requires WriteStep(s, p, data, true, mid)
    requires forall i | 0 <= i < |calls| :: SizeFits(calls[i]) && Harmless(calls[i])
    requires Aim(s, p).Some?
    requires var d, n := Id(Aim(s, p).value.parent), SplitName(Aim(s, p).value.leaf);
      RunPast(mid, calls, oks, t, d, n) && AimsAt(t, q, d, n)
    requires ReadStep(t, q, max, ok, out)
    ensures ok && out == data[..if max < |data| then max else |data|]
  {
    hide Wf, WriteStep, Aim, SplitName, RunPast, AimsAt, FileAt, Harmless;
    WriteRunRead(s, own, depth, p, data, mid, calls, oks, t, q);
  }

  /** `fs_stat` of a plain file gives the number of its bytes, and it finds exactly what has a name. */
  lemma StatExactly(s: State, own: map<nat, Loc>, depth: map<nat, nat>, p: seq<byte>)
    requires Wf(s.img, own, depth)
    ensures FileAt(s, p).Some? ==> SizeAt(s, p) == Some(|FileAt(s, p).value|)
    ensures SizeAt(s, p) == None <==>
            (Aim(s, p).Some? ==> Lookup(s.img, Id(Aim(s, p).value.parent), SplitName(Aim(s, p).value.leaf)) == None)
  {
    hide Wf, Aim, SplitName, FileBytes;
    if Aim(s, p).Some? {
      var d, n := Id(Aim(s, p).value.parent), SplitName(Aim(s, p).value.leaf);
      SplitNameHasNoDot(Aim(s, p).value.leaf);
      if d in s.img.dirs && Has(s.img.dirs[d], n) { PlainFileSize(s.img, own, depth, d, n); }
    }
  }

  /** So after a write the size is that of the data. */
  lemma WriteThenStat(s: State, own: map<nat, Loc>, depth: map<nat, nat>, p: CStr, data: seq<byte>, t: State, q: seq<byte>)
    requires Wf(s.img, own, depth) && Present(s.img, s.cwd) && |data| <= 0x1_0000_0000 - 512
    requires WriteStep(s, p, data, true, t) && SameTarget(s, p, q)
    ensures SizeAt(t, q) == Some(|data|)
  {
    hide Wf, WriteStep, SameTarget, FileAt, SizeAt, Careless, Step;
    WriteThenRead(s, own, depth, p, data, true, t, q);
    WriteSound(s, own, depth, p, data, t);
    var own2, depth2 :| Wf(t.img, own2, depth2);
    StatExactly(t, own2, depth2, q);
  }

  lemma WriteSound(s: State, own: map<nat, Loc>, depth: map<nat, nat>, p: CStr, data: seq<byte>, t: State)
    requires Wf(s.img, own, depth) && Present(s.img, s.cwd) && |data| <= 0x1_0000_0000 - 512
    requires WriteStep(s, p, data, true, t)
    ensures Sound(t.img)
  {
    hide Wf, WriteStep, CanWrite;
    StepKeeps(s, own, depth, Write(p, data), true, t);
  }

  // ---------- fs_write and fs_append ----------

  /** A plain file opens exactly if it is there, or if no entry bears the name, there is room for one, and
      the name does not read as deleted. Only then does the directory grow. */
  lemma OpensExactly(img: Image, own: map<nat, Loc>, depth: map<nat, nat>, d: nat, n: FName)
    requires Wf(img, own, depth) && DOT !in n.base && n.base[0] != 0
    ensures OpensFile(img, d, n) <==>
            match Lookup(img, d, n)
            case Some(FileNode(_)) => true
            case Some(DirNode(_)) => false
            case None => CanEnter(img, d) && n.base[0] != 0xE5
    ensures OpensFile(img, d, n) ==>
              var o := Opened(img, d, n).img;
              && d in o.dirs && Has(o.dirs[d], n)
              && o.free == img.free - (if Lookup(img, d, n) == None then EntryCost(img, d) else 0)
  {
    hide Wf, FileBytes, Room, HasUnused, WithRoom;
    RoomIsCanEnter(img, d);
    if d in img.dirs && !Has(img.dirs[d], n) && Room(img, d) {
      CreateLookup(img, own, depth, d, n, d, n);
      CreatedIsPlain(img, own, depth, d, n);
    }
  }

  lemma CreatedIsPlain(img: Image, own: map<nat, Loc>, depth: map<nat, nat>, d: nat, n: FName)
    requires Wf(img, own, depth) && CreateIn(img, d, n).ok && DOT !in n.base && n.base[0] != 0
    ensures var o := CreateIn(img, d, n).img;
      && d in o.dirs && o.free == img.free - EntryCost(img, d)
      && (n.base[0] != 0xE5 ==> Has(o.dirs[d], n) && !IsDir(o.dirs[d][Find(o.dirs[d], n)]))
      && (n.base[0] == 0xE5 ==> !Has(o.dirs[d], n))
  {
    hide Wf, FileBytes, Room, Placed;
    CreateLookup(img, own, depth, d, n, d, n);
    PlacedIsEntered(img, d, NewFile(n));
  }

  /** The clusters a file that opens has for its data: the free ones, those of its old contents, less one
      where the directory has to grow. */
  function Available(img: Image, d: nat, n: FName): int {
    match Lookup(img, d, n)
    case Some(FileNode(bytes)) => img.free + SectorsFor(|bytes|)
    case _ => img.free - EntryCost(img, d)
  }

  /** Length of what is there already. */
  function OldSize(img: Image, d: nat, n: FName): nat {
    match Lookup(img, d, n)
    case Some(FileNode(bytes)) => |bytes|
    case _ => 0
  }

  predicate Openable(img: Image, d: nat, n: FName) {
    match Lookup(img, d, n)
    case Some(FileNode(_)) => true
    case Some(DirNode(_)) => false
    case None => CanEnter(img, d) && n.base[0] != 0xE5
  }

  lemma OpenedSpace(img: Image, own: map<nat, Loc>, depth: map<nat, nat>, d: nat, n: FName)
    requires Wf(img, own, depth) && DOT !in n.base && n.base[0] != 0 && OpensFile(img, d, n)
    ensures var o := Opened(img, d, n).img;
      && d in o.dirs && Has(o.dirs[d], n) && Wf(o, own, depth)
      && var e := o.dirs[d][Find(o.dirs[d], n)];
         && !IsDir(e) && e.size == OldSize(img, d, n) && SectorsOf(o, e) == SectorsFor(e.size)
         && o.free + SectorsFor(e.size) == Available(img, d, n)
  {
    hide Wf, FileBytes, EntryCost, CanEnter, CreateIn;
    OpensExactly(img, own, depth, d, n);
    OpenedKeeps(img, own, depth, d, n);
    var o := Opened(img, d, n).img;
    PlainFileSize(o, own, depth, d, n);
    OpenedLookup(img, own, depth, d, n, d, n);
    LookupKind(o, d, n);
  }

  /** `fs_write` of up to 2^32 - 512 bytes succeeds exactly when the parent resolves, the leaf is not empty, a
      plain file is there or can be entered, and its clusters suffice. */
  lemma WriteExactly(s: State, own: map<nat, Loc>, depth: map<nat, nat>, p: CStr, data: seq<byte>, ok: bool, t: State)
    requires Wf(s.img, own, depth) && Present(s.img, s.cwd) && |data| <= 0x1_0000_0000 - 512
    requires WriteStep(s, p, data, ok, t)
    ensures ok <==>
            Aim(s, p).Some? && Aim(s, p).value.leaf != [] &&
            var d, n := Id(Aim(s, p).value.parent), SplitName(Aim(s, p).value.leaf);
            Openable(s.img, d, n) && SectorsFor(|data|) <= Available(s.img, d, n)
    ensures ok ==>
              var d, n := Id(Aim(s, p).value.parent), SplitName(Aim(s, p).value.leaf);
              t.img.free == Available(s.img, d, n) - SectorsFor(|data|)
  {
    hide Wf, Aim, SplitName, Openable, Available, Opened, Lookup, Overwritten;
    if Aim(s, p).Some? && Aim(s, p).value.leaf != [] {
      var a := Aim(s, p).value;
      var d, n := Id(a.parent), SplitName(a.leaf);
      AimPresent(s, own, depth, p);
      SplitNameHasNoDot(a.leaf);
      SplitNameFirstByte(a.leaf);
      OpenableIs(s.img, own, depth, d, n);
      if OpensFile(s.img, d, n) {
        OpenedSpace(s.img, own, depth, d, n);
        OverwriteExactly(Opened(s.img, d, n).img, own, depth, d, n, data, ok, t.img);
      }
    }
  }

  lemma OpenableIs(img: Image, own: map<nat, Loc>, depth: map<nat, nat>, d: nat, n: FName)
    requires Wf(img, own, depth) && DOT !in n.base && n.base[0] != 0
    ensures OpensFile(img, d, n) <==> Openable(img, d, n)
  {
    OpensExactly(img, own, depth, d, n);
    hide Wf, Lookup, CanEnter, OpensFile;
  }

  /** `fs_append` stores all bytes, and succeeds, exactly when they fit behind the old contents in the
      clusters the file has for them; otherwise it stores as many as fit. */
  lemma AppendExactly(s: State, own: map<nat, Loc>, depth: map<nat, nat>, p: CStr, extra: seq<byte>, ok: bool, t: State)
    requires Wf(s.img, own, depth) && Present(s.img, s.cwd) && |extra| < 0x1_0000_0000
    requires AppendPathStep(s, p, extra, ok, t)
    ensures CanWrite(s, p) <==>
            Aim(s, p).Some? && Aim(s, p).value.leaf != []
            && Openable(s.img, Id(Aim(s, p).value.parent), SplitName(Aim(s, p).value.leaf))
    ensures CanWrite(s, p) ==>
              var d, n := Id(Aim(s, p).value.parent), SplitName(Aim(s, p).value.leaf);
              var room := 512 * Available(s.img, d, n) - OldSize(s.img, d, n);
              && (ok <==> |extra| <= room)
              && StorableAt(s, p, extra) == if |extra| <= room then |extra| else room
    ensures !CanWrite(s, p) ==> !ok
  {
    hide Wf, Aim, SplitName, Openable, Available, OldSize, OpensFile, AppendPathStep;
    AppendThenRead(s, own, depth, p, extra, ok, t, p);
    if Aim(s, p).Some? && Aim(s, p).value.leaf != [] {
      var a := Aim(s, p).value;
      var d, n := Id(a.parent), SplitName(a.leaf);
      AimPresent(s, own, depth, p);
      SplitNameHasNoDot(a.leaf);
      SplitNameFirstByte(a.leaf);
      OpenableIs(s.img, own, depth, d, n);
      if OpensFile(s.img, d, n) { StorableIs(s.img, own, depth, d, n, extra); }
    }
  }

  lemma StorableIs(img: Image, own: map<nat, Loc>, depth: map<nat, nat>, d: nat, n: FName, extra: seq<byte>)
    requires Wf(img, own, depth) && DOT !in n.base && n.base[0] != 0 && OpensFile(img, d, n)
    ensures var room := 512 * Available(img, d, n) - OldSize(img, d, n);
      Storable(img, d, n, extra) == if |extra| <= room then |extra| else room
  {
    hide Wf, Available, OldSize, Opened, Has;
    OpenedSpace(img, own, depth, d, n);
  }

  // ---------- fs_mkdir and fs_rmdir ----------

  lemma CanMkdirIs(img: Image, own: map<nat, Loc>, depth: map<nat, nat>, d: nat, n: FName)
    requires Wf(img, own, depth)
    ensures CanMkdir(img, d, n) <==>
            && d in img.dirs && !IsTaken(img.dirs[d], n) && img.free > 0
            && (HasUnused(img.dirs[d]) || (d != 0 && img.free > 1))
  {
    hide Has, IsTaken, HasUnused, Room, DotsOk, EntriesOk, OwnersOk, DepthOk, NamesUnique;
    if d in img.dirs { HasIsTaken(img.dirs[d], n); }
    if img.free > 0 { RoomIsCanEnter(img.(free := img.free - 1), d); }
  }

  /** `fs_mkdir` succeeds exactly when the parent resolves, the leaf is not empty, "." or "..", no entry bears
      the name, a cluster is free, and there is an unused slot or, in a subdirectory, a second free
      cluster. It takes those clusters. */
  lemma MkdirExactly(s: State, own: map<nat, Loc>, depth: map<nat, nat>, p: CStr, ok: bool, t: State)
    requires Wf(s.img, own, depth) && Present(s.img, s.cwd) && MkdirStep(s, p, ok, t)
    ensures ok <==>
            Aim(s, p).Some? &&
            var leaf, d := Aim(s, p).value.leaf, Id(Aim(s, p).value.parent);
            && leaf != [] && leaf != [0x2E] && leaf != [0x2E, 0x2E]
            && d in s.img.dirs && !IsTaken(s.img.dirs[d], SplitName(leaf)) && s.img.free > 0
            && (HasUnused(s.img.dirs[d]) || (d != 0 && s.img.free > 1))
    ensures ok ==> t.img.free == s.img.free - 1 - EntryCost(s.img, Id(Aim(s, p).value.parent))
    ensures ok ==> DirEntered(s.img, Id(Aim(s, p).value.parent), SplitName(Aim(s, p).value.leaf), t.img)
  {
    hide Wf, Aim, SplitName, IsTaken, HasUnused, CanMkdir, Made, EntryCost, DirEntered;
    if Aim(s, p).Some? {
      var d, n := Id(Aim(s, p).value.parent), SplitName(Aim(s, p).value.leaf);
      CanMkdirIs(s.img, own, depth, d, n);
      if ok { MkdirFree(s.img, d, n, t.img); }
    }
  }

  /** The parent has the entry of a directory in an unused cluster, which holds "." and ".." and else zeros. */
  ghost predicate DirEntered(img: Image, d: nat, n: FName, t: Image) {
    d in img.dirs && d < 0x1_0000 && img.free > 0 &&
    exists c: u16 ::
      && c !in img.dirs && c !in img.files && c in t.dirs
      && Entered(img.(free := img.free - 1), d, DirectoryEntry(n, c), Image(t.dirs - {c as nat}, t.files, t.free))
      && t.dirs[c] == [DirectoryEntry(DOT_NAME, c), DirectoryEntry(DOTDOT_NAME, d)] + seq(14, i => FREE_ENTRY)
  }

  function DirectoryEntry(n: FName, c: u16): Dirent {
    Dirent(n.base, n.ext, 0x10, [0, 0, 0, 0, 0, 0, 0, 0, 0, 0], 0, 0, c, 0)
  }

  lemma MkdirFree(img: Image, d: nat, n: FName, t: Image)
    requires MkdirIn(img, d, n, true, t)
    ensures t.free == img.free - 1 - EntryCost(img, d)
    ensures DirEntered(img, d, n, t)
  {
    hide Room, Placed, HasUnused, Entered, FreeSlots, NewDirSlots;
    var c: u16 :| Made(img, d, n, c, t);
    var less := img.(free := img.free - 1);
    var p := Placed(less, d, DirEntry(n, c));
    PlacedIsEntered(less, d, DirEntry(n, c));
    EnteredFacts(less, d, DirEntry(n, c), p);
    assert t.dirs - {c as nat} == p.dirs;
    NewSlotsAre(c, d);
  }

  lemma EnteredFacts(img: Image, d: nat, e: Dirent, t: Image)
    requires d in img.dirs && Entered(img, d, e, t)
    ensures t.dirs.Keys == img.dirs.Keys && t.files == img.files && t.free == img.free - EntryCost(img, d)
  {
  }

  lemma NewSlotsAre(c: u16, parent: u16)
    ensures NewDirSlots(c, parent) ==
            [DirectoryEntry(DOT_NAME, c), DirectoryEntry(DOTDOT_NAME, parent)] + seq(14, i => FREE_ENTRY)
  {
  }

  /** `fs_rmdir` succeeds exactly on a directory other than the current one, under a leaf that is not empty, "."
      or "..", in which all slots behind the two dot entries are unused. It frees its clusters. */
  lemma RmdirExactly(s: State, own: map<nat, Loc>, depth: map<nat, nat>, p: CStr, ok: bool, t: State)
    requires Wf(s.img, own, depth) && Present(s.img, s.cwd) && RmdirStep(s, p, ok, t)
    ensures ok <==>
            Aim(s, p).Some? &&
            var leaf, d := Aim(s, p).value.leaf, Id(Aim(s, p).value.parent);
            && leaf != [] && leaf != [0x2E] && leaf != [0x2E, 0x2E]
            && IsIdleDir(s.img, Id(s.cwd), Lookup(s.img, d, SplitName(leaf)))
    ensures ok ==>
              var node := Lookup(s.img, Id(Aim(s, p).value.parent), SplitName(Aim(s, p).value.leaf));
              t.img.free == s.img.free + |s.img.dirs[node.value.id]| / 16
    ensures ok ==> Struck(s.img, Id(Aim(s, p).value.parent), SplitName(Aim(s, p).value.leaf), t.img)
  {
    hide Wf, Aim, SplitName, RmdirIn, Lookup, IsIdleDir, Struck;
    if Aim(s, p).Some? {
      var a := Aim(s, p).value;
      SplitNameHasNoDot(a.leaf);
      RmdirInExactly(s.img, own, depth, s.cwd, Id(a.parent), SplitName(a.leaf));
    }
  }

  /** An empty directory other than `cwd`. */
  predicate IsIdleDir(img: Image, cwd: nat, node: Option<Node>) {
    match node
    case Some(DirNode(h)) => h in img.dirs && h != cwd && forall i | 2 <= i < |img.dirs[h]| :: Unused(img.dirs[h][i])
    case _ => false
  }

  lemma RmdirInExactly(img: Image, own: map<nat, Loc>, depth: map<nat, nat>, cwd: DirRef, d: nat, n: FName)
    requires Wf(img, own, depth) && Present(img, cwd) && DOT !in n.base
    ensures RmdirIn(img, cwd, d, n).ok <==> IsIdleDir(img, Id(cwd), Lookup(img, d, n))
    ensures RmdirIn(img, cwd, d, n).ok ==>
              IsIdleDir(img, Id(cwd), Lookup(img, d, n))
              && RmdirIn(img, cwd, d, n).img.free == img.free + |img.dirs[Lookup(img, d, n).value.id]| / 16
              && Struck(img, d, n, RmdirIn(img, cwd, d, n).img)
  {
    hide Wf, EmptyDir, FileBytes, Struck;
    FoundIsStruck(img, d, n, RmdirIn(img, cwd, d, n).img);
    if d in img.dirs && Has(img.dirs[d], n) {
      FoundEntry(img, own, depth, d, n);
      var e := img.dirs[d][Find(img.dirs[d], n)];
      if IsDir(e) { EmptyIs(img, own, depth, e.first); }
    }
  }

  lemma EmptyIs(img: Image, own: map<nat, Loc>, depth: map<nat, nat>, h: nat)
    requires Wf(img, own, depth) && h in img.dirs && h != 0
    ensures EmptyDir(img.dirs[h]) <==> forall i | 2 <= i < |img.dirs[h]| :: Unused(img.dirs[h][i])
  {
    hide Shape, EntriesOk, OwnersOk, DepthOk, NamesUnique;
    var slots := img.dirs[h];
    forall i | 2 <= i < |slots| && Live(slots[i])
      ensures slots[i].name != DOT_NAME.base && slots[i].name != DOTDOT_NAME.base
    {
      assert UserSlot(img, h, i);
      UserEntry(img, own, depth, h, i);
      assert DOT_NAME.base[0] == DOT && DOTDOT_NAME.base[0] == DOT;
    }
    assert IsDotEntry(slots[0], DOT_NAME, h) && IsDotEntry(slots[1], DOTDOT_NAME, own[h].dir);
  }

  // ---------- fs_rename ----------

  /** `fs_rename` succeeds exactly when both paths resolve to one directory, the new leaf is not empty, some
      entry bears the old name and none the new, and the references do not differ in a stale cluster.
      The entry changes in its name alone. */
  lemma RenameByName(s: State, own: map<nat, Loc>, depth: map<nat, nat>, p: CStr, to: CStr, ok: bool, t: State)
    requires Wf(s.img, own, depth) && Present(s.img, s.cwd) && RenameStep(s, p, to, ok, t)
    ensures ok <==>
            Aim(s, p).Some? && Aim(s, to).Some? && Aim(s, to).value.leaf != [] && !StaleRoot(s, p, to) &&
            var d := Id(Aim(s, p).value.parent);
            && d == Id(Aim(s, to).value.parent) && d in s.img.dirs
            && IsTaken(s.img.dirs[d], SplitName(Aim(s, p).value.leaf)) && !IsTaken(s.img.dirs[d], SplitName(Aim(s, to).value.leaf))
    ensures ok ==>
              var a, b := Aim(s, p).value, Aim(s, to).value;
              NameChanged(s.img, Id(a.parent), SplitName(a.leaf), SplitName(b.leaf), t.img)
  {
    hide Wf, ResolveParent, SplitName, LeafOf, Has, IsTaken, NameChanged;
    RenameExactly(s, own, depth, p, to, ok, t);
    AimLeaf(s, p);
    AimLeaf(s, to);
    if Aim(s, p).Some? && Aim(s, to).Some? {
      var d, n, m := Id(Aim(s, p).value.parent), SplitName(Aim(s, p).value.leaf), SplitName(Aim(s, to).value.leaf);
      if d in s.img.dirs {
        HasIsTaken(s.img.dirs[d], n);
        HasIsTaken(s.img.dirs[d], m);
        FoundIsRenamed(s.img, d, n, m);
      }
    }
  }

  ghost predicate NameChanged(img: Image, d: nat, from: FName, to: FName, t: Image) {
    && d in img.dirs && t.files == img.files && t.free == img.free
    && exists k | 0 <= k < |img.dirs[d]| ::
         Bears(img.dirs[d][k], from)
         && t.dirs == img.dirs[d := img.dirs[d][k := img.dirs[d][k].(name := to.base, ext := to.ext)]]
  }

  lemma FoundIsRenamed(img: Image, d: nat, from: FName, to: FName)
    ensures RenameIn(img, d, from, to).ok ==> NameChanged(img, d, from, to, RenameIn(img, d, from, to).img)
  {
    if RenameIn(img, d, from, to).ok { assert Bears(img.dirs[d][Find(img.dirs[d], from)], from); }
  }

  // ---------- fs_chdir ----------

  /** `fs_chdir` succeeds exactly when the components of the path, those longer than the buffer in pieces, lead
      to a directory, and goes there. */
  lemma ChdirExactly(s: State, own: map<nat, Loc>, depth: map<nat, nat>, p: CStr, ok: bool, t: State)
    requires Wf(s.img, own, depth) && Present(s.img, s.cwd) && ChdirStep(s, p, ok, t)
    ensures var there := Resolve(s.img, own, if IsAbsolute(p) then 0 else Id(s.cwd), Chopped(Components(p)));
      && (ok <==> there.Some?) && (ok ==> t.img == s.img && there == Some(Id(t.cwd)))
  {
    hide Wf, WalkPath, Resolve, Chopped, Components;
    WalkPathMeans(s.img, own, depth, p, s.cwd);
  }
}
