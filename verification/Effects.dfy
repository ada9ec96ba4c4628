/** The calls as a reader of paths sees them. */
module Effects {
  import opened Types
  import opened Names
  import opened Images
  import opened Paths
  import opened Soundness
  import opened Calls
  import opened Keeping
  import opened Reading

  /** What the open step of write and append leaves behind. */
  lemma OpenedLookup(img: Image, own: map<nat, Loc>, depth: map<nat, nat>, d: nat, n: FName, d2: nat, n2: FName)
    requires Wf(img, own, depth) && DOT !in n.base && n.base[0] != 0
    ensures var o := Opened(img, d, n);
      && (o.ok && d2 == d && n2 == n ==> o.img == img || Lookup(o.img, d, n) == Some(FileNode([])))
      && (!(o.ok && d2 == d && n2 == n) ==> Lookup(o.img, d2, n2) == Lookup(img, d2, n2))
      && (o.ok && o.img != img ==> Lookup(img, d, n) == None)
      && (o.ok ==> Lookup(o.img, d, n).Some?)
      && o.img.dirs.Keys == img.dirs.Keys
  {
    hide Wf;
    if !(d in img.dirs && Has(img.dirs[d], n)) && CreateIn(img, d, n).ok {
      CreateLookup(img, own, depth, d, n, d2, n2);
      CreateLookup(img, own, depth, d, n, d, n);
    }
  }

  lemma LookupKind(img: Image, d: nat, n: FName)
    requires d in img.dirs && Has(img.dirs[d], n)
    ensures Lookup(img, d, n) == Some(NodeOf(img, img.dirs[d][Find(img.dirs[d], n)]))
  {
  }

  /** One name of one directory, before and after. */
  ghost predicate OnlyName(img: Image, d: nat, n: FName, t: Image, node: Option<Node>) {
    t.dirs.Keys == img.dirs.Keys
    && forall d2, n2 :: Lookup(t, d2, n2) == if d2 == d && n2 == n then node else Lookup(img, d2, n2)
  }

  /** What `fs_write` does to names. If a plain file is there or can be created, its own name holds the
      data on success and an empty file when the disk is full; otherwise the call fails and the name is
      as it was. No other name changes. */
  lemma WriteEffect(s: State, own: map<nat, Loc>, depth: map<nat, nat>, d: nat, n: FName, data: seq<byte>, ok: bool, t: State)
    returns (node: Option<Node>)
    requires Wf(s.img, own, depth) && DOT !in n.base && n.base[0] != 0 && |data| <= 0x1_0000_0000 - 512
    requires WriteIn(s, d, n, data, ok, t)
    ensures OnlyName(s.img, d, n, t.img, node)
    ensures node == if OpensFile(s.img, d, n) then Some(FileNode(if ok then data else [])) else Lookup(s.img, d, n)
    ensures OpensFile(s.img, d, n) ==> NoDir(Lookup(s.img, d, n))
    ensures ok ==> OpensFile(s.img, d, n)
  {
    hide Wf, Lookup, Opened, Overwritten, FileBytes;
    var o := Opened(s.img, d, n);
    OpenedLookup(s.img, own, depth, d, n, d, n);
    OpenedKeeps(s.img, own, depth, d, n);
    if o.ok { LookupKind(o.img, d, n); }
    var overwrites := o.ok && !IsDir(o.img.dirs[d][Find(o.img.dirs[d], n)]);
    node := if overwrites then Some(FileNode(if ok then data else [])) else Lookup(o.img, d, n);
    if overwrites { OverwritePresent(o.img, d, Find(o.img.dirs[d], n), data, ok, t.img); }
    forall d2, n2
      ensures Lookup(t.img, d2, n2) == if d2 == d && n2 == n then node else Lookup(s.img, d2, n2)
    {
      OpenedLookup(s.img, own, depth, d, n, d2, n2);
      if overwrites { OverwriteLookup(o.img, own, depth, d, n, data, ok, t.img, d2, n2); }
    }
  }

  /** The bytes an append stores: none where no plain file opens, else as many as fit. */
  function Storable(img: Image, d: nat, n: FName, extra: seq<byte>): (stored: int)
    ensures stored <= |extra|
  {
    var o := Opened(img, d, n);
    if OpensFile(img, d, n) then Fitting(o.img, o.img.dirs[d][Find(o.img.dirs[d], n)], extra) else 0
  }

  /** What `fs_append` does to names: its own holds what it held and as many of the bytes as fit, if a
      plain file is there or can be created, and is as it was otherwise. No other name changes. */
  lemma AppendEffect(s: State, own: map<nat, Loc>, depth: map<nat, nat>, d: nat, n: FName, extra: seq<byte>, ok: bool, t: State)
    returns (node: Option<Node>)
    requires Wf(s.img, own, depth) && DOT !in n.base && n.base[0] != 0 && |extra| < 0x1_0000_0000
    requires AppendIn(s, d, n, extra, ok, t)
    ensures OnlyName(s.img, d, n, t.img, node) && 0 <= Storable(s.img, d, n, extra)
    ensures node == if OpensFile(s.img, d, n) then WithMore(Lookup(s.img, d, n), extra[..Storable(s.img, d, n, extra)])
                    else Lookup(s.img, d, n)
    ensures OpensFile(s.img, d, n) ==> NoDir(Lookup(s.img, d, n))
    ensures ok <==> OpensFile(s.img, d, n) && Storable(s.img, d, n, extra) == |extra|
    ensures !ok && OpensFile(s.img, d, n) ==> t.img.free == 0
  {
    hide Wf, Lookup, Opened, FileBytes;
    var o := Opened(s.img, d, n);
    OpenedLookup(s.img, own, depth, d, n, d, n);
    OpenedKeeps(s.img, own, depth, d, n);
    node := Lookup(o.img, d, n);
    var grows := false;
    if o.ok {
      LookupKind(o.img, d, n);
      var e := o.img.dirs[d][Find(o.img.dirs[d], n)];
      grows := !IsDir(e) && extra != [];
      if grows {
        ExtendLookup(o.img, own, depth, d, n, extra, ok, t.img, d, n);
        node := Some(FileNode(FileBytes(o.img, e) + extra[..Storable(s.img, d, n, extra)]));
        ExtendPresent(o.img, d, Find(o.img.dirs[d], n), extra, ok, t.img);
        FullAfter(o.img, own, depth, d, n, extra, ok, t.img);
      } else if !IsDir(e) {
        NothingFitting(o.img, own, depth, d, n);
        assert FileBytes(o.img, e) + extra[..0] == FileBytes(o.img, e);
      }
    }
    forall d2, n2
      ensures Lookup(t.img, d2, n2) == if d2 == d && n2 == n then node else Lookup(s.img, d2, n2)
    {
      OpenedLookup(s.img, own, depth, d, n, d2, n2);
      if grows { ExtendLookup(o.img, own, depth, d, n, extra, ok, t.img, d2, n2); }
    }
  }

  function WithMore(node: Option<Node>, more: seq<byte>): Option<Node> {
    Some(FileNode(OrEmpty(AsFile(node)) + more))
  }

  lemma NothingFitting(img: Image, own: map<nat, Loc>, depth: map<nat, nat>, d: nat, n: FName)
    requires Wf(img, own, depth) && d in img.dirs && Has(img.dirs[d], n) && DOT !in n.base
    requires !IsDir(img.dirs[d][Find(img.dirs[d], n)])
    ensures Fitting(img, img.dirs[d][Find(img.dirs[d], n)], []) == 0
  {
    hide Wf, FileBytes;
    FoundEntry(img, own, depth, d, n);
    NoZeroChain(img, own, depth);
    assert SectorsOf(img, img.dirs[d][Find(img.dirs[d], n)]) == SectorsFor(img.dirs[d][Find(img.dirs[d], n)].size);
  }

  /** An append that fails on a plain file has used up every free cluster. */
  lemma FullAfter(img: Image, own: map<nat, Loc>, depth: map<nat, nat>, d: nat, n: FName, extra: seq<byte>, ok: bool, t: Image)
    requires Wf(img, own, depth) && d in img.dirs && Has(img.dirs[d], n) && DOT !in n.base
    requires !IsDir(img.dirs[d][Find(img.dirs[d], n)])
    requires FileExtended(img, d, Find(img.dirs[d], n), extra, ok, t)
    ensures !ok ==> t.free == 0
  {
    hide Wf, FileChange, FileHolds, FileBytes;
    FoundEntry(img, own, depth, d, n);
    NoZeroChain(img, own, depth);
    var e := img.dirs[d][Find(img.dirs[d], n)];
    var len := SectorsOf(img, e);
    assert len == SectorsFor(e.size);
    if !ok {
      assert e.size + RoomToAppend(img, e) == 512 * (len + img.free);
    }
  }

  function OrEmpty(bytes: Option<seq<byte>>): seq<byte> {
    match bytes
    case Some(b) => b
    case None => []
  }

  // ---------- read after write, over paths ----------

  /** After `fs_write` of `data` to `p` on a sound volume, for every path `q`: reading `q` gives `data` if
      it stands for the same name, and what it gave before otherwise. If the call fails, `p` reads as an
      empty file where a plain file opened, because the disk filled up, and as before elsewhere. */
  lemma WriteThenRead(s: State, own: map<nat, Loc>, depth: map<nat, nat>, p: CStr, data: seq<byte>, ok: bool, t: State, q: seq<byte>)
    requires Wf(s.img, own, depth) && Present(s.img, s.cwd) && |data| <= 0x1_0000_0000 - 512
    requires WriteStep(s, p, data, ok, t)
    ensures !SameTarget(s, p, q) ==> FileAt(t, q) == FileAt(s, q)
    ensures SameTarget(s, p, q) && ok ==> FileAt(t, q) == Some(data)
    ensures SameTarget(s, p, q) && !ok ==> FileAt(t, q) == if CanWrite(s, p) then Some([]) else FileAt(s, q)
    ensures ok ==> SameTarget(s, p, p) && CanWrite(s, p)
  {
    hide Wf, Aim, WriteIn, OnlyName, SplitName, FileAt;
    if Aim(s, p).Some? && Aim(s, p).value.leaf != [] {
      var a := Aim(s, p).value;
      var d, n := Id(a.parent), SplitName(a.leaf);
      AimPresent(s, own, depth, p);
      SplitNameHasNoDot(a.leaf);
      SplitNameFirstByte(a.leaf);
      var node := WriteEffect(s, own, depth, d, n, data, ok, t);
      WriteKeeps(s, own, depth, d, n, data, a, ok, t);
      WriteInKeepsCwd(s, d, n, data, ok, t);
      NameEffect(s, own, depth, p, t, node, q);
      if SameTarget(s, p, q) { FileAtTarget(s, p, q); }
    }
  }

  lemma FileAtTarget(s: State, p: seq<byte>, q: seq<byte>)
    requires SameTarget(s, p, q)
    ensures FileAt(s, q) == AsFile(Lookup(s.img, Id(Aim(s, p).value.parent), SplitName(Aim(s, p).value.leaf)))
  {
    hide Aim, Lookup, SplitName;
  }

  lemma WriteInKeepsCwd(s: State, d: nat, n: FName, data: seq<byte>, ok: bool, t: State)
    requires |data| < 0x1_0000_0000 && WriteIn(s, d, n, data, ok, t)
    ensures t.cwd == s.cwd && t.text == s.text
  {
  }

  /** One name changed, read over paths: nothing happens to the others, and to this one only if no
      directory is behind it. */
  lemma NameEffect(s: State, own: map<nat, Loc>, depth: map<nat, nat>, p: seq<byte>, t: State, node: Option<Node>, q: seq<byte>)
    requires Wf(s.img, own, depth) && Present(s.img, s.cwd) && Sound(t.img) && t.cwd == s.cwd && Aim(s, p).Some?
    requires var d, n := Id(Aim(s, p).value.parent), SplitName(Aim(s, p).value.leaf);
      OnlyName(s.img, d, n, t.img, node) && (node == Lookup(s.img, d, n) || (NoDir(node) && NoDir(Lookup(s.img, d, n))))
    ensures FileAt(t, q) == if SameTarget(s, p, q) then AsFile(node) else FileAt(s, q)
  {
    hide Wf, Aim, Lookup, SplitName;
    var d, n := Id(Aim(s, p).value.parent), SplitName(Aim(s, p).value.leaf);
    if NoDir(node) && NoDir(Lookup(s.img, d, n)) {
      OneNameChanged(s, own, depth, p, t, node, q);
    } else {
      var own2, depth2 :| Wf(t.img, own2, depth2);
      forall d2, n2
        ensures DirView(t.img, d2, n2) == DirView(s.img, d2, n2)
      {
        assert Lookup(t.img, d2, n2) == Lookup(s.img, d2, n2);
      }
      SameTreeAim(s, own, depth, t, own2, depth2, q);
    }
  }

  /** A write whose size makes the cluster count wrap reports success, records the size, and stores nothing:
      the file reads as empty and the volume is no longer sound. */
  lemma HugeWriteLosesData(img: Image, own: map<nat, Loc>, depth: map<nat, nat>, d: nat, n: FName, data: seq<byte>, ok: bool, t: Image)
    requires Wf(img, own, depth) && d in img.dirs && Has(img.dirs[d], n) && DOT !in n.base
    requires !IsDir(img.dirs[d][Find(img.dirs[d], n)]) && 0x1_0000_0000 - 512 < |data| < 0x1_0000_0000
    requires Overwritten(img, d, Find(img.dirs[d], n), data, ok, t)
    ensures ok && !Sound(t)
    ensures d in t.dirs && Find(img.dirs[d], n) < |t.dirs[d]|
    ensures var e := t.dirs[d][Find(img.dirs[d], n)]; e.size == |data| && FileBytes(t, e) == []
  {
    hide Wf, FileHolds;
    var k := Find(img.dirs[d], n);
    SectorsFor32IsRight(|data|);
    FoundEntry(img, own, depth, d, n);
    NoZeroChain(img, own, depth);
    assert t.files == img.files - {ChainOf(img.dirs[d][k]) as nat};
    SizeNeedsChain(t, d, k);
  }

  /** The bytes an append to a path stores. */
  function StorableAt(s: State, p: seq<byte>, extra: seq<byte>): (stored: int)
    ensures stored <= |extra|
  {
    if !CanWrite(s, p) then 0
    else Storable(s.img, Id(Aim(s, p).value.parent), SplitName(Aim(s, p).value.leaf), extra)
  }

  /** After `fs_append` to `p`, for every path `q`: if it stands for the same name it reads as what was
      there and as many bytes of `extra` as fit, all of them exactly on success; and as before otherwise. */
  lemma AppendThenRead(s: State, own: map<nat, Loc>, depth: map<nat, nat>, p: CStr, extra: seq<byte>, ok: bool, t: State, q: seq<byte>)
    requires Wf(s.img, own, depth) && Present(s.img, s.cwd) && |extra| < 0x1_0000_0000
    requires AppendPathStep(s, p, extra, ok, t)
    ensures !SameTarget(s, p, q) ==> FileAt(t, q) == FileAt(s, q)
    ensures 0 <= StorableAt(s, p, extra) && (ok <==> CanWrite(s, p) && StorableAt(s, p, extra) == |extra|)
    ensures SameTarget(s, p, q) ==>
              FileAt(t, q) == if CanWrite(s, p) then Some(OrEmpty(FileAt(s, q)) + extra[..StorableAt(s, p, extra)])
                              else FileAt(s, q)
    ensures !ok && CanWrite(s, p) ==> t.img.free == 0
  {
    hide Wf, Aim, AppendIn, OnlyName, SplitName, FileAt, OpensFile, Storable;
    if Aim(s, p).Some? && Aim(s, p).value.leaf != [] {
      var a := Aim(s, p).value;
      var d, n := Id(a.parent), SplitName(a.leaf);
      AimPresent(s, own, depth, p);
      SplitNameHasNoDot(a.leaf);
      SplitNameFirstByte(a.leaf);
      var node := AppendEffect(s, own, depth, d, n, extra, ok, t);
      AppendKeeps(s, own, depth, d, n, extra, a, ok, t);
      AppendInKeepsCwd(s, d, n, extra, ok, t);
      NameEffect(s, own, depth, p, t, node, q);
      if SameTarget(s, p, q) { FileAtTarget(s, p, q); }
    }
  }

  lemma AppendInKeepsCwd(s: State, d: nat, n: FName, extra: seq<byte>, ok: bool, t: State)
    requires AppendIn(s, d, n, extra, ok, t)
    ensures t.cwd == s.cwd && t.text == s.text
  {
  }

  lemma AimLeaf(s: State, p: seq<byte>)
    ensures Aim(s, p).Some? ==> Aim(s, p).value.leaf == LeafOf(p)
  {
  }

  /** A created file reads as empty (unless its name starts with byte 0xE5, when it is not found);
      every other path reads as before. */
  lemma CreateThenRead(s: State, own: map<nat, Loc>, depth: map<nat, nat>, p: CStr, t: State, q: seq<byte>)
    requires Wf(s.img, own, depth) && Present(s.img, s.cwd) && CreateStep(s, p, true, t)
    ensures FileAt(t, q) == if SameTarget(s, p, q) then (if LeafOf(p)[0] == 0xE5 then None else Some([])) else FileAt(s, q)
    ensures SameTarget(s, p, p) && LeafOf(p) != [] && FileAt(s, p) == None
  {
    hide Wf, Aim, CreateIn, SplitName, Lookup, OnlyName, LeafOf;
    var a := Aim(s, p).value;
    var d, n := Id(a.parent), SplitName(a.leaf);
    AimLeaf(s, p);
    AimPresent(s, own, depth, p);
    SplitNameHasNoDot(a.leaf);
    SplitNameFirstByte(a.leaf);
    CreateKeeps(s.img, own, depth, d, n);
    CreateWasNew(s.img, d, n);
    var node: Option<Node> := if n.base[0] == DIRENT_DELETED then None else Some(FileNode([]));
    assert OnlyName(s.img, d, n, t.img, node) by { CreateOnly(s.img, own, depth, d, n, node); }
    NameEffect(s, own, depth, p, t, node, q);
  }

  lemma CreateWasNew(img: Image, d: nat, n: FName)
    requires CreateIn(img, d, n).ok
    ensures Lookup(img, d, n) == None
  {
  }

  lemma CreateOnly(img: Image, own: map<nat, Loc>, depth: map<nat, nat>, d: nat, n: FName, node: Option<Node>)
    requires Wf(img, own, depth) && DOT !in n.base && n.base[0] != 0 && CreateIn(img, d, n).ok
    requires node == if n.base[0] == DIRENT_DELETED then None else Some(FileNode([]))
    ensures OnlyName(img, d, n, CreateIn(img, d, n).img, node)
  {
    CreateWasNew(img, d, n);
    CreateKeys(img, d, n);
    hide Wf, CreateIn, Lookup;
    forall d2, n2
      ensures Lookup(CreateIn(img, d, n).img, d2, n2) == if d2 == d && n2 == n then node else Lookup(img, d2, n2)
    {
      CreateLookup(img, own, depth, d, n, d2, n2);
    }
  }

  lemma CreateKeys(img: Image, d: nat, n: FName)
    ensures CreateIn(img, d, n).img.dirs.Keys == img.dirs.Keys
  {
  }

  /** A deleted file is gone; every other path reads as before. */
  lemma DeleteThenRead(s: State, own: map<nat, Loc>, depth: map<nat, nat>, p: CStr, t: State, q: seq<byte>)
    requires Wf(s.img, own, depth) && Present(s.img, s.cwd) && DeleteStep(s, p, true, t)
    ensures FileAt(t, q) == if SameTarget(s, p, q) then None else FileAt(s, q)
    ensures SameTarget(s, p, p) && FileAt(s, p).Some?
  {
    hide Wf, Aim, DeleteIn, SplitName, Lookup, OnlyName;
    var a := Aim(s, p).value;
    var d, n := Id(a.parent), SplitName(a.leaf);
    SplitNameHasNoDot(a.leaf);
    DeleteKeeps(s.img, own, depth, d, n);
    DeleteOnly(s.img, own, depth, d, n);
    NameEffect(s, own, depth, p, t, None, q);
  }

  lemma DeleteOnly(img: Image, own: map<nat, Loc>, depth: map<nat, nat>, d: nat, n: FName)
    requires Wf(img, own, depth) && DOT !in n.base && DeleteIn(img, d, n).ok
    ensures OnlyName(img, d, n, DeleteIn(img, d, n).img, None)
    ensures AsFile(Lookup(img, d, n)).Some?
  {
    hide Wf, FileBytes;
    forall d2, n2
      ensures Lookup(DeleteIn(img, d, n).img, d2, n2) == if d2 == d && n2 == n then None else Lookup(img, d2, n2)
    {
      DeleteLookup(img, own, depth, d, n, d2, n2);
    }
  }

  // ---------- failures, success conditions, undoing ----------

  /** A failing call other than a write or an append leaves everything as it was: tree, free space,
      current directory and its text. */
  lemma FailureChangesNothing(s: State, c: Call, t: State)
    requires SizeFits(c) && Step(s, c, false, t) && !c.Write? && !c.Append?
    ensures t == s
  {
    hide ResolveParent, WalkPath;
  }

  /** Overwriting a plain file succeeds exactly when its data fits in the free clusters and its own;
      afterwards the free space has changed by exactly the difference, and a failure has given all back. */
  lemma OverwriteExactly(img: Image, own: map<nat, Loc>, depth: map<nat, nat>, d: nat, n: FName, data: seq<byte>, ok: bool, t: Image)
    requires Wf(img, own, depth) && d in img.dirs && Has(img.dirs[d], n) && DOT !in n.base
    requires !IsDir(img.dirs[d][Find(img.dirs[d], n)]) && |data| <= 0x1_0000_0000 - 512
    requires Overwritten(img, d, Find(img.dirs[d], n), data, ok, t)
    ensures var old_ := SectorsFor(img.dirs[d][Find(img.dirs[d], n)].size);
      && (ok <==> SectorsFor(|data|) <= img.free + old_)
      && t.free == img.free + old_ - (if ok then SectorsFor(|data|) else 0)
  {
    hide Wf, FileHolds, FileChange;
    SectorsFor32IsRight(|data|);
    FoundEntry(img, own, depth, d, n);
    NoZeroChain(img, own, depth);
  }

  /** Deleting what was just created restores every name. */
  lemma DeleteUndoesCreate(img: Image, own: map<nat, Loc>, depth: map<nat, nat>, d: nat, n: FName, d2: nat, n2: FName)
    requires Wf(img, own, depth) && DOT !in n.base && n.base[0] != 0 && n.base[0] != DIRENT_DELETED && CreateIn(img, d, n).ok
    ensures var mid := CreateIn(img, d, n).img;
      DeleteIn(mid, d, n).ok && Lookup(DeleteIn(mid, d, n).img, d2, n2) == Lookup(img, d2, n2)
  {
    hide Wf, CreateIn;
    var mid := CreateIn(img, d, n).img;
    CreateKeeps(img, own, depth, d, n);
    CreateLookup(img, own, depth, d, n, d, n);
    CreateLookup(img, own, depth, d, n, d2, n2);
    assert DeleteIn(mid, d, n).ok;
    DeleteLookup(mid, own, depth, d, n, d2, n2);
    CreateWasNew(img, d, n);
  }

  /** Removing the directory just made, from outside it, restores every name and the free space it took. */
  lemma RmdirUndoesMkdir(img: Image, own: map<nat, Loc>, depth: map<nat, nat>, cwd: DirRef, d: nat, n: FName, t: Image, d2: nat, n2: FName)
    requires Wf(img, own, depth) && Present(img, cwd) && DOT !in n.base && n.base[0] != 0 && n.base[0] != DIRENT_DELETED
    requires MkdirIn(img, d, n, true, t)
    ensures RmdirIn(t, cwd, d, n).ok
    ensures Lookup(RmdirIn(t, cwd, d, n).img, d2, n2) == Lookup(img, d2, n2)
    ensures RmdirIn(t, cwd, d, n).img.free == t.free + 1
  {
    hide Wf, Made, Room;
    var c: u16 :| Made(img, d, n, c, t);
    MadeFacts(img, d, n, c, t);
    MkdirKeeps(img, own, depth, d, n, true, t);
    var own2, depth2 :| Wf(t, own2, depth2);
    MkdirLookup(img, own, depth, d, n, c, t, d, n);
    MkdirLookup(img, own, depth, d, n, c, t, d2, n2);
    RmdirOfNew(t, cwd, d, n, c);
    RmdirLookup(t, own2, depth2, cwd, d, n, d2, n2);
    MissingLookup(img, d, n, c, n2);
  }

  lemma MadeFacts(img: Image, d: nat, n: FName, c: u16, t: Image)
    requires d in img.dirs && d < 0x1_0000 && img.free > 0 && Room(img.(free := img.free - 1), d) && Made(img, d, n, c, t)
    ensures c in t.dirs && c !in img.dirs && c != 0 && IsNewDir(t.dirs[c], c, d)
  {
    NewDirSlotsFit(c, d);
    hide NewDirSlots;
  }

  lemma RmdirOfNew(t: Image, cwd: DirRef, d: nat, n: FName, c: u16)
    requires Lookup(t, d, n) == Some(DirNode(c)) && c in t.dirs && Id(cwd) != c && IsNewDir(t.dirs[c], c, d)
    ensures RmdirIn(t, cwd, d, n).ok && t.dirs[d][Find(t.dirs[d], n)].first == c
    ensures RmdirIn(t, cwd, d, n).img.free == t.free + 1
  {
    hide FileBytes;
  }

  lemma MissingLookup(img: Image, d: nat, n: FName, c: nat, n2: FName)
    requires c !in img.dirs && d in img.dirs && !Has(img.dirs[d], n)
    ensures Lookup(img, c, n2) == None && Lookup(img, d, n) == None
  {
  }

  // ---------- rename across two ways of naming the root ----------

  /** Both paths name an entry of the same directory, the old name is there and the new one is free. */
  predicate CouldRename(s: State, p: seq<byte>, to: seq<byte>) {
    && Aim(s, p).Some? && Aim(s, to).Some? && LeafOf(to) != []
    && var d := Id(Aim(s, p).value.parent);
       && d == Id(Aim(s, to).value.parent) && d in s.img.dirs
       && Has(s.img.dirs[d], SplitName(LeafOf(p))) && !Has(s.img.dirs[d], SplitName(LeafOf(to)))
  }

  /** The walks to the root of the two paths left different clusters behind in their references. */
  predicate StaleRoot(s: State, p: seq<byte>, to: seq<byte>)
    requires Aim(s, p).Some? && Aim(s, to).Some?
  {
    var a, b := Aim(s, p).value.parent, Aim(s, to).value.parent;
    a.isRoot && b.isRoot && a.cluster != b.cluster
  }

  /** `fs_rename` succeeds exactly when it could, except that it refuses two references to the root that
      differ in a cluster left over from the walk. */
  lemma RenameExactly(s: State, own: map<nat, Loc>, depth: map<nat, nat>, p: CStr, to: CStr, ok: bool, t: State)
    requires Wf(s.img, own, depth) && Present(s.img, s.cwd) && RenameStep(s, p, to, ok, t)
    ensures ok <==> CouldRename(s, p, to) && !StaleRoot(s, p, to)
  {
    hide Wf, ResolveParent, SplitName, LeafOf;
    AimLeaf(s, p);
    AimLeaf(s, to);
    if Aim(s, p).Some? && Aim(s, to).Some? {
      AimPresent(s, own, depth, p);
      AimPresent(s, own, depth, to);
    }
  }

  /** From a directory in the root, "../A" and "/B" never rename into each other. */
  lemma RenameFromBelowFails(s: State, a: byte, b: byte, ok: bool, t: State)
    requires Present(s.img, s.cwd) && !s.cwd.isRoot && Up(s.img, s.cwd).isRoot && a != SLASH && b != SLASH
    requires RenameStep(s, TWO_DOTS + [SLASH, a], [SLASH, b], ok, t)
    ensures !ok && t == s
  {
    hide SplitName, Lookup;
    AimUp(s, a);
    AimRoot(s, b);
  }

  lemma AimUp(s: State, a: byte)
    requires Present(s.img, s.cwd) && !s.cwd.isRoot && a != SLASH
    ensures Aim(s, TWO_DOTS + [SLASH, a]) == Some(Target(Up(s.img, s.cwd), [a]))
  {
    hide Up;
    var p := TWO_DOTS + [SLASH, a];
    assert p[..3] == TWO_DOTS + [SLASH] && p[..4] == p;
    assert AfterLastSlash(p[..3]) == 3 && AfterLastSlash(p) == 3;
    var q := p[..3];
    assert Until(q, SLASH) == TWO_DOTS by { assert q[1..][1..] == [SLASH] && Until([SLASH], SLASH) == []; }
    assert Comp(q) == TWO_DOTS;
    assert q[2..] == [SLASH] && SkipSlashes([SLASH]) == [];
    assert Rest(q) == [];
    assert Walk(s.img, [], Up(s.img, s.cwd)) == Some(Up(s.img, s.cwd));
    assert WalkPath(s.img, q, s.cwd) == Some(Up(s.img, s.cwd));
    assert p[3..] == [a] && [a][..1] == [a];
    assert LeafOf(p) == [a];
  }

  lemma AimRoot(s: State, b: byte)
    requires b != SLASH
    ensures Aim(s, [SLASH, b]) == Some(Target(ROOT, [b]))
  {
    var p := [SLASH, b];
    assert p[..1] == [SLASH] && p[..2] == p && p[1..] == [b];
    assert AfterLastSlash(p[..1]) == 1 && AfterLastSlash(p) == 1;
    assert [SLASH][1..] == [] && [b][..1] == [b];
    assert LeafOf(p) == [b];
  }
}
