/** A file nobody aims at keeps its contents over any run of calls. */
module Survival {
  import opened Types
  import opened Names
  import opened Images
  import opened Paths
  import opened Calls
  import opened Keeping
  import opened Reading
  import opened Effects
  import opened Runs
  import opened CwdText

  ghost predicate HasBytes(img: Image, d: nat, n: FName, bytes: seq<byte>) {
    Lookup(img, d, n) == Some(FileNode(bytes))
  }

  predicate AimsAt(s: State, path: seq<byte>, d: nat, n: FName) {
    Aim(s, path).Some? && Id(Aim(s, path).value.parent) == d && SplitName(Aim(s, path).value.leaf) == n
  }

  /** The call writes, extends, deletes or renames name `n` of directory `d`. The other calls cannot
      change a file that is there, even if they aim at it. */
  predicate Touches(s: State, c: Call, d: nat, n: FName) {
    (c.Write? || c.Append? || c.Delete? || c.Rename?) && AimsAt(s, c.path, d, n)
  }

  lemma CreateSpares(img: Image, own: map<nat, Loc>, depth: map<nat, nat>, d: nat, n: FName, d2: nat, n2: FName, bytes: seq<byte>)
    requires Wf(img, own, depth) && HasBytes(img, d2, n2, bytes) && DOT !in n.base && n.base[0] != 0
    requires CreateIn(img, d, n).ok
    ensures HasBytes(CreateIn(img, d, n).img, d2, n2, bytes)
  {
    hide Wf, CreateIn, Lookup;
    CreateWasNew(img, d, n);
    CreateLookup(img, own, depth, d, n, d2, n2);
  }

  lemma MkdirSpares(img: Image, own: map<nat, Loc>, depth: map<nat, nat>, d: nat, n: FName, t: Image, d2: nat, n2: FName, bytes: seq<byte>)
    requires Wf(img, own, depth) && HasBytes(img, d2, n2, bytes)
    requires DOT !in n.base && n.base[0] != 0 && n.base[0] != DIRENT_DELETED && MkdirIn(img, d, n, true, t)
    ensures HasBytes(t, d2, n2, bytes)
  {
    hide Wf, Made, Lookup, Room;
    var c: u16 :| Made(img, d, n, c, t);
    MadeFacts(img, d, n, c, t);
    MkdirLookup(img, own, depth, d, n, c, t, d2, n2);
    MissingLookup(img, d, n, c, n2);
  }

  lemma RmdirSpares(img: Image, own: map<nat, Loc>, depth: map<nat, nat>, cwd: DirRef, d: nat, n: FName, d2: nat, n2: FName, bytes: seq<byte>)
    requires Wf(img, own, depth) && HasBytes(img, d2, n2, bytes) && DOT !in n.base && DOT !in n2.base
    requires RmdirIn(img, cwd, d, n).ok
    ensures HasBytes(RmdirIn(img, cwd, d, n).img, d2, n2, bytes)
  {
    hide Wf, RmdirIn, FileBytes, EmptyDir;
    RmdirFacts(img, cwd, d, n);
    RmdirLookup(img, own, depth, cwd, d, n, d2, n2);
    var h := img.dirs[d][Find(img.dirs[d], n)].first;
    if d2 == h { UserInside(img, own, depth, h, n2); }
  }

  lemma RenameSpares(img: Image, own: map<nat, Loc>, depth: map<nat, nat>, d: nat, from: FName, to: FName, d2: nat, n2: FName, bytes: seq<byte>)
    requires Wf(img, own, depth) && HasBytes(img, d2, n2, bytes) && !(d2 == d && n2 == from)
    requires DOT !in from.base && DOT !in to.base && to.base[0] != 0 && to.base[0] != DIRENT_DELETED
    requires RenameIn(img, d, from, to).ok
    ensures HasBytes(RenameIn(img, d, from, to).img, d2, n2, bytes)
  {
    hide Wf, RenameIn, Lookup;
    RenameWasNew(img, d, from, to);
    RenameLookup(img, own, depth, d, from, to, d2, n2);
  }

  lemma RenameStepSpares(s: State, own: map<nat, Loc>, depth: map<nat, nat>, p: CStr, to: CStr, t: State, d: nat, n: FName, bytes: seq<byte>)
    requires Wf(s.img, own, depth) && Present(s.img, s.cwd) && RenameStep(s, p, to, true, t)
    requires !Marks(to) && HasBytes(s.img, d, n, bytes) && !AimsAt(s, p, d, n)
    ensures HasBytes(t.img, d, n, bytes)
  {
    hide Wf, Aim, SplitName, RenameIn, HasBytes, Present;
    var a, b := Aim(s, p).value, Aim(s, to).value;
    SplitNameHasNoDot(a.leaf);
    SplitNameHasNoDot(b.leaf);
    LeafFirst(s, to);
    AimPresent(s, own, depth, to);
    SplitNameFirstByte(b.leaf);
    RenameSpares(s.img, own, depth, Id(a.parent), SplitName(a.leaf), SplitName(b.leaf), d, n, bytes);
  }

  lemma OnlyNameSpares(img: Image, d: nat, n: FName, t: Image, node: Option<Node>, d2: nat, n2: FName, bytes: seq<byte>)
    requires OnlyName(img, d, n, t, node) && HasBytes(img, d2, n2, bytes) && !(d2 == d && n2 == n)
    ensures HasBytes(t, d2, n2, bytes)
  {
    hide Lookup;
  }

  /** A harmless call that does not touch a file leaves its bytes as they are. */
  lemma StepSpares(s: State, own: map<nat, Loc>, depth: map<nat, nat>, c: Call, ok: bool, t: State, d: nat, n: FName, bytes: seq<byte>)
    requires Wf(s.img, own, depth) && Present(s.img, s.cwd) && SizeFits(c) && Harmless(c) && Step(s, c, ok, t)
    requires HasBytes(s.img, d, n, bytes) && DOT !in n.base && !Touches(s, c, d, n)
    ensures HasBytes(t.img, d, n, bytes)
  {
    hide Wf, Aim, SplitName, CreateIn, DeleteIn, RmdirIn, MkdirIn, WriteIn, AppendIn, Present, HasBytes, OnlyName, WalkPath;
    if !ok && !c.Write? && !c.Append? {
      FailureChangesNothing(s, c, t);
    } else if !c.Chdir? && Aim(s, c.path).Some? {
      AimPresent(s, own, depth, c.path);
      var a := Aim(s, c.path).value;
      var d1, n1 := Id(a.parent), SplitName(a.leaf);
      SplitNameHasNoDot(a.leaf);
      SplitNameFirstByte(a.leaf);
      match c
      case Create(_) => CreateSpares(s.img, own, depth, d1, n1, d, n, bytes);
      case Write(_, data) =>
        if a.leaf != [] {
          var node := WriteEffect(s, own, depth, d1, n1, data, ok, t);
          OnlyNameSpares(s.img, d1, n1, t.img, node, d, n, bytes);
        }
      case Append(_, data) =>
        if a.leaf != [] {
          var node := AppendEffect(s, own, depth, d1, n1, data, ok, t);
          OnlyNameSpares(s.img, d1, n1, t.img, node, d, n, bytes);
        }
      case Delete(_) =>
        DeleteOnly(s.img, own, depth, d1, n1);
        OnlyNameSpares(s.img, d1, n1, t.img, None, d, n, bytes);
      case Rename(p, to) => RenameStepSpares(s, own, depth, p, to, t, d, n, bytes);
      case Mkdir(p) =>
        LeafFirst(s, p);
        MkdirSpares(s.img, own, depth, d1, n1, t.img, d, n, bytes);
      case Rmdir(_) => RmdirSpares(s.img, own, depth, s.cwd, d1, n1, d, n, bytes);
    }
  }

  /** A run none of whose calls touches name `n` of directory `d` at the time it is made. */
  ghost predicate RunPast(s: State, calls: seq<Call>, oks: seq<bool>, t: State, d: nat, n: FName)
    requires forall i | 0 <= i < |calls| :: SizeFits(calls[i])
    decreases |calls|
  {
    |oks| == |calls| &&
    if calls == [] then t == s
    else
      var k := |calls| - 1;
      exists mid :: RunPast(s, calls[..k], oks[..k], mid, d, n) && Step(mid, calls[k], oks[k], t) && !Touches(mid, calls[k], d, n)
  }

  /** However many clusters are freed, reused and linked meanwhile, the file holds the same bytes after
      any run of harmless calls, succeeding or failing, that does not touch it. */
  lemma {:induction false} DataSurvives(s: State, calls: seq<Call>, oks: seq<bool>, t: State, d: nat, n: FName, bytes: seq<byte>)
    requires forall i | 0 <= i < |calls| :: SizeFits(calls[i]) && Harmless(calls[i])
    requires Sound(s.img) && Present(s.img, s.cwd) && RunPast(s, calls, oks, t, d, n)
    requires HasBytes(s.img, d, n, bytes) && DOT !in n.base
    ensures Sound(t.img) && Present(t.img, t.cwd) && HasBytes(t.img, d, n, bytes)
    decreases |calls|
  {
    hide Wf, Step, Careless, Harmless, Present, HasBytes, Touches;
    if calls != [] {
      var k := |calls| - 1;
      var mid :| RunPast(s, calls[..k], oks[..k], mid, d, n) && Step(mid, calls[k], oks[k], t) && !Touches(mid, calls[k], d, n);
      DataSurvives(s, calls[..k], oks[..k], mid, d, n, bytes);
      var own, depth :| Wf(mid.img, own, depth);
      HarmlessIsCareful(mid, calls[k]);
      StepKeeps(mid, own, depth, calls[k], oks[k], t);
      StepSpares(mid, own, depth, calls[k], oks[k], t, d, n, bytes);
    }
  }

  /** Write, then let any harmless calls run that do not touch the file: every path that now stands for
      it reads the data. */
  lemma WriteRunRead(s: State, own: map<nat, Loc>, depth: map<nat, nat>, p: CStr, data: seq<byte>, mid: State,
                     calls: seq<Call>, oks: seq<bool>, t: State, q: seq<byte>)
    requires Wf(s.img, own, depth) && Present(s.img, s.cwd) && |data| <= 0x1_0000_0000 - 512
    requires WriteStep(s, p, data, true, mid)
    requires forall i | 0 <= i < |calls| :: SizeFits(calls[i]) && Harmless(calls[i])
    requires Aim(s, p).Some?
    requires var d, n := Id(Aim(s, p).value.parent), SplitName(Aim(s, p).value.leaf);
      RunPast(mid, calls, oks, t, d, n) && AimsAt(t, q, d, n)
    ensures FileAt(t, q) == Some(data)
  {
    hide Wf, Aim, SplitName, WriteIn, Present, OnlyName, RunPast, Lookup, Step, Harmless;
    var a := Aim(s, p).value;
    var d, n := Id(a.parent), SplitName(a.leaf);
    AimPresent(s, own, depth, p);
    SplitNameHasNoDot(a.leaf);
    SplitNameFirstByte(a.leaf);
    var node := WriteEffect(s, own, depth, d, n, data, true, mid);
    OnlyNameIs(s.img, d, n, mid.img, node);
    WriteKeeps(s, own, depth, d, n, data, a, true, mid);
    DataSurvives(mid, calls, oks, t, d, n, data);
  }

  lemma OnlyNameIs(img: Image, d: nat, n: FName, t: Image, node: Option<Node>)
    requires OnlyName(img, d, n, t, node)
    ensures Lookup(t, d, n) == node
  {
    hide Lookup;
  }
}
