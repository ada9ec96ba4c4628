/** Inputs on which the code does not do what one would expect, starting from a freshly formatted volume. */
module Witnesses {
  import opened Types
  import opened Layout
  import opened Codec
  import opened Names
  import opened Images
  import opened Paths
  import opened PathTexts
  import opened Calls
  import opened Keeping
  import opened Reading
  import opened Effects

  /** The volume and the current directory after a format. */
  function Empty(): Image { Image(map[0 := seq(ROOT_ENTRIES, i => FREE_ENTRY)], map[], DATA_CLUSTERS) }

  const START := State(Empty(), ROOT, [SLASH])

  /** A name that reads as deleted. */
  const GHOST: CStr := [DIRENT_DELETED]
  const A: CStr := [0x41]
  const X: CStr := [0x58]

  lemma EmptyWf()
    ensures Wf(Empty(), map[], map[0 := 0])
  {
  }

  lemma EmptyLookup(d: nat, n: FName)
    ensures Lookup(Empty(), d, n) == None
    ensures 0 in Empty().dirs && !Has(Empty().dirs[0], n) && Room(Empty().(free := DATA_CLUSTERS - 1), 0) && Room(Empty(), 0)
  {
    var slots := Empty().dirs[0];
    assert !Live(slots[Min(Find(slots, n), ROOT_ENTRIES - 1)]);
    assert !Live(slots[0]);
  }

  lemma EmptyRoom(n: FName)
    ensures CanMkdir(Empty(), 0, n)
  {
    EmptyLookup(0, n);
    hide Room;
  }

  /** Some directory can be made wherever `fs_mkdir` says so, in any unused cluster. */
  lemma MakeIn(img: Image, d: nat, n: FName, c: u16) returns (t: Image)
    requires CanMkdir(img, d, n) && DataCluster(c) && c !in img.dirs && c !in img.files
    ensures Made(img, d, n, c, t) && MkdirIn(img, d, n, true, t)
  {
    hide NewDirSlots, Room, WithRoom, Has;
    var p := Placed(img.(free := img.free - 1), d, DirEntry(n, c));
    t := Image(p.dirs[c as nat := NewDirSlots(c, d)], p.files, p.free);
    assert Made(img, d, n, c, t);
  }

  /** A path of one component stands for that name in the root. */
  lemma AimAtRoot(s: State, leaf: CStr)
    requires s.cwd == ROOT && leaf != [] && |leaf| <= COMPONENT_MAX && SLASH !in leaf
    ensures Aim(s, leaf) == Some(Target(ROOT, leaf)) && LeafOf(leaf) == leaf
  {
    LastSlash(leaf);
    assert leaf[0..] == leaf && leaf[..|leaf|] == leaf;
  }

  lemma {:induction false} LastSlash(s: seq<byte>)
    requires SLASH !in s
    ensures AfterLastSlash(s) == 0
    decreases |s|
  {
    if s != [] { LastSlash(s[..|s| - 1]); }
  }

  // ---------- byte 0xE5 ----------

  lemma GhostName()
    ensures SplitName(GHOST).base[0] == DIRENT_DELETED && DOT !in SplitName(GHOST).base
  {
    SplitNameFirstByte(GHOST);
    SplitNameHasNoDot(GHOST);
  }

  lemma PlainName(s: CStr)
    requires s != [] && s[0] != DIRENT_DELETED
    ensures var n := SplitName(s); DOT !in n.base && n.base[0] != 0 && n.base[0] != DIRENT_DELETED
  {
    SplitNameFirstByte(s);
    SplitNameHasNoDot(s);
  }

  /** On a fresh volume `fs_mkdir` of the one byte 0xE5 succeeds and loses a cluster. */
  lemma MkdirLoses() returns (t: State)
    ensures Step(START, Mkdir(GHOST), true, t) && Sound(START.img) && !Sound(t.img)
  {
    hide Wf, SplitName, MkdirIn, Made, CanMkdir;
    EmptyWf();
    GhostName();
    AimAtRoot(START, GHOST);
    var n := SplitName(GHOST);
    EmptyRoom(n);
    var img := MakeIn(Empty(), 0, n, 2);
    t := START.(img := img);
    MkdirKeeps(Empty(), map[], map[0 := 0], 0, n, true, img);
  }

  /** A fresh volume with the directory "A" in its root. */
  lemma WithA() returns (s: State)
    ensures Step(START, Mkdir(A), true, s) && Sound(s.img) && s.cwd == ROOT
    ensures Lookup(s.img, 0, SplitName(A)) == Some(DirNode(2)) && Lookup(s.img, 0, SplitName(GHOST)) == None
    ensures Lookup(s.img, 2, DOTDOT_NAME) == Some(DirNode(0)) && (forall n | n != SplitName(A) :: Lookup(s.img, 0, n) == None)
  {
    hide Wf, SplitName, MkdirIn, Made, CanMkdir, Lookup;
    EmptyWf();
    PlainName(A);
    GhostName();
    AimAtRoot(START, A);
    var n := SplitName(A);
    EmptyRoom(n);
    var img := MakeIn(Empty(), 0, n, 2);
    s := START.(img := img);
    MkdirKeeps(Empty(), map[], map[0 := 0], 0, n, true, img);
    EmptyMkdirLookup(n, 2, img, 0, n);
    EmptyMkdirLookup(n, 2, img, 2, DOTDOT_NAME);
    assert DOT_NAME != DOTDOT_NAME by { assert DOT_NAME.base[1] != DOTDOT_NAME.base[1]; }
    forall m: FName | m != n ensures Lookup(img, 0, m) == None { EmptyMkdirLookup(n, 2, img, 0, m); }
  }

  lemma EmptyMkdirLookup(n: FName, c: u16, t: Image, d2: nat, n2: FName)
    requires DOT !in n.base && n.base[0] != 0 && n.base[0] != DIRENT_DELETED && CanMkdir(Empty(), 0, n) && Made(Empty(), 0, n, c, t)
    ensures Lookup(t, d2, n2) ==
            if d2 == 0 && n2 == n then Some(DirNode(c))
            else if d2 == c then (if n2 == DOT_NAME then Some(DirNode(c)) else if n2 == DOTDOT_NAME then Some(DirNode(0)) else None)
            else None
  {
    EmptyWf();
    EmptyLookup(d2, n2);
    hide Wf, Made, Lookup, Empty;
    MkdirLookup(Empty(), map[], map[0 := 0], 0, n, c, t, d2, n2);
  }

  /** Renaming a directory to the one byte 0xE5 succeeds and loses its cluster. */
  lemma RenameLoses() returns (s: State, t: State)
    ensures Step(START, Mkdir(A), true, s) && Step(s, Rename(A, GHOST), true, t) && Sound(s.img) && !Sound(t.img)
  {
    hide Wf, SplitName, MkdirStep, Lookup;
    s := WithA();
    var own, depth :| Wf(s.img, own, depth);
    GhostName();
    PlainName(A);
    AimAtRoot(s, A);
    AimAtRoot(s, GHOST);
    RenameOfDir(s.img, 0, SplitName(A), SplitName(GHOST), 2);
    RenameKeeps(s.img, own, depth, 0, SplitName(A), SplitName(GHOST));
    t := s.(img := RenameIn(s.img, 0, SplitName(A), SplitName(GHOST)).img);
  }

  lemma RenameOfDir(img: Image, d: nat, from: FName, to: FName, id: nat)
    requires Lookup(img, d, from) == Some(DirNode(id)) && Lookup(img, d, to) == None
    ensures RenameIn(img, d, from, to).ok && img.dirs[d][Find(img.dirs[d], from)].first == id
  {
  }

  /** From within "A" the rename of "../A" to "/B" could be done, the name being free, and is refused. */
  lemma RenameRefused() returns (s: State, t: State)
    ensures Step(START, Mkdir(A), true, s) && Step(s, Chdir(A), true, t)
    ensures var p, to := TWO_DOTS + [SLASH, 0x41], [SLASH, 0x42];
      CouldRename(t, p, to) && RenameStep(t, p, to, false, t)
  {
    hide Wf, SplitName, MkdirStep, Lookup, Up, WalkPath, WalkPathText;
    s := WithA();
    var own, depth :| Wf(s.img, own, depth);
    WalkToA(s.img);
    t := State(s.img, DirRef(false, 2), WalkPathText(s.img, A, ROOT, s.text));
    DirThere(s.img, own, depth, 0, A, 2);
    UpIsView(s.img, own, depth, t.cwd);
    RootThere(s.img, own, depth);
    AimUp(t, 0x41);
    AimRoot(t, 0x42);
    NamesDiffer();
    AimLeaf(t, TWO_DOTS + [SLASH, 0x41]);
    AimLeaf(t, [SLASH, 0x42]);
    InRoot(s.img, SplitName(A));
    InRoot(s.img, SplitName([0x42]));
  }

  lemma InRoot(img: Image, n: FName)
    requires 0 in img.dirs
    ensures Has(img.dirs[0], n) <==> Lookup(img, 0, n).Some?
  {
  }

  lemma NamesDiffer()
    ensures SplitName([0x42]) != SplitName(A)
  {
    assert SplitName([0x42]).base[0] == 0x42 && SplitName(A).base[0] == 0x41;
  }

  lemma WalkToA(img: Image)
    requires Lookup(img, 0, SplitName(A)) == Some(DirNode(2))
    ensures WalkPath(img, A, ROOT) == Some(DirRef(false, 2))
  {
    hide SplitName, Lookup;
    UntilOfPrefix(A, A, SLASH);
    assert Comp(A) == A && Rest(A) == [];
    assert Walk(img, [], DirRef(false, 2)) == Some(DirRef(false, 2));
  }

  /** `fs_create` of the one byte 0xE5 succeeds and the file is not found. */
  lemma CreateLoses() returns (t: State)
    ensures Step(START, Create(GHOST), true, t) && FileAt(t, GHOST) == None
  {
    hide Wf, SplitName, FileAt;
    EmptyWf();
    AimAtRoot(START, GHOST);
    EmptyLookup(0, SplitName(GHOST));
    t := START.(img := CreateIn(Empty(), 0, SplitName(GHOST)).img);
    hide CreateIn;
    CreateThenRead(START, map[], map[0 := 0], GHOST, t, GHOST);
  }

  // ---------- components and paths longer than their buffers ----------

  /** A 12-byte name "B.E" with one byte more: the walk enters the directory "B.E" and, below it, the one
      named by that byte, while the component as a whole names "B.E", the byte being cut from the field. */
  lemma LongComponentStrays(img: Image, own: map<nat, Loc>, depth: map<nat, nat>, c: CStr, x: byte, h: nat, g: nat)
    requires Wf(img, own, depth) && |c| == COMPONENT_MAX && SLASH !in c && DOT !in c[..8] && c[8] == DOT
    requires x != SLASH && x != DOT && Lookup(img, 0, SplitName(c)) == Some(DirNode(h)) && Lookup(img, h, SplitName([x])) == Some(DirNode(g))
    ensures IdOf(WalkPath(img, c + [x], ROOT)) == Some(g)
    ensures Resolve(img, own, 0, Components(c + [x])) == Some(h) && g != h
  {
    hide Wf, SplitName, Lookup, WalkPath, Components, Chopped, Resolve;
    CutName(c, x);
    OneComponent(c + [x]);
    RootThere(img, own, depth);
    WalkPathMeans(img, own, depth, c + [x], ROOT);
    PiecesOfLong(c, x);
    TwoSteps(img, own, c, [x]);
    TwoSteps(img, own, c + [x], [x]);
    SplitNameHasNoDot([x]);
    LookupDir(img, own, depth, h, SplitName([x]), g);
    DirThere(img, own, depth, h, [x], g);
    DepthAbove(img, own, depth, g);
  }

  lemma PiecesOfLong(c: seq<byte>, x: byte)
    requires |c| == COMPONENT_MAX
    ensures Chopped([c + [x]]) == [c, [x]]
  {
    var p := c + [x];
    assert p[..COMPONENT_MAX] == c && p[COMPONENT_MAX..] == [x];
    assert Pieces([x]) == [[x]];
    assert Pieces(p) == [c] + Pieces([x]);
    assert Chopped([p]) == Pieces(p) + Chopped([]);
  }

  lemma TwoSteps(img: Image, own: map<nat, Loc>, a: seq<byte>, b: seq<byte>)
    ensures Resolve(img, own, 0, [a]) == ResolveOne(img, own, 0, a)
    ensures Resolve(img, own, 0, [a, b]) ==
            match ResolveOne(img, own, 0, a) case None => None case Some(m) => ResolveOne(img, own, m, b)
  {
    ResolveAppend(img, own, 0, [], a);
    ResolveAppend(img, own, 0, [a], b);
    assert [] + [a] == [a] && [a] + [b] == [a, b];
    hide ResolveOne;
  }

  lemma DirThere(img: Image, own: map<nat, Loc>, depth: map<nat, nat>, d: nat, c: seq<byte>, h: nat)
    requires Wf(img, own, depth) && Lookup(img, d, SplitName(c)) == Some(DirNode(h))
    ensures h in img.dirs
  {
    hide Wf, Lookup;
    SplitNameHasNoDot(c);
    LookupDir(img, own, depth, d, SplitName(c), h);
  }

  lemma OneComponent(p: seq<byte>)
    requires p != [] && SLASH !in p
    ensures Components(p) == [p] && !IsAbsolute(p)
  {
    UntilOfPrefix(p, p, SLASH);
    FirstComponent(p);
    assert p[|p|..] == [];
  }

  /** The fourth byte behind the dot is cut. */
  lemma CutName(c: seq<byte>, x: byte)
    requires |c| == COMPONENT_MAX && DOT !in c[..8] && c[8] == DOT
    ensures SplitName(c + [x]) == SplitName(c)
  {
    UntilOfPrefix(c[..8], c, DOT);
    UntilOfPrefix(c[..8], c + [x], DOT);
    assert AfterDot(c) == c[9..] && AfterDot(c + [x]) == c[9..] + [x];
    hide Until, AfterDot;
  }

  /** "ABCDEFGH.IJK" */
  const LONG: CStr := [0x41, 0x42, 0x43, 0x44, 0x45, 0x46, 0x47, 0x48, DOT, 0x49, 0x4A, 0x4B]

  /** With a directory "X" in the directory "ABCDEFGH.IJK", the one component "ABCDEFGH.IJKX" walks to "X". */
  lemma LongComponentWitness() returns (one: Image, img: Image, own: map<nat, Loc>, depth: map<nat, nat>)
    ensures MkdirIn(Empty(), 0, SplitName(LONG), true, one) && MkdirIn(one, 2, SplitName(X), true, img)
    ensures Wf(img, own, depth)
    ensures IdOf(WalkPath(img, LONG + X, ROOT)) == Some(3) && Resolve(img, own, 0, Components(LONG + X)) == Some(2)
  {
    hide Wf, SplitName, MkdirIn, Made, Lookup, CanMkdir, WalkPath, Resolve, Components;
    var n, m := SplitName(LONG), SplitName(X);
    PlainName(LONG);
    PlainName(X);
    EmptyWf();
    EmptyRoom(n);
    one := MakeIn(Empty(), 0, n, 2);
    MkdirKeeps(Empty(), map[], map[0 := 0], 0, n, true, one);
    var own1, depth1 :| Wf(one, own1, depth1);
    EmptyMkdirLookup(n, 2, one, 0, n);
    NoDots(m);
    EmptyMkdirLookup(n, 2, one, 2, m);
    RoomBelow(n, m, one);
    img := MakeIn(one, 2, m, 3);
    MkdirKeeps(one, own1, depth1, 2, m, true, img);
    own, depth :| Wf(img, own, depth);
    MkdirBelowLookup(one, own1, depth1, m, img, 2, m);
    MkdirBelowLookup(one, own1, depth1, m, img, 0, n);
    assert LONG[..8] == [0x41, 0x42, 0x43, 0x44, 0x45, 0x46, 0x47, 0x48];
    LongComponentStrays(img, own, depth, LONG, 0x58, 2, 3);
  }

  lemma NoDots(n: FName)
    requires DOT !in n.base
    ensures n != DOT_NAME && n != DOTDOT_NAME
  {
    assert DOT_NAME.base[0] == DOT && DOTDOT_NAME.base[0] == DOT;
  }

  /** The new directory has room for more. */
  lemma RoomBelow(n: FName, m: FName, one: Image)
    requires CanMkdir(Empty(), 0, n) && Made(Empty(), 0, n, 2, one) && Lookup(one, 2, m) == None
    ensures CanMkdir(one, 2, m) && 3 !in one.dirs && 3 !in one.files
  {
    hide NewDirSlots, FreeSlot;
    EmptyLookup(0, n);
  }

  lemma MkdirBelowLookup(one: Image, own: map<nat, Loc>, depth: map<nat, nat>, m: FName, t: Image, d2: nat, n2: FName)
    requires Wf(one, own, depth) && CanMkdir(one, 2, m) && Made(one, 2, m, 3, t) && d2 != 3
    requires DOT !in m.base && m.base[0] != 0 && m.base[0] != DIRENT_DELETED
    ensures Lookup(t, d2, n2) == if d2 == 2 && n2 == m then Some(DirNode(3)) else Lookup(one, d2, n2)
  {
    hide Wf, Made, Lookup, Room, Has;
    MkdirLookup(one, own, depth, 2, m, 3, t, d2, n2);
  }

  /** A path whose directory part is 97 bytes long: the 95 slashes in front fill the buffer, and the leaf
      is looked for in the root instead of in the directory "A". */
  lemma LongDirPartStrays() returns (s: State, own: map<nat, Loc>, depth: map<nat, nat>)
    ensures Step(START, Mkdir(A), true, s) && Wf(s.img, own, depth)
    ensures var dir := Slashes(DIRPART_MAX) + A + [SLASH];
      && Aim(s, dir + X) == Some(Target(ROOT, X))
      && Resolve(s.img, own, 0, Components(dir)) == Some(2)
  {
    hide Wf, SplitName, MkdirStep, Lookup, Slashes, Walk;
    s := WithA();
    own, depth :| Wf(s.img, own, depth);
    var dir := Slashes(DIRPART_MAX) + A + [SLASH];
    var p := dir + X;
    LastSlashIn(dir, X);
    assert p[..DIRPART_MAX] == Slashes(DIRPART_MAX) && p[AfterLastSlash(p)..] == X && X[..1] == X;
    WalkSlashes(s.img, DIRPART_MAX);
    assert dir == Slashes(DIRPART_MAX) + (A + [SLASH]);
    ComponentsOfSlashes(DIRPART_MAX, A + [SLASH]);
    AThenSlash();
    TwoSteps(s.img, own, A, A);
  }

  lemma AThenSlash()
    ensures Components(A + [SLASH]) == [A]
  {
    var p := A + [SLASH];
    UntilOfPrefix(A, p, SLASH);
    FirstComponent(p);
    assert p[1..] == [SLASH] && [SLASH][1..] == [] && Components([]) == [];
  }

  lemma LastSlashIn(dir: seq<byte>, leaf: seq<byte>)
    requires dir != [] && dir[|dir| - 1] == SLASH && |leaf| == 1 && SLASH !in leaf
    ensures AfterLastSlash(dir + leaf) == |dir|
  {
    var p := dir + leaf;
    assert p[..|p| - 1] == dir && p[|p| - 1] == leaf[0];
  }

  function Slashes(n: nat): (s: seq<byte>)
    ensures |s| == n
    ensures forall i | 0 <= i < n :: s[i] == SLASH
  {
    seq(n, i => SLASH)
  }

  lemma {:induction false} ComponentsOfSlashes(n: nat, rest: seq<byte>)
    ensures Components(Slashes(n) + rest) == Components(rest)
  {
    hide Slashes;
    var p := Slashes(n) + rest;
    if n == 0 {
      assert p == rest;
    } else {
      assert p[0] == SLASH && p[1..] == Slashes(n - 1) + rest;
      ComponentsOfSlashes(n - 1, rest);
    }
  }

  /** Slashes alone lead to the root. */
  lemma WalkSlashes(img: Image, n: nat)
    requires n > 0
    ensures WalkPath(img, Slashes(n), ROOT) == Some(ROOT)
  {
    hide Slashes, Up, Down;
    var p := Slashes(n)[1..];
    assert Walk(img, [], ROOT) == Some(ROOT);
    if p != [] {
      AllSkipped(p);
      assert Comp(p) == [] && p[0..] == p && Rest(p) == [];
    }
  }

  lemma {:induction false} AllSkipped(p: seq<byte>)
    requires forall i | 0 <= i < |p| :: p[i] == SLASH
    ensures SkipSlashes(p) == []
    decreases |p|
  {
    if p != [] { AllSkipped(p[1..]); }
  }

  // ---------- a leaf without a name ----------

  /** "." stands for the root, but scanning the root for it finds nothing: nothing has eleven spaces for
      a name. */
  lemma DotLeafStrays()
    ensures NodeAt(Empty(), map[], 0, ONE_DOT) == Some(DirNode(0)) && Scanned(Empty(), ROOT, ONE_DOT) == None
    ensures SizeAt(START, ONE_DOT) == None && WalkPath(Empty(), ONE_DOT, ROOT) == Some(ROOT)
  {
    hide SplitName;
    AimAtRoot(START, ONE_DOT);
    EmptyLookup(0, SplitName(ONE_DOT));
    OneComponent(ONE_DOT);
    assert [ONE_DOT][..0] == [];
    assert Resolve(Empty(), map[], 0, []) == Some(0);
    assert Comp(ONE_DOT) == ONE_DOT by { UntilOfPrefix(ONE_DOT, ONE_DOT, SLASH); }
    assert Rest(ONE_DOT) == [] && Walk(Empty(), [], ROOT) == Some(ROOT);
  }
}
