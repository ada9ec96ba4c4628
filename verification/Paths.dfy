/** Walking paths: the byte loop of the source, and the component-by-component meaning it refines. */
module Paths {
  import opened Types
  import opened Names
  import opened Images

  /** Bytes of a component the 13-byte buffer can hold. */
  const COMPONENT_MAX := 12
  /** Bytes of the directory part the 96-byte buffer can hold. */
  const DIRPART_MAX := 95

  const ONE_DOT: seq<byte> := [DOT]
  const TWO_DOTS: seq<byte> := [DOT, DOT]

  // ---------- the walk of the source ----------

  /** The next component, cut at 12 bytes. */
  function Comp(p: seq<byte>): (c: seq<byte>)
    ensures |c| <= |p| && c == p[..|c|]
  {
    var t := Until(p, SLASH);
    t[..Min(|t|, COMPONENT_MAX)]
  }

  function SkipSlashes(p: seq<byte>): (r: seq<byte>)
    ensures |r| <= |p|
    ensures p != [] && p[0] == SLASH ==> |r| < |p|
    ensures p == [] || p[0] != SLASH ==> r == p
    ensures r != [] ==> r[0] != SLASH
  {
    if p != [] && p[0] == SLASH then SkipSlashes(p[1..]) else p
  }

  function Rest(p: seq<byte>): (r: seq<byte>)
    ensures p != [] ==> |r| < |p|
  {
    SkipSlashes(p[|Comp(p)|..])
  }

  /** One step up: read "..". The cluster of a reference that becomes the root stays behind. */
  function Up(img: Image, d: DirRef): DirRef {
    if d.isRoot || Id(d) !in img.dirs || !Has(img.dirs[Id(d)], DOTDOT_NAME) then d
    else UpTo(d, img.dirs[Id(d)][Find(img.dirs[Id(d)], DOTDOT_NAME)].first)
  }

  function UpTo(d: DirRef, first: u16): DirRef {
    if first == 0 then DirRef(true, d.cluster) else DirRef(false, first)
  }

  /** One step down: the entry must be there and be a directory. */
  function Down(img: Image, d: DirRef, comp: seq<byte>): Option<DirRef> {
    match Lookup(img, Id(d), SplitName(comp))
    case Some(DirNode(id)) => if id < 0x1_0000 then Some(DirRef(false, id)) else None
    case _ => None
  }

  function Walk(img: Image, p: seq<byte>, d: DirRef): Option<DirRef>
    decreases |p|
  {
    if p == [] then Some(d)
    else if Comp(p) == [] || Comp(p) == ONE_DOT then Walk(img, Rest(p), d)
    else if Comp(p) == TWO_DOTS then Walk(img, Rest(p), Up(img, d))
    else match Down(img, d, Comp(p))
      case None => None
      case Some(next) => Walk(img, Rest(p), next)
  }

  function IsAbsolute(path: seq<byte>): bool { path != [] && path[0] == SLASH }

  function WalkPath(img: Image, path: seq<byte>, d: DirRef): Option<DirRef> {
    if IsAbsolute(path) then Walk(img, path[1..], ROOT) else Walk(img, path, d)
  }

  /** One past the last '/', 0 when there is none. */
  function AfterLastSlash(path: seq<byte>): (n: nat)
    ensures n <= |path|
    ensures SLASH !in path[n..]
    ensures n > 0 ==> path[n - 1] == SLASH
    decreases |path|
  {
    if path == [] then 0
    else if path[|path| - 1] == SLASH then |path|
    else AfterLastSlash(path[..|path| - 1])
  }

  datatype Target = Target(parent: DirRef, leaf: seq<byte>)

  function LeafOf(path: seq<byte>): seq<byte> {
    var leaf := path[AfterLastSlash(path)..];
    leaf[..Min(|leaf|, COMPONENT_MAX)]
  }

  function ResolveParent(img: Image, cwd: DirRef, path: seq<byte>): Option<Target> {
    if path == [] then None
    else if AfterLastSlash(path) == 0 then Some(Target(cwd, LeafOf(path)))
    else match WalkPath(img, path[..Min(AfterLastSlash(path), DIRPART_MAX)], cwd)
      case None => None
      case Some(d) => Some(Target(d, LeafOf(path)))
  }

  // ---------- what a path means ----------

  /** The parts between slashes, empty ones dropped. */
  function Components(p: seq<byte>): seq<seq<byte>>
    decreases |p|
  {
    if p == [] then []
    else if p[0] == SLASH then Components(p[1..])
    else [Until(p, SLASH)] + Components(p[|Until(p, SLASH)|..])
  }

  /** A component in pieces of at most 12 bytes. */
  function Pieces(c: seq<byte>): seq<seq<byte>>
    decreases |c|
  {
    if |c| <= COMPONENT_MAX then [c] else [c[..COMPONENT_MAX]] + Pieces(c[COMPONENT_MAX..])
  }

  function Chopped(cs: seq<seq<byte>>): seq<seq<byte>> {
    if cs == [] then [] else Pieces(cs[0]) + Chopped(cs[1..])
  }

  ghost function ParentOf(own: map<nat, Loc>, d: nat): nat {
    if d != 0 && d in own then own[d].dir else 0
  }

  ghost function ResolveOne(img: Image, own: map<nat, Loc>, d: nat, c: seq<byte>): Option<nat> {
    if c == ONE_DOT then Some(d)
    else if c == TWO_DOTS then Some(ParentOf(own, d))
    else match Lookup(img, d, SplitName(c))
      case Some(DirNode(id)) => Some(id)
      case _ => None
  }

  /** Following a list of components through the tree of directories. */
  ghost function Resolve(img: Image, own: map<nat, Loc>, d: nat, cs: seq<seq<byte>>): Option<nat>
    decreases |cs|
  {
    if cs == [] then Some(d)
    else match ResolveOne(img, own, d, cs[0])
      case None => None
      case Some(next) => Resolve(img, own, next, cs[1..])
  }

  ghost function IdOf(d: Option<DirRef>): Option<nat> {
    match d
    case None => None
    case Some(r) => Some(Id(r))
  }

  // ---------- components ----------

  lemma ComponentsSkip(p: seq<byte>)
    ensures Components(SkipSlashes(p)) == Components(p)
  {
  }

  lemma ChoppedCons(c: seq<byte>, cs: seq<seq<byte>>)
    ensures Chopped([c] + cs) == Pieces(c) + Chopped(cs)
  {
    assert ([c] + cs)[1..] == cs;
  }

  lemma FirstComponent(p: seq<byte>)
    requires p != [] && p[0] != SLASH
    ensures Until(p, SLASH) != [] && Components(p) == [Until(p, SLASH)] + Components(p[|Until(p, SLASH)|..])
  {
  }

  lemma CompLeads(p: seq<byte>)
    requires p != [] && p[0] != SLASH
    ensures Comp(p) != [] && Chopped(Components(p)) == [Comp(p)] + Chopped(Components(Rest(p)))
  {
    ComponentsSkip(p[|Comp(p)|..]);
    FirstComponent(p);
    hide Components, Chopped, SkipSlashes, Until;
    var t := Until(p, SLASH);
    if |t| > COMPONENT_MAX { LongCompLeads(p, t); } else { ShortCompLeads(p, t); }
  }

  lemma ShortCompLeads(p: seq<byte>, t: seq<byte>)
    requires t == Until(p, SLASH) && |t| <= COMPONENT_MAX && Components(p) == [t] + Components(p[|t|..])
    ensures Chopped(Components(p)) == [Comp(p)] + Chopped(Components(p[|Comp(p)|..]))
  {
    hide Components, Chopped, SkipSlashes, Until;
    ChoppedCons(t, Components(p[|t|..]));
    assert Comp(p) == t;
  }

  lemma LongCompLeads(p: seq<byte>, t: seq<byte>)
    requires t == Until(p, SLASH) && |t| > COMPONENT_MAX && Components(p) == [t] + Components(p[|t|..])
    ensures Chopped(Components(p)) == [Comp(p)] + Chopped(Components(p[|Comp(p)|..]))
  {
    hide Components, Chopped, SkipSlashes, Until, Pieces;
    var after := Components(p[|t|..]);
    LongComponent(p);
    ChoppedCons(t, after);
    ChoppedCons(t[COMPONENT_MAX..], after);
    LongPieces(t);
    assert Comp(p) == t[..COMPONENT_MAX];
    assert [Comp(p)] + Pieces(t[COMPONENT_MAX..]) + Chopped(after) == [Comp(p)] + (Pieces(t[COMPONENT_MAX..]) + Chopped(after));
  }

  lemma LongPieces(t: seq<byte>)
    requires |t| > COMPONENT_MAX
    ensures Pieces(t) == [t[..COMPONENT_MAX]] + Pieces(t[COMPONENT_MAX..])
  {
  }

  lemma LongComponent(p: seq<byte>)
    requires |Until(p, SLASH)| > COMPONENT_MAX
    ensures Components(p[COMPONENT_MAX..]) == [Until(p, SLASH)[COMPONENT_MAX..]] + Components(p[|Until(p, SLASH)|..])
  {
    var t := Until(p, SLASH);
    var tail := p[COMPONENT_MAX..];
    UntilDrop(p, SLASH, COMPONENT_MAX);
    FirstComponent(tail);
    hide Components, Until;
    assert tail[|t| - COMPONENT_MAX..] == p[|t|..];
  }

  lemma {:induction false} UntilDrop(p: seq<byte>, stop: byte, n: nat)
    requires n < |Until(p, stop)|
    ensures Until(p[n..], stop) == Until(p, stop)[n..]
    ensures p[n] != stop
  {
    if n > 0 {
      UntilDrop(p[1..], stop, n - 1);
      assert p[1..][n - 1..] == p[n..];
    }
  }

  // ---------- the walk refines the meaning ----------

  lemma ParentPresent(img: Image, own: map<nat, Loc>, depth: map<nat, nat>, d: nat)
    requires DepthOk(img, own, depth) && d in img.dirs && d != 0
    ensures d in own && own[d].dir in img.dirs && own[d].dir in depth && d in depth && depth[d] == depth[own[d].dir] + 1
  {
  }

  lemma UpIsParent(img: Image, own: map<nat, Loc>, depth: map<nat, nat>, d: DirRef)
    requires Wf(img, own, depth) && Present(img, d)
    ensures Id(Up(img, d)) == ParentOf(own, Id(d)) && Present(img, Up(img, d))
  {
    hide EntriesOk, OwnerOk, DepthOk, NamesUnique, Lookup;
    if !d.isRoot {
      var slots := img.dirs[Id(d)];
      ParentPresent(img, own, depth, Id(d));
      assert Matches(slots[1], DOTDOT_NAME);
      assert slots[0].name[1] == SPACE && slots[1].name[1] == DOT;
      assert !Matches(slots[0], DOTDOT_NAME);
      assert Find(slots, DOTDOT_NAME) == 1;
    }
  }

  /** A name as it is typed leads to a directory that is there, and whose parent is this one. */
  lemma LookupDir(img: Image, own: map<nat, Loc>, depth: map<nat, nat>, d: nat, n: FName, id: nat)
    requires Wf(img, own, depth) && DOT !in n.base && Lookup(img, d, n) == Some(DirNode(id))
    ensures id in img.dirs && id != 0 && id < 0x1_0000 && ParentOf(own, id) == d
  {
    hide OwnersOk, DepthOk, NamesUnique;
    var k := Find(img.dirs[d], n);
    assert d != 0 ==> img.dirs[d][0].name[0] == DOT && img.dirs[d][1].name[0] == DOT;
    assert n.base[0] != DOT;
    assert UserSlot(img, d, k);
  }

  lemma DownIsLookup(img: Image, own: map<nat, Loc>, depth: map<nat, nat>, d: DirRef, comp: seq<byte>)
    requires Wf(img, own, depth) && Present(img, d) && comp != ONE_DOT && comp != TWO_DOTS
    ensures IdOf(Down(img, d, comp)) == ResolveOne(img, own, Id(d), comp)
    ensures Down(img, d, comp).Some? ==> Present(img, Down(img, d, comp).value)
  {
    hide Wf;
    SplitNameHasNoDot(comp);
    match Lookup(img, Id(d), SplitName(comp))
    case Some(DirNode(id)) => LookupDir(img, own, depth, Id(d), SplitName(comp), id);
    case _ =>
  }

  /** The walk finds the directory that the components of the path, chopped at 12 bytes, name. */
  lemma {:induction false} WalkRefinesResolve(img: Image, own: map<nat, Loc>, depth: map<nat, nat>, p: seq<byte>, d: DirRef)
    requires Wf(img, own, depth) && Present(img, d)
    ensures IdOf(Walk(img, p, d)) == Resolve(img, own, Id(d), Chopped(Components(p)))
    ensures Walk(img, p, d).Some? ==> Present(img, Walk(img, p, d).value)
    decreases |p|
  {
    hide Wf, Present, Up, Down;
    if p != [] {
      if p[0] == SLASH {
        ComponentsSkip(p);
        assert Comp(p) == [] && p[0..] == p;
        WalkRefinesResolve(img, own, depth, Rest(p), d);
      } else {
        CompLeads(p);
        var c := Comp(p);
        assert ([c] + Chopped(Components(Rest(p))))[1..] == Chopped(Components(Rest(p)));
        if c == ONE_DOT {
          WalkRefinesResolve(img, own, depth, Rest(p), d);
        } else if c == TWO_DOTS {
          UpIsParent(img, own, depth, d);
          WalkRefinesResolve(img, own, depth, Rest(p), Up(img, d));
        } else {
          DownIsLookup(img, own, depth, d, c);
          match Down(img, d, c)
          case None =>
          case Some(next) => WalkRefinesResolve(img, own, depth, Rest(p), next);
        }
      }
    }
  }

  lemma {:induction false} PiecesCount(c: seq<byte>)
    ensures |Pieces(c)| >= 1 && (|c| > COMPONENT_MAX ==> |Pieces(c)| >= 2)
    decreases |c|
  {
    if |c| > COMPONENT_MAX { PiecesCount(c[COMPONENT_MAX..]); }
  }

  lemma {:induction false} ChoppedCount(cs: seq<seq<byte>>)
    ensures |Chopped(cs)| >= |cs|
    ensures |Chopped(cs)| == |cs| ==> forall i | 0 <= i < |cs| :: |cs[i]| <= COMPONENT_MAX
  {
    if cs != [] {
      PiecesCount(cs[0]);
      ChoppedCount(cs[1..]);
      hide Pieces;
      assert |Chopped(cs)| == |Pieces(cs[0])| + |Chopped(cs[1..])|;
      forall i | 0 <= i < |cs| && |Chopped(cs)| == |cs| ensures |cs[i]| <= COMPONENT_MAX {
        if i > 0 { assert cs[i] == cs[1..][i - 1]; }
      }
    }
  }

  /** Chopping changes nothing exactly when no component is longer than the buffer. */
  lemma {:induction false} ChoppedShort(cs: seq<seq<byte>>)
    ensures Chopped(cs) == cs <==> forall i | 0 <= i < |cs| :: |cs[i]| <= COMPONENT_MAX
    decreases |cs|
  {
    ChoppedCount(cs);
    if cs != [] { ChoppedShort(cs[1..]); }
  }

  /** A reference's stale cluster never shows: only the directory it stands for decides where a path leads. */
  lemma WalkSameDirectory(img: Image, own: map<nat, Loc>, depth: map<nat, nat>, p: seq<byte>, d: DirRef, e: DirRef)
    requires Wf(img, own, depth) && Present(img, d) && Present(img, e) && Id(d) == Id(e)
    ensures IdOf(Walk(img, p, d)) == IdOf(Walk(img, p, e))
  {
    WalkRefinesResolve(img, own, depth, p, d);
    WalkRefinesResolve(img, own, depth, p, e);
  }

  lemma WalkPathPresent(img: Image, own: map<nat, Loc>, depth: map<nat, nat>, p: seq<byte>, d: DirRef)
    requires Wf(img, own, depth) && Present(img, d)
    ensures WalkPath(img, p, d).Some? ==> Present(img, WalkPath(img, p, d).value)
  {
    assert Present(img, ROOT);
    hide Wf, Walk, Present;
    if IsAbsolute(p) { WalkRefinesResolve(img, own, depth, p[1..], ROOT); } else { WalkRefinesResolve(img, own, depth, p, d); }
  }

  // ---------- the shape of the tree ----------

  function UpTimes(img: Image, d: DirRef, n: nat): DirRef
    decreases n
  {
    if n == 0 then d else UpTimes(img, Up(img, d), n - 1)
  }

  /** Going up often enough ends at the root. */
  lemma {:induction false} UpReachesRoot(img: Image, own: map<nat, Loc>, depth: map<nat, nat>, d: DirRef)
    requires Wf(img, own, depth) && Present(img, d)
    ensures Id(d) in depth && Id(UpTimes(img, d, depth[Id(d)])) == 0
    decreases depth[Id(d)]
  {
    hide Shape, DotsOk, EntriesOk, OwnersOk, NamesUnique, Up;
    UpIsParent(img, own, depth, d);
    if Id(d) == 0 {
      UpOfRoot(img, d, depth[0]);
    } else {
      ParentPresent(img, own, depth, Id(d));
      UpReachesRoot(img, own, depth, Up(img, d));
    }
  }

  lemma {:induction false} UpOfRoot(img: Image, d: DirRef, n: nat)
    requires d.isRoot
    ensures UpTimes(img, d, n) == d
    decreases n
  {
    if n > 0 { UpOfRoot(img, d, n - 1); }
  }

  /** Entering a subdirectory and going up again ends where it began. */
  lemma DownThenUp(img: Image, own: map<nat, Loc>, depth: map<nat, nat>, d: DirRef, comp: seq<byte>)
    requires Wf(img, own, depth) && Present(img, d) && Down(img, d, comp).Some?
    ensures Id(Up(img, Down(img, d, comp).value)) == Id(d)
  {
    hide Wf;
    var n := SplitName(comp);
    SplitNameHasNoDot(comp);
    var id := Lookup(img, Id(d), n).value.id;
    LookupDir(img, own, depth, Id(d), n, id);
    UpIsParent(img, own, depth, DirRef(false, id));
  }

  // ---------- parent and leaf against the whole path ----------

  lemma {:induction false} ComponentsAppend(p: seq<byte>, leaf: seq<byte>)
    requires SLASH !in leaf && leaf != [] && (p == [] || p[|p| - 1] == SLASH)
    ensures Components(p + leaf) == Components(p) + [leaf]
    decreases |p|
  {
    var q := p + leaf;
    if p == [] {
      assert q == leaf;
      UntilOfPrefix(leaf, leaf, SLASH);
    } else if p[0] == SLASH {
      assert q[1..] == p[1..] + leaf;
      ComponentsAppend(p[1..], leaf);
    } else {
      var t := Until(p, SLASH);
      assert |t| < |p| by { assert p[|p| - 1] !in t; }
      UntilOfPrefix(t, q, SLASH);
      assert q[|t|..] == p[|t|..] + leaf;
      assert p[|t|..][|p[|t|..]| - 1] == SLASH;
      ComponentsAppend(p[|t|..], leaf);
    }
  }

  lemma {:induction false} ResolveAppend(img: Image, own: map<nat, Loc>, d: nat, cs: seq<seq<byte>>, c: seq<byte>)
    ensures Resolve(img, own, d, cs + [c]) ==
            match Resolve(img, own, d, cs) case None => None case Some(m) => ResolveOne(img, own, m, c)
    decreases |cs|
  {
    if cs == [] {
      assert (cs + [c])[1..] == [];
    } else {
      assert (cs + [c])[1..] == cs[1..] + [c];
      match ResolveOne(img, own, d, cs[0])
      case None =>
      case Some(next) => ResolveAppend(img, own, next, cs[1..], c);
    }
  }

  /** What a whole path stands for, a file or a directory: the last component is looked up where the ones
      before it lead. With nothing behind the last slash the path stands for a directory. */
  ghost function NodeAt(img: Image, own: map<nat, Loc>, d: nat, path: seq<byte>): Option<Node> {
    var cs := Components(path);
    if cs == [] || path[|path| - 1] == SLASH then DirAt(Resolve(img, own, d, cs))
    else match Resolve(img, own, d, cs[..|cs| - 1])
      case None => None
      case Some(m) => NodeIn(img, own, m, cs[|cs| - 1])
  }

  ghost function NodeIn(img: Image, own: map<nat, Loc>, m: nat, c: seq<byte>): Option<Node> {
    if c == ONE_DOT || c == TWO_DOTS then DirAt(ResolveOne(img, own, m, c)) else Lookup(img, m, SplitName(c))
  }

  function DirAt(d: Option<nat>): Option<Node> {
    match d
    case None => None
    case Some(id) => Some(DirNode(id))
  }

  /** What scanning the parent that `resolve_parent` finds for the leaf gives. */
  function Scanned(img: Image, cwd: DirRef, path: seq<byte>): Option<Node> {
    match ResolveParent(img, cwd, path)
    case None => None
    case Some(t) => Lookup(img, Id(t.parent), SplitName(t.leaf))
  }

  /** Nothing, "." or "..": the leaves that name a directory without an entry of that name. */
  predicate BareLeaf(leaf: seq<byte>) { leaf == [] || leaf == ONE_DOT || leaf == TWO_DOTS }

  /** Splitting a path at its last slash and scanning the parent for the leaf finds what the whole path
      stands for, file or directory, exactly if the leaf is not empty, "." or "..": such a leaf is looked
      up as a name of eleven spaces. Where the parent does not resolve, both find nothing. */
  lemma ResolveParentRefines(img: Image, own: map<nat, Loc>, depth: map<nat, nat>, cwd: DirRef, path: seq<byte>)
    requires Wf(img, own, depth) && Present(img, cwd) && path != []
    requires AfterLastSlash(path) <= DIRPART_MAX
    requires forall c | c in Components(path) :: |c| <= COMPONENT_MAX
    ensures var whole := NodeAt(img, own, if IsAbsolute(path) then 0 else Id(cwd), path);
      && (ResolveParent(img, cwd, path) == None ==> whole == None)
      && (Scanned(img, cwd, path) == whole <==>
          (ResolveParent(img, cwd, path).Some? ==> !BareLeaf(path[AfterLastSlash(path)..])))
  {
    hide Wf, Components, Chopped, Resolve, Walk, Lookup, SplitName, NodeAt, ResolveParent;
    var n := AfterLastSlash(path);
    var dir, leaf := path[..n], path[n..];
    var start := if IsAbsolute(path) then 0 else Id(cwd);
    assert path == dir + leaf;
    SplitComponents(dir, leaf);
    ParentIs(img, own, depth, cwd, path);
    ShortLeaf(path);
    hide LeafOf;
    WholeIs(img, own, start, dir, leaf);
    if ResolveParent(img, cwd, path).Some? {
      LeafScanned(img, own, depth, Id(ResolveParent(img, cwd, path).value.parent), leaf);
    }
    hide NodeIn, BareLeaf, ResolveOne, AfterLastSlash, IsAbsolute;
  }

  lemma ShortLeaf(path: seq<byte>)
    requires forall c | c in Components(path) :: |c| <= COMPONENT_MAX
    ensures LeafOf(path) == path[AfterLastSlash(path)..]
  {
    hide Components;
    var dir, leaf := path[..AfterLastSlash(path)], path[AfterLastSlash(path)..];
    assert path == dir + leaf;
    SplitComponents(dir, leaf);
    if leaf != [] { assert leaf in Components(path); }
  }

  lemma SplitComponents(dir: seq<byte>, leaf: seq<byte>)
    requires SLASH !in leaf && (dir == [] || dir[|dir| - 1] == SLASH)
    ensures Components(dir + leaf) == Components(dir) + if leaf == [] then [] else [leaf]
  {
    if leaf == [] { assert dir + leaf == dir; } else { ComponentsAppend(dir, leaf); }
  }

  /** The parent is where the part up to the last slash leads. */
  lemma ParentIs(img: Image, own: map<nat, Loc>, depth: map<nat, nat>, cwd: DirRef, path: seq<byte>)
    requires Wf(img, own, depth) && Present(img, cwd) && path != []
    requires AfterLastSlash(path) <= DIRPART_MAX
    requires forall c | c in Components(path[..AfterLastSlash(path)]) :: |c| <= COMPONENT_MAX
    ensures var parent := Resolve(img, own, if IsAbsolute(path) then 0 else Id(cwd), Components(path[..AfterLastSlash(path)]));
      match ResolveParent(img, cwd, path)
      case None => parent == None
      case Some(t) => parent == Some(Id(t.parent)) && t.leaf == LeafOf(path) && Present(img, t.parent)
  {
    hide Wf, Components, Resolve, Walk, WalkPath, Present;
    var n := AfterLastSlash(path);
    assert path[..Min(n, DIRPART_MAX)] == path[..n];
    if n > 0 {
      WalkPathRefines(img, own, depth, path[..n], cwd);
      WalkPathPresent(img, own, depth, path[..n], cwd);
    } else {
      assert path[..n] == [];
      EmptyPath(img, own, Id(cwd));
    }
  }

  /** The whole path in terms of its two parts. */
  lemma WholeIs(img: Image, own: map<nat, Loc>, start: nat, dir: seq<byte>, leaf: seq<byte>)
    requires SLASH !in leaf && (dir == [] || dir[|dir| - 1] == SLASH) && dir + leaf != []
    requires Components(dir + leaf) == Components(dir) + if leaf == [] then [] else [leaf]
    ensures NodeAt(img, own, start, dir + leaf) ==
            match Resolve(img, own, start, Components(dir))
            case None => None
            case Some(m) => if leaf == [] then Some(DirNode(m)) else NodeIn(img, own, m, leaf)
  {
    hide Components, Resolve, Lookup, ResolveOne;
    var cs := Components(dir + leaf);
    if leaf != [] {
      assert cs[..|cs| - 1] == Components(dir) && cs[|cs| - 1] == leaf;
      assert (dir + leaf)[|dir + leaf| - 1] == leaf[|leaf| - 1];
    } else {
      assert dir + leaf == dir && cs == Components(dir);
    }
  }

  /** The entry scanned for is one level below the parent, the directory meant is the parent or above. */
  lemma BareLeafDiffers(img: Image, own: map<nat, Loc>, depth: map<nat, nat>, m: nat, leaf: seq<byte>)
    requires Wf(img, own, depth) && m in img.dirs && BareLeaf(leaf)
    ensures Lookup(img, m, SplitName(leaf)) != Some(DirNode(m))
    ensures Lookup(img, m, SplitName(leaf)) != Some(DirNode(ParentOf(own, m)))
  {
    hide Wf, Lookup, SplitName;
    SplitNameHasNoDot(leaf);
    if Lookup(img, m, SplitName(leaf)) == Some(DirNode(m)) {
      LookupDir(img, own, depth, m, SplitName(leaf), m);
      DepthAbove(img, own, depth, m);
    }
    if Lookup(img, m, SplitName(leaf)) == Some(DirNode(ParentOf(own, m))) {
      LookupDir(img, own, depth, m, SplitName(leaf), ParentOf(own, m));
      DepthAbove(img, own, depth, m);
      DepthAbove(img, own, depth, ParentOf(own, m));
    }
  }

  /** The leaf in a directory: scanned for, and meant. */
  lemma LeafScanned(img: Image, own: map<nat, Loc>, depth: map<nat, nat>, m: nat, leaf: seq<byte>)
    requires Wf(img, own, depth) && m in img.dirs
    ensures Lookup(img, m, SplitName(leaf)) == (if leaf == [] then Some(DirNode(m)) else NodeIn(img, own, m, leaf)) <==> !BareLeaf(leaf)
  {
    hide Wf, Lookup, SplitName;
    if BareLeaf(leaf) { BareLeafDiffers(img, own, depth, m, leaf); }
  }

  lemma DepthAbove(img: Image, own: map<nat, Loc>, depth: map<nat, nat>, d: nat)
    requires Wf(img, own, depth) && d in img.dirs
    ensures d in depth && ParentOf(own, d) in img.dirs && ParentOf(own, d) in depth
    ensures d != 0 ==> depth[d] == depth[ParentOf(own, d)] + 1
  {
    hide EntriesOk, OwnersOk, NamesUnique;
    if d != 0 { ParentPresent(img, own, depth, d); }
  }

  lemma EmptyPath(img: Image, own: map<nat, Loc>, d: nat)
    ensures Resolve(img, own, d, Components([])) == Some(d)
  {
  }

  /** Where any path leads: through its components, those longer than the buffer in pieces. */
  lemma WalkPathMeans(img: Image, own: map<nat, Loc>, depth: map<nat, nat>, p: seq<byte>, d: DirRef)
    requires Wf(img, own, depth) && Present(img, d)
    ensures IdOf(WalkPath(img, p, d)) == Resolve(img, own, if IsAbsolute(p) then 0 else Id(d), Chopped(Components(p)))
  {
    assert Present(img, ROOT);
    hide Wf, Walk, Present, Resolve, Chopped;
    if IsAbsolute(p) {
      assert Components(p) == Components(p[1..]);
      WalkRefinesResolve(img, own, depth, p[1..], ROOT);
    } else {
      WalkRefinesResolve(img, own, depth, p, d);
    }
  }

  /** What `resolve_parent` finds for any path: nothing for the empty one; otherwise the leaf, cut at 12
      bytes, and the directory that the first 95 bytes up to the last slash lead to. */
  lemma ResolveParentMeans(img: Image, own: map<nat, Loc>, depth: map<nat, nat>, cwd: DirRef, path: seq<byte>)
    requires Wf(img, own, depth) && Present(img, cwd)
    ensures ResolveParent(img, cwd, path).Some? <==>
            path != [] && Resolve(img, own, if IsAbsolute(path) then 0 else Id(cwd), Chopped(Components(DirPart(path)))).Some?
    ensures match ResolveParent(img, cwd, path)
            case None => true
            case Some(t) =>
              && t.leaf == LeafOf(path)
              && Resolve(img, own, if IsAbsolute(path) then 0 else Id(cwd), Chopped(Components(DirPart(path)))) == Some(Id(t.parent))
  {
    hide Wf, Components, Chopped, Resolve, Walk, Present, Lookup;
    var n := AfterLastSlash(path);
    if n == 0 {
      EmptyPath(img, own, Id(cwd));
      NothingChopped();
    } else {
      WalkPathMeans(img, own, depth, DirPart(path), cwd);
    }
  }

  /** The directory part as the 96-byte buffer holds it. */
  function DirPart(path: seq<byte>): seq<byte> { path[..Min(AfterLastSlash(path), DIRPART_MAX)] }

  lemma NothingChopped()
    ensures Chopped(Components([])) == Components([])
  {
  }

  /** With no component longer than the buffer, a path leads where its components say. */
  lemma WalkPathRefines(img: Image, own: map<nat, Loc>, depth: map<nat, nat>, p: seq<byte>, d: DirRef)
    requires Wf(img, own, depth) && Present(img, d)
    requires forall c | c in Components(p) :: |c| <= COMPONENT_MAX
    ensures IdOf(WalkPath(img, p, d)) == Resolve(img, own, if IsAbsolute(p) then 0 else Id(d), Components(p))
  {
    hide Wf, WalkPath, Present, Resolve, Chopped;
    ChoppedShort(Components(p));
    WalkPathMeans(img, own, depth, p, d);
  }
}
