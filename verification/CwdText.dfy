/** The text of the current directory leads back to it. */
module CwdText {
  import opened Types
  import opened Names
  import opened Images
  import opened Paths
  import opened PathTexts
  import opened Calls
  import opened Keeping
  import opened Reading
  import opened Effects
  import opened Runs

  /** A name whose printed form is a path component that stands for it. */
  predicate Plain(n: FName) {
    && SplitName(Display(n)) == n && DOT !in n.base
    && SLASH !in Display(n) && Display(n) != [] && Display(n) != ONE_DOT && Display(n) != TWO_DOTS
  }

  ghost predicate AllPlain(names: seq<FName>) { forall i | 0 <= i < |names| :: Plain(names[i]) }

  /** "/A/B/C", or "/" for the root. */
  function Text(names: seq<FName>): seq<byte> {
    if names == [] then [SLASH] else Joined(names)
  }

  function Joined(names: seq<FName>): seq<byte> {
    if names == [] then [] else Joined(names[..|names| - 1]) + [SLASH] + Display(names[|names| - 1])
  }

  /** The directory the names lead to from the root. */
  function Follow(img: Image, names: seq<FName>): Option<nat> {
    if names == [] then Some(0)
    else match Follow(img, names[..|names| - 1])
      case None => None
      case Some(d) => DirView(img, d, names[|names| - 1])
  }

  /** The text spells names that lead to the current directory. */
  ghost predicate Agrees(s: State, names: seq<FName>) {
    s.text == Text(names) && AllPlain(names) && Follow(s.img, names) == Some(Id(s.cwd))
  }

  // ---------- the text and the path functions ----------

  lemma DisplayShort(n: FName)
    ensures |Display(n)| <= COMPONENT_MAX
  {
  }

  function Fits(buf: seq<byte>, n: FName): bool { |WithSlash(buf)| + |Display(n)| <= PATH_MAX }

  lemma {:induction false} JoinedStarts(names: seq<FName>)
    requires names != []
    ensures |Joined(names)| > 0 && Joined(names)[0] == SLASH && (AllPlain(names) ==> |Joined(names)| >= 2)
    decreases |names|
  {
    var n := |names| - 1;
    if n > 0 { JoinedStarts(names[..n]); } else { assert Joined(names[..n]) == []; }
  }

  lemma AppendedFits(buf: seq<byte>, name: seq<byte>)
    requires |WithSlash(buf)| + |name| <= PATH_MAX
    ensures PathTexts.Appended(buf, name) == WithSlash(buf) + name
  {
  }

  lemma TextWithSlash(names: seq<FName>)
    requires AllPlain(names) && |WithSlash(Text(names))| < PATH_MAX
    ensures WithSlash(Text(names)) == Joined(names) + [SLASH]
  {
    if names != [] { JoinedStarts(names); }
    hide Display;
  }

  lemma JoinedMore(names: seq<FName>, n: FName)
    ensures Joined(names + [n]) == Joined(names) + [SLASH] + Display(n)
  {
    assert (names + [n])[..|names|] == names;
  }

  /** Appending a name that fits spells one name more. */
  lemma AppendedText(names: seq<FName>, n: FName)
    requires AllPlain(names) && Plain(n) && Fits(Text(names), n)
    ensures PathTexts.Appended(Text(names), Display(n)) == Text(names + [n])
  {
    hide Display, Joined, WithSlash, PathTexts.Appended;
    AppendedFits(Text(names), Display(n));
    TextWithSlash(names);
    JoinedMore(names, n);
  }

  lemma TrimmedRaw(init: seq<byte>, last: seq<byte>)
    requires SLASH !in last && last != []
    ensures Trimmed(init + [SLASH] + last) == if init == [] then [SLASH] else init
  {
    var buf := init + [SLASH] + last;
    var k := |init|;
    assert forall i | k <= i < |buf[1..]| :: buf[1..][i] == last[i - k];
    if k > 0 { assert buf[1..][k - 1] == SLASH; }
    LastSlashIs(buf[1..], k);
  }

  /** `path_trim_last` takes the last name off again, and leaves "/" alone. */
  lemma TrimmedText(names: seq<FName>)
    requires AllPlain(names)
    ensures Trimmed(Text(names)) == Text(if names == [] then [] else names[..|names| - 1])
  {
    hide Display, Trimmed;
    if names != [] {
      var n := |names| - 1;
      assert Plain(names[n]);
      TrimmedRaw(Joined(names[..n]), Display(names[n]));
      if n > 0 { JoinedStarts(names[..n]); }
    } else {
      TrimmedRoot();
    }
  }

  lemma TrimmedRoot()
    ensures Trimmed([SLASH]) == [SLASH]
  {
  }

  /** `path_trim_last` undoes `path_append`, as long as nothing was cut. */
  lemma TrimUndoesAppend(names: seq<FName>, n: FName)
    requires AllPlain(names) && Plain(n) && Fits(Text(names), n)
    ensures Trimmed(PathTexts.Appended(Text(names), Display(n))) == Text(names)
  {
    AppendedText(names, n);
    assert AllPlain(names + [n]);
    TrimmedText(names + [n]);
    assert (names + [n])[..|names|] == names;
  }

  // ---------- walking the text ----------

  function Displays(names: seq<FName>): seq<seq<byte>> {
    if names == [] then [] else Displays(names[..|names| - 1]) + [Display(names[|names| - 1])]
  }

  lemma {:induction false} TextComponents(names: seq<FName>)
    requires AllPlain(names)
    ensures Components(Joined(names)) == Displays(names)
    ensures forall c | c in Displays(names) :: |c| <= COMPONENT_MAX
    decreases |names|
  {
    if names != [] {
      var n := |names| - 1;
      TextComponents(names[..n]);
      DisplayShort(names[n]);
      var p := Joined(names[..n]) + [SLASH];
      ComponentsAppend(p, Display(names[n]));
      SlashAtEnd(Joined(names[..n]));
    }
  }

  lemma {:induction false} SlashAtEnd(p: seq<byte>)
    ensures Components(p + [SLASH]) == Components(p)
    decreases |p|
  {
    var q := p + [SLASH];
    if p == [] {
      assert q[1..] == [];
    } else if p[0] == SLASH {
      assert q[1..] == p[1..] + [SLASH];
      SlashAtEnd(p[1..]);
    } else {
      var t := Until(p, SLASH);
      UntilOfPrefix(t, q, SLASH);
      assert q[|t|..] == p[|t|..] + [SLASH];
      SlashAtEnd(p[|t|..]);
    }
  }

  lemma {:induction false} FollowIsResolve(img: Image, own: map<nat, Loc>, names: seq<FName>)
    requires AllPlain(names)
    ensures Resolve(img, own, 0, Displays(names)) == Follow(img, names)
    decreases |names|
  {
    if names != [] {
      var n := |names| - 1;
      FollowIsResolve(img, own, names[..n]);
      FollowIsResolveLast(img, own, names);
    }
  }

  lemma FollowIsResolveLast(img: Image, own: map<nat, Loc>, names: seq<FName>)
    requires AllPlain(names) && names != []
    requires Resolve(img, own, 0, Displays(names[..|names| - 1])) == Follow(img, names[..|names| - 1])
    ensures Resolve(img, own, 0, Displays(names)) == Follow(img, names)
  {
    var n := |names| - 1;
    ResolveAppend(img, own, 0, Displays(names[..n]), Display(names[n]));
  }

  /** Walking the text of plain names, from anywhere, leads where the names lead. */
  lemma TextFollows(img: Image, own: map<nat, Loc>, depth: map<nat, nat>, names: seq<FName>, from: DirRef)
    requires Wf(img, own, depth) && Present(img, from) && AllPlain(names)
    ensures IdOf(WalkPath(img, Text(names), from)) == Follow(img, names)
  {
    hide Wf, Walk, Resolve, Present;
    TextComponents(names);
    FollowIsResolve(img, own, names);
    if names == [] {
      assert Text(names)[1..] == [];
      WalkNothing(img);
    } else {
      JoinedStarts(names);
      WalkPathRefines(img, own, depth, Text(names), from);
    }
  }

  /** Walking the text of the current directory, from anywhere, ends at the current directory. */
  lemma TextLeadsHome(s: State, own: map<nat, Loc>, depth: map<nat, nat>, names: seq<FName>, from: DirRef)
    requires Wf(s.img, own, depth) && Present(s.img, from) && Agrees(s, names)
    ensures IdOf(WalkPath(s.img, s.text, from)) == Some(Id(s.cwd))
  {
    TextFollows(s.img, own, depth, names, from);
    hide Wf, WalkPath, Text, Present;
  }

  lemma WalkNothing(img: Image)
    ensures Walk(img, [], ROOT) == Some(ROOT)
  {
  }

  // ---------- fs_chdir ----------

  /** Along the walk every directory entered has a plain name and nothing is cut from the text. */
  predicate KeepsText(img: Image, p: seq<byte>, d: DirRef, buf: seq<byte>)
    decreases |p|
  {
    if p == [] then true
    else if Comp(p) == [] || Comp(p) == ONE_DOT then KeepsText(img, Rest(p), d, buf)
    else if Comp(p) == TWO_DOTS then KeepsText(img, Rest(p), Up(img, d), Trimmed(buf))
    else match Down(img, d, Comp(p))
      case None => true
      case Some(next) =>
        var n := SplitName(Comp(p));
        Plain(n) && Fits(buf, n) && KeepsText(img, Rest(p), next, PathTexts.Appended(buf, Display(n)))
  }

  /** The directory one level up is where the names without the last one lead. */
  lemma FollowUp(img: Image, own: map<nat, Loc>, depth: map<nat, nat>, names: seq<FName>, d: DirRef)
    requires Wf(img, own, depth) && Present(img, d) && AllPlain(names) && Follow(img, names) == Some(Id(d))
    ensures Present(img, Up(img, d))
    ensures Follow(img, if names == [] then [] else names[..|names| - 1]) == Some(Id(Up(img, d)))
  {
    hide Wf, Up, Lookup, Display, SplitName;
    UpIsParent(img, own, depth, d);
    if names != [] {
      var n := |names| - 1;
      assert Plain(names[n]);
      var above := Follow(img, names[..n]).value;
      LookupDir(img, own, depth, above, names[n], Id(d));
    }
  }

  /** The names after a walk. */
  lemma {:induction false} WalkAgrees(img: Image, own: map<nat, Loc>, depth: map<nat, nat>, p: seq<byte>, d: DirRef, names: seq<FName>)
    returns (after: seq<FName>)
    requires Wf(img, own, depth) && Present(img, d) && AllPlain(names) && Follow(img, names) == Some(Id(d))
    requires KeepsText(img, p, d, Text(names)) && Walk(img, p, d).Some?
    ensures AllPlain(after) && WalkText(img, p, d, Text(names)) == Text(after)
    ensures Follow(img, after) == Some(Id(Walk(img, p, d).value))
    decreases |p|
  {
    hide Wf, Up, Down, Display, SplitName, Present, Trimmed, PathTexts.Appended, Text, Plain;
    if p == [] {
      after := names;
    } else {
      var c := Comp(p);
      if c == [] || c == ONE_DOT {
        after := WalkAgrees(img, own, depth, Rest(p), d, names);
      } else if c == TWO_DOTS {
        var less := if names == [] then [] else names[..|names| - 1];
        TrimmedText(names);
        FollowUp(img, own, depth, names, d);
        after := WalkAgrees(img, own, depth, Rest(p), Up(img, d), less);
      } else {
        DownIsLookup(img, own, depth, d, c);
        var next := Down(img, d, c).value;
        var n := SplitName(c);
        AppendedText(names, n);
        DownIsView(img, d, c);
        assert (names + [n])[..|names|] == names;
        after := WalkAgrees(img, own, depth, Rest(p), next, names + [n]);
      }
    }
  }

  lemma DownIsView(img: Image, d: DirRef, c: seq<byte>)
    requires Down(img, d, c).Some?
    ensures DirView(img, Id(d), SplitName(c)) == Some(Id(Down(img, d, c).value))
  {
  }

  predicate KeepsPathText(s: State, path: seq<byte>) {
    if IsAbsolute(path) then KeepsText(s.img, path[1..], ROOT, [SLASH]) else KeepsText(s.img, path, s.cwd, s.text)
  }

  /** A successful `fs_chdir` that cuts nothing leaves a text that leads to the new directory. */
  lemma ChdirAgrees(s: State, own: map<nat, Loc>, depth: map<nat, nat>, names: seq<FName>, path: seq<byte>, t: State)
    returns (after: seq<FName>)
    requires Wf(s.img, own, depth) && Present(s.img, s.cwd) && Agrees(s, names)
    requires KeepsPathText(s, path) && ChdirStep(s, path, true, t)
    ensures Agrees(t, after)
  {
    RootThere(s.img, own, depth);
    hide Wf, Walk, WalkText, KeepsText, Present;
    if IsAbsolute(path) {
      assert Text([]) == [SLASH] && Follow(s.img, []) == Some(0) && AllPlain([]);
      after := WalkAgrees(s.img, own, depth, path[1..], ROOT, []);
    } else {
      after := WalkAgrees(s.img, own, depth, path, s.cwd, names);
    }
  }

  // ---------- the other calls ----------

  /** Somewhere on the way to the current directory the name `n` is looked up in directory `d`. */
  ghost predicate OnTheWay(img: Image, names: seq<FName>, d: nat, n: FName) {
    exists i :: 0 <= i < |names| && Follow(img, names[..i]) == Some(d) && names[i] == n
  }

  /** The names lead where they led if each lookup on the way gives what it gave. */
  lemma {:induction false} FollowSame(img: Image, t: Image, names: seq<FName>)
    requires Follow(img, names).Some?
    requires forall d: nat, n: FName | OnTheWay(img, names, d, n) :: DirView(t, d, n) == DirView(img, d, n)
    ensures Follow(t, names) == Follow(img, names)
    decreases |names|
  {
    hide DirView;
    if names != [] {
      var k := |names| - 1;
      forall d: nat, n: FName | OnTheWay(img, names[..k], d, n)
        ensures OnTheWay(img, names, d, n)
      {
        var i :| 0 <= i < k && Follow(img, names[..k][..i]) == Some(d) && names[..k][i] == n;
        assert names[..k][..i] == names[..i];
      }
      FollowSame(img, t, names[..k]);
      assert OnTheWay(img, names, Follow(img, names[..k]).value, names[k]);
    }
  }

  /** A call after which each directory on the way is found where it was keeps the text good. */
  lemma ViewsAgree(s: State, t: State, names: seq<FName>)
    requires Agrees(s, names) && t.cwd == s.cwd && t.text == s.text
    requires forall d2: nat, n2: FName | OnTheWay(s.img, names, d2, n2) && DirView(s.img, d2, n2).Some? ::
               DirView(t.img, d2, n2) == DirView(s.img, d2, n2)
    ensures Agrees(t, names)
  {
    hide DirView, Plain, Text;
    forall d2: nat, n2: FName | OnTheWay(s.img, names, d2, n2)
      ensures DirView(t.img, d2, n2) == DirView(s.img, d2, n2)
    {
      OnTheWayIsDir(s.img, names, d2, n2);
    }
    FollowSame(s.img, t.img, names);
  }

  /** A changed name that was not a directory's, or not on the way, leads nowhere new. */
  lemma OneNameAgrees(s: State, t: State, names: seq<FName>, d: nat, n: FName)
    requires Agrees(s, names) && t.cwd == s.cwd && t.text == s.text
    requires forall d2: nat, n2: FName | d2 != d || n2 != n :: Lookup(s.img, d2, n2).Some? ==> Lookup(t.img, d2, n2) == Lookup(s.img, d2, n2)
    requires NoDir(Lookup(s.img, d, n)) || Lookup(t.img, d, n) == Lookup(s.img, d, n)
    ensures Agrees(t, names)
  {
    hide Lookup, Plain, Text;
    ViewsAgree(s, t, names);
  }

  lemma {:induction false} OnTheWayIsDir(img: Image, names: seq<FName>, d: nat, n: FName)
    requires Follow(img, names).Some? && OnTheWay(img, names, d, n)
    ensures DirView(img, d, n).Some?
    decreases |names|
  {
    hide DirView;
    var i :| 0 <= i < |names| && Follow(img, names[..i]) == Some(d) && names[i] == n;
    var k := |names| - 1;
    if i < k {
      assert names[..k][..i] == names[..i];
      assert OnTheWay(img, names[..k], d, n);
      OnTheWayIsDir(img, names[..k], d, n);
    }
  }

  /** `fs_rmdir` removes no directory on the way: the last one is the current directory, and the others
      are not empty. */
  lemma RmdirAgrees(s: State, own: map<nat, Loc>, depth: map<nat, nat>, names: seq<FName>, d: nat, n: FName, t: State)
    requires Wf(s.img, own, depth) && Present(s.img, s.cwd) && Agrees(s, names) && DOT !in n.base
    requires RmdirIn(s.img, s.cwd, d, n).ok && t == s.(img := RmdirIn(s.img, s.cwd, d, n).img)
    ensures Agrees(t, names)
  {
    hide Wf, Lookup, Text, RmdirIn;
    forall d2: nat, n2: FName | OnTheWay(s.img, names, d2, n2)
      ensures DirView(t.img, d2, n2) == DirView(s.img, d2, n2)
    {
      OnTheWayIsDir(s.img, names, d2, n2);
      RmdirLookup(s.img, own, depth, s.cwd, d, n, d2, n2);
      var i :| 0 <= i < |names| && Follow(s.img, names[..i]) == Some(d2) && names[i] == n2;
      RmdirNotOnTheWay(s, own, depth, names, d, n, i);
    }
    FollowSame(s.img, t.img, names);
  }

  lemma RmdirNotOnTheWay(s: State, own: map<nat, Loc>, depth: map<nat, nat>, names: seq<FName>, d: nat, n: FName, i: nat)
    requires Wf(s.img, own, depth) && Agrees(s, names) && DOT !in n.base && i < |names|
    requires RmdirIn(s.img, s.cwd, d, n).ok
    ensures var h := s.img.dirs[d][Find(s.img.dirs[d], n)].first;
      Follow(s.img, names[..i]) != Some(h as nat) && !(Follow(s.img, names[..i]) == Some(d) && names[i] == n)
  {
    hide Wf, Text, Plain, Lookup, RmdirIn, Follow;
    RmdirFacts(s.img, s.cwd, d, n);
    var h := s.img.dirs[d][Find(s.img.dirs[d], n)].first;
    FollowNext(s.img, names, i);
    assert names[..|names|] == names;
    if Follow(s.img, names[..i]) == Some(h as nat) {
      NotEmptyView(s.img, own, depth, h, names[i]);
    }
    if Follow(s.img, names[..i]) == Some(d) && names[i] == n {
      if i + 1 < |names| {
        FollowNext(s.img, names, i + 1);
        NotEmptyView(s.img, own, depth, h, names[i + 1]);
      }
    }
  }

  lemma RmdirFacts(img: Image, cwd: DirRef, d: nat, n: FName)
    requires RmdirIn(img, cwd, d, n).ok
    ensures d in img.dirs && Has(img.dirs[d], n)
    ensures var h := img.dirs[d][Find(img.dirs[d], n)].first;
      && h as nat in img.dirs && EmptyDir(img.dirs[h]) && Id(cwd) != h && DirView(img, d, n) == Some(h as nat)
  {
    hide EmptyDir, FileBytes;
  }

  lemma NotEmptyView(img: Image, own: map<nat, Loc>, depth: map<nat, nat>, h: nat, n: FName)
    requires Wf(img, own, depth) && DirView(img, h, n).Some? && Plain(n)
    ensures h in img.dirs && !EmptyDir(img.dirs[h])
  {
    hide Wf, FileBytes, EmptyDir;
    UserInside(img, own, depth, h, n);
  }

  lemma {:induction false} FollowNext(img: Image, names: seq<FName>, i: nat)
    requires Follow(img, names).Some? && i < |names|
    ensures Follow(img, names[..i]).Some?
    ensures Follow(img, names[..i + 1]) == DirView(img, Follow(img, names[..i]).value, names[i])
    ensures Follow(img, names[..i + 1]).Some?
    decreases |names|
  {
    hide DirView;
    var k := |names| - 1;
    if i < k {
      FollowNext(img, names[..k], i);
      assert names[..k][..i] == names[..i] && names[..k][..i + 1] == names[..i + 1];
    } else {
      assert names[..i + 1] == names;
    }
  }

  /** A directory in which a typed name is found is not empty. */
  lemma UserInside(img: Image, own: map<nat, Loc>, depth: map<nat, nat>, h: nat, n: FName)
    requires Wf(img, own, depth) && h in img.dirs && Has(img.dirs[h], n) && DOT !in n.base
    ensures !EmptyDir(img.dirs[h])
  {
    hide Wf;
    FoundEntry(img, own, depth, h, n);
    assert n.base[0] != DOT;
  }

  lemma CreateAgrees(s: State, own: map<nat, Loc>, depth: map<nat, nat>, names: seq<FName>, d: nat, n: FName, t: State)
    requires Wf(s.img, own, depth) && Agrees(s, names) && DOT !in n.base && n.base[0] != 0
    requires t == s.(img := CreateIn(s.img, d, n).img)
    ensures Agrees(t, names)
  {
    hide Wf, Agrees, CreateIn, Lookup;
    if CreateIn(s.img, d, n).ok {
      CreateWasNew(s.img, d, n);
      forall d2: nat, n2: FName | d2 != d || n2 != n ensures Lookup(t.img, d2, n2) == Lookup(s.img, d2, n2) {
        CreateLookup(s.img, own, depth, d, n, d2, n2);
      }
      OneNameAgrees(s, t, names, d, n);
    } else {
      CreateFails(s.img, d, n);
    }
  }

  lemma CreateFails(img: Image, d: nat, n: FName)
    ensures !CreateIn(img, d, n).ok ==> CreateIn(img, d, n).img == img
  {
  }

  lemma WriteAgrees(s: State, own: map<nat, Loc>, depth: map<nat, nat>, names: seq<FName>, d: nat, n: FName, data: seq<byte>, ok: bool, t: State)
    requires Wf(s.img, own, depth) && Agrees(s, names) && DOT !in n.base && n.base[0] != 0
    requires |data| <= 0x1_0000_0000 - 512 && WriteIn(s, d, n, data, ok, t)
    ensures Agrees(t, names)
  {
    hide Wf, Agrees, Lookup, WriteIn;
    var node := WriteEffect(s, own, depth, d, n, data, ok, t);
    WriteInKeepsCwd(s, d, n, data, ok, t);
    OneNameAgrees(s, t, names, d, n);
  }

  lemma AppendAgrees(s: State, own: map<nat, Loc>, depth: map<nat, nat>, names: seq<FName>, d: nat, n: FName, extra: seq<byte>, ok: bool, t: State)
    requires Wf(s.img, own, depth) && Agrees(s, names) && DOT !in n.base && n.base[0] != 0
    requires |extra| < 0x1_0000_0000 && AppendIn(s, d, n, extra, ok, t)
    ensures Agrees(t, names)
  {
    hide Wf, Agrees, Lookup, AppendIn;
    var node := AppendEffect(s, own, depth, d, n, extra, ok, t);
    AppendInKeepsCwd(s, d, n, extra, ok, t);
    OneNameAgrees(s, t, names, d, n);
  }

  lemma DeleteAgrees(s: State, own: map<nat, Loc>, depth: map<nat, nat>, names: seq<FName>, d: nat, n: FName, t: State)
    requires Wf(s.img, own, depth) && Agrees(s, names) && DOT !in n.base
    requires DeleteIn(s.img, d, n).ok && t == s.(img := DeleteIn(s.img, d, n).img)
    ensures Agrees(t, names)
  {
    hide Wf, Agrees, Lookup, DeleteIn;
    DeleteOnly(s.img, own, depth, d, n);
    OneNameAgrees(s, t, names, d, n);
  }

  lemma MkdirAgrees(s: State, own: map<nat, Loc>, depth: map<nat, nat>, names: seq<FName>, d: nat, n: FName, t: State)
    requires Wf(s.img, own, depth) && Agrees(s, names) && DOT !in n.base && n.base[0] != 0 && n.base[0] != DIRENT_DELETED
    requires MkdirIn(s.img, d, n, true, t.img) && t == s.(img := t.img)
    ensures Agrees(t, names)
  {
    hide Wf, Agrees, Lookup, Made, Room;
    var c: u16 :| Made(s.img, d, n, c, t.img);
    MadeFacts(s.img, d, n, c, t.img);
    forall d2: nat, n2: FName | Lookup(s.img, d2, n2).Some? ensures Lookup(t.img, d2, n2) == Lookup(s.img, d2, n2) {
      MkdirLookup(s.img, own, depth, d, n, c, t.img, d2, n2);
      MissingLookup(s.img, d, n, c, n2);
    }
    MissingLookup(s.img, d, n, c, n);
    OneNameAgrees(s, t, names, d, n);
  }

  lemma RenameAgrees(s: State, own: map<nat, Loc>, depth: map<nat, nat>, names: seq<FName>, d: nat, from: FName, to: FName, t: State)
    requires Wf(s.img, own, depth) && Agrees(s, names) && DOT !in from.base && DOT !in to.base
    requires to.base[0] != 0 && to.base[0] != DIRENT_DELETED && !OnTheWay(s.img, names, d, from)
    requires RenameIn(s.img, d, from, to).ok && t == s.(img := RenameIn(s.img, d, from, to).img)
    ensures Agrees(t, names)
  {
    hide Wf, Agrees, Lookup, RenameIn, OnTheWay;
    RenameWasNew(s.img, d, from, to);
    forall d2: nat, n2: FName | OnTheWay(s.img, names, d2, n2) && DirView(s.img, d2, n2).Some?
      ensures DirView(t.img, d2, n2) == DirView(s.img, d2, n2)
    {
      RenameLookup(s.img, own, depth, d, from, to, d2, n2);
    }
    ViewsAgree(s, t, names);
  }

  lemma RenameWasNew(img: Image, d: nat, from: FName, to: FName)
    requires RenameIn(img, d, from, to).ok
    ensures Lookup(img, d, to) == None
  {
  }

  /** No name on the way to the current directory is renamed, and `fs_chdir` cuts nothing. */
  ghost predicate KeepsDisplay(s: State, names: seq<FName>, c: Call) {
    match c
    case Chdir(p) => KeepsPathText(s, p)
    case Rename(p, _) =>
      Aim(s, p).Some? ==> !OnTheWay(s.img, names, Id(Aim(s, p).value.parent), SplitName(Aim(s, p).value.leaf))
    case _ => true
  }

  lemma RenameStepAgrees(s: State, own: map<nat, Loc>, depth: map<nat, nat>, names: seq<FName>, p: CStr, to: CStr, ok: bool, t: State)
    requires Wf(s.img, own, depth) && Present(s.img, s.cwd) && Agrees(s, names) && RenameStep(s, p, to, ok, t)
    requires !Marks(to) && KeepsDisplay(s, names, Rename(p, to))
    ensures Agrees(t, names)
  {
    hide Wf, Agrees, Aim, SplitName, RenameIn, OnTheWay, Present;
    if ok {
      var a, b := Aim(s, p).value, Aim(s, to).value;
      SplitNameHasNoDot(a.leaf);
      SplitNameHasNoDot(b.leaf);
      LeafFirst(s, to);
      AimPresent(s, own, depth, to);
      SplitNameFirstByte(b.leaf);
      RenameAgrees(s, own, depth, names, Id(a.parent), SplitName(a.leaf), SplitName(b.leaf), t);
    } else {
      FailureChangesNothing(s, Rename(p, to), t);
    }
  }

  /** With one name on the way gone and all other directories where they were, the names lead nowhere. */
  lemma {:induction false} FollowBroken(img: Image, t: Image, names: seq<FName>, d: nat, n: FName)
    requires Follow(img, names).Some? && OnTheWay(img, names, d, n) && DirView(t, d, n) == None
    requires forall d2: nat, n2: FName | (d2 != d || n2 != n) && DirView(img, d2, n2).Some? :: DirView(t, d2, n2) == DirView(img, d2, n2)
    ensures Follow(t, names) == None
    decreases |names|
  {
    hide DirView;
    var i :| 0 <= i < |names| && Follow(img, names[..i]) == Some(d) && names[i] == n;
    var k := |names| - 1;
    if i < k { assert names[..k][..i] == names[..i]; }
    if OnTheWay(img, names[..k], d, n) {
      FollowBroken(img, t, names[..k], d, n);
    } else {
      forall d2: nat, n2: FName | OnTheWay(img, names[..k], d2, n2) ensures DirView(t, d2, n2) == DirView(img, d2, n2) {
        OnTheWayIsDir(img, names[..k], d2, n2);
      }
      FollowSame(img, t, names[..k]);
    }
  }

  lemma RenameBreaks(img: Image, own: map<nat, Loc>, depth: map<nat, nat>, names: seq<FName>, d: nat, from: FName, to: FName)
    requires Wf(img, own, depth) && Follow(img, names).Some? && DOT !in from.base && DOT !in to.base
    requires to.base[0] != 0 && to.base[0] != DIRENT_DELETED && OnTheWay(img, names, d, from)
    requires RenameIn(img, d, from, to).ok
    ensures Follow(RenameIn(img, d, from, to).img, names) == None
  {
    hide Wf, Lookup, RenameIn, OnTheWay, Follow;
    var t := RenameIn(img, d, from, to).img;
    RenameWasNew(img, d, from, to);
    RenameLookup(img, own, depth, d, from, to, d, from);
    OnTheWayIsDir(img, names, d, from);
    forall d2: nat, n2: FName | (d2 != d || n2 != from) && DirView(img, d2, n2).Some?
      ensures DirView(t, d2, n2) == DirView(img, d2, n2)
    {
      RenameLookup(img, own, depth, d, from, to, d2, n2);
    }
    FollowBroken(img, t, names, d, from);
  }

  /** After a successful rename the text leads home, from anywhere, exactly if no directory on the way
      was renamed. */
  lemma RenameTextExactly(s: State, own: map<nat, Loc>, depth: map<nat, nat>, names: seq<FName>, p: CStr, to: CStr, t: State, from: DirRef)
    requires Wf(s.img, own, depth) && Present(s.img, s.cwd) && Agrees(s, names) && RenameStep(s, p, to, true, t)
    requires !Marks(to) && Present(t.img, from)
    ensures IdOf(WalkPath(t.img, t.text, from)) == Some(Id(t.cwd)) <==> KeepsDisplay(s, names, Rename(p, to))
  {
    hide Wf, Follow, Text, Plain, Aim, SplitName, RenameIn, OnTheWay, Present, WalkPath;
    var a, b := Aim(s, p).value, Aim(s, to).value;
    SplitNameHasNoDot(a.leaf);
    SplitNameHasNoDot(b.leaf);
    LeafFirst(s, to);
    AimPresent(s, own, depth, to);
    SplitNameFirstByte(b.leaf);
    RenameKeeps(s.img, own, depth, Id(a.parent), SplitName(a.leaf), SplitName(b.leaf));
    var own2, depth2 :| Wf(t.img, own2, depth2);
    if KeepsDisplay(s, names, Rename(p, to)) {
      RenameAgrees(s, own, depth, names, Id(a.parent), SplitName(a.leaf), SplitName(b.leaf), t);
      TextLeadsHome(t, own2, depth2, names, from);
    } else {
      RenameBreaks(s.img, own, depth, names, Id(a.parent), SplitName(a.leaf), SplitName(b.leaf));
      TextFollows(t.img, own2, depth2, names, from);
    }
  }

  /** Every harmless call keeps the text leading home. */
  lemma StepAgrees(s: State, own: map<nat, Loc>, depth: map<nat, nat>, names: seq<FName>, c: Call, ok: bool, t: State)
    returns (after: seq<FName>)
    requires Wf(s.img, own, depth) && Present(s.img, s.cwd) && Agrees(s, names)
    requires SizeFits(c) && Harmless(c) && KeepsDisplay(s, names, c) && Step(s, c, ok, t)
    ensures Agrees(t, after)
  {
    hide Wf, Agrees, Aim, SplitName, CreateIn, DeleteIn, RmdirIn, MkdirIn, WriteIn, AppendIn, OnTheWay, Present, KeepsPathText;
    after := names;
    if !ok && !c.Write? && !c.Append? {
      FailureChangesNothing(s, c, t);
    } else if c.Chdir? {
      after := ChdirAgrees(s, own, depth, names, c.path, t);
    } else if Aim(s, c.path).Some? {
      AimPresent(s, own, depth, c.path);
      var a := Aim(s, c.path).value;
      var d, n := Id(a.parent), SplitName(a.leaf);
      SplitNameHasNoDot(a.leaf);
      SplitNameFirstByte(a.leaf);
      match c
      case Create(_) => CreateAgrees(s, own, depth, names, d, n, t);
      case Write(_, data) => if a.leaf != [] { WriteAgrees(s, own, depth, names, d, n, data, ok, t); }
      case Append(_, data) => if a.leaf != [] { AppendAgrees(s, own, depth, names, d, n, data, ok, t); }
      case Delete(_) => DeleteAgrees(s, own, depth, names, d, n, t);
      case Rename(p, to) => RenameStepAgrees(s, own, depth, names, p, to, ok, t);
      case Mkdir(p) =>
        LeafFirst(s, p);
        MkdirAgrees(s, own, depth, names, d, n, t);
      case Rmdir(_) => RmdirAgrees(s, own, depth, names, d, n, t);
    }
  }

  /** A run, and the names that the text spells, call by call. */
  ghost predicate ShownRun(s: State, calls: seq<Call>, oks: seq<bool>, t: State)
    requires forall i | 0 <= i < |calls| :: SizeFits(calls[i]) && Harmless(calls[i])
    decreases |calls|
  {
    |oks| == |calls| &&
    if calls == [] then t == s
    else
      var n := |calls| - 1;
      exists mid :: ShownRun(s, calls[..n], oks[..n], mid) && Step(mid, calls[n], oks[n], t)
        && forall names | Agrees(mid, names) :: KeepsDisplay(mid, names, calls[n])
  }

  /** After any run of harmless calls, succeeding or failing, that cuts no text and renames no directory
      on the way, walking the text from anywhere ends at the current directory. */
  lemma {:induction false} RunLeadsHome(s: State, calls: seq<Call>, oks: seq<bool>, t: State, names: seq<FName>)
    returns (after: seq<FName>)
    requires forall i | 0 <= i < |calls| :: SizeFits(calls[i]) && Harmless(calls[i])
    requires Sound(s.img) && Present(s.img, s.cwd) && Agrees(s, names) && ShownRun(s, calls, oks, t)
    ensures Sound(t.img) && Present(t.img, t.cwd) && Agrees(t, after)
    ensures forall from | Present(t.img, from) :: IdOf(WalkPath(t.img, t.text, from)) == Some(Id(t.cwd))
    decreases |calls|
  {
    hide Wf, Step, Careless, Harmless, Present, Agrees, KeepsDisplay, WalkPath;
    after := names;
    if calls != [] {
      var n := |calls| - 1;
      var mid :| ShownRun(s, calls[..n], oks[..n], mid) && Step(mid, calls[n], oks[n], t)
        && forall names | Agrees(mid, names) :: KeepsDisplay(mid, names, calls[n]);
      var before := RunLeadsHome(s, calls[..n], oks[..n], mid, names);
      var own, depth :| Wf(mid.img, own, depth);
      HarmlessIsCareful(mid, calls[n]);
      StepKeeps(mid, own, depth, calls[n], oks[n], t);
      after := StepAgrees(mid, own, depth, before, calls[n], oks[n], t);
    }
    var own, depth :| Wf(t.img, own, depth);
    forall from | Present(t.img, from) ensures IdOf(WalkPath(t.img, t.text, from)) == Some(Id(t.cwd)) {
      TextLeadsHome(t, own, depth, after, from);
    }
  }
}
