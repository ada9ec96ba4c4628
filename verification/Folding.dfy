/** Paths that differ in letter case only stand for the same thing. */
module Folding {
  import opened Types
  import opened Names
  import opened Images
  import opened Paths
  import opened Calls
  import opened Reading

  lemma AlikeDots(c: seq<byte>, e: seq<byte>)
    requires Alike(c, e)
    ensures (c == [] <==> e == []) && (c == ONE_DOT <==> e == ONE_DOT) && (c == TWO_DOTS <==> e == TWO_DOTS)
  {
    assert forall i | 0 <= i < |c| :: SameLetter(c[i], e[i]) && (c[i] == DOT <==> e[i] == DOT);
    if |c| == 2 && |e| == 2 { assert c == [c[0], c[1]] && e == [e[0], e[1]]; }
    if |c| == 1 && |e| == 1 { assert c == [c[0]] && e == [e[0]]; }
  }

  lemma {:induction false} AlikeSkip(p: seq<byte>, q: seq<byte>)
    requires Alike(p, q)
    ensures Alike(SkipSlashes(p), SkipSlashes(q))
    decreases |p|
  {
    if p != [] {
      assert SameLetter(p[0], q[0]);
      if p[0] == SLASH { AlikeSkip(p[1..], q[1..]); }
    }
  }

  lemma AlikeComp(p: seq<byte>, q: seq<byte>)
    requires Alike(p, q)
    ensures Alike(Comp(p), Comp(q)) && Alike(Rest(p), Rest(q))
  {
    AlikeUntil(p, q, SLASH);
    hide Until, SkipSlashes;
    AlikeSkip(p[|Comp(p)|..], q[|Comp(q)|..]);
  }

  lemma {:induction false} AlikeWalk(img: Image, p: seq<byte>, q: seq<byte>, d: DirRef)
    requires Alike(p, q)
    ensures Walk(img, p, d) == Walk(img, q, d)
    decreases |p|
  {
    hide Alike, Comp, Rest, Up, Lookup, SplitName;
    AlikeLength(p, q);
    if p != [] {
      AlikeComp(p, q);
      AlikeDots(Comp(p), Comp(q));
      SplitNameFolds(Comp(p), Comp(q));
      if Comp(p) == [] || Comp(p) == ONE_DOT {
        AlikeWalk(img, Rest(p), Rest(q), d);
      } else if Comp(p) == TWO_DOTS {
        AlikeWalk(img, Rest(p), Rest(q), Up(img, d));
      } else if Down(img, d, Comp(p)).Some? {
        AlikeWalk(img, Rest(p), Rest(q), Down(img, d, Comp(p)).value);
      }
    }
  }

  lemma AlikeLength(p: seq<byte>, q: seq<byte>)
    requires Alike(p, q)
    ensures |p| == |q|
  {
  }

  lemma AlikeWalkPath(img: Image, p: seq<byte>, q: seq<byte>, d: DirRef)
    requires Alike(p, q)
    ensures WalkPath(img, p, d) == WalkPath(img, q, d)
  {
    hide Walk;
    if p != [] {
      assert SameLetter(p[0], q[0]);
      AlikeWalk(img, p[1..], q[1..], ROOT);
    }
    AlikeWalk(img, p, q, d);
  }

  lemma {:induction false} AlikeLastSlash(p: seq<byte>, q: seq<byte>)
    requires Alike(p, q)
    ensures AfterLastSlash(p) == AfterLastSlash(q)
    decreases |p|
  {
    if p != [] {
      var k := |p| - 1;
      assert SameLetter(p[k], q[k]);
      if p[k] != SLASH { AlikeLastSlash(p[..k], q[..k]); }
    }
  }

  /** "readme.txt", "README.TXT" and "ReadMe.Txt" are one file, in directories typed in any case: both paths
      resolve to the same reference and the same name, or neither resolves. */
  lemma CaseBlind(s: State, p: seq<byte>, q: seq<byte>)
    requires Alike(p, q)
    ensures Aim(s, p).Some? <==> Aim(s, q).Some?
    ensures Aim(s, p).Some? ==> SameTarget(s, p, q) && Aim(s, p).value.parent == Aim(s, q).value.parent
    ensures FileAt(s, p) == FileAt(s, q) && SizeAt(s, p) == SizeAt(s, q)
    ensures WalkPath(s.img, p, s.cwd) == WalkPath(s.img, q, s.cwd)
  {
    hide WalkPath, Lookup, SplitName, SizeIn;
    AlikeLastSlash(p, q);
    var n := AfterLastSlash(p);
    AlikeWalkPath(s.img, p, q, s.cwd);
    AlikeWalkPath(s.img, p[..Min(n, DIRPART_MAX)], q[..Min(n, DIRPART_MAX)], s.cwd);
    SplitNameFolds(LeafOf(p), LeafOf(q));
  }
}
