/** Sequences of calls. */
module Runs {
  import opened Types
  import opened Names
  import opened Images
  import opened Paths
  import opened Calls
  import opened Keeping

  /** What a caller can check without looking at the volume: no leaf that starts with byte 0xE5 for
      mkdir and rename, and no write of more than 2^32 - 512 bytes. */
  predicate Harmless(c: Call) {
    match c
    case Write(_, data) => |data| <= 0x1_0000_0000 - 512
    case Append(_, data) => |data| < 0x1_0000_0000
    case Mkdir(p) => !Marks(p)
    case Rename(_, to) => !Marks(to)
    case _ => true
  }

  /** The leaf of the path reads as deleted once it is in a directory. */
  predicate Marks(path: seq<byte>) { LeafOf(path) != [] && LeafOf(path)[0] == DIRENT_DELETED }

  lemma HarmlessIsCareful(s: State, c: Call)
    requires Harmless(c)
    ensures SizeFits(c) && !Careless(s, c)
  {
    hide WalkPath, SplitName;
    match c
    case Mkdir(p) => LeafFirst(s, p);
    case Rename(_, to) => LeafFirst(s, to);
    case _ =>
  }

  lemma LeafFirst(s: State, p: CStr)
    ensures Aim(s, p).Some? && !Marks(p) ==> SplitName(Aim(s, p).value.leaf).base[0] != DIRENT_DELETED
  {
    hide WalkPath;
    var leaf: CStr := LeafOf(p);
    SplitNameFirstByte(leaf);
    hide SplitName;
  }

  /** The calls, in order, take `s` to `t` and return `oks`. */
  ghost predicate Run(s: State, calls: seq<Call>, oks: seq<bool>, t: State)
    requires forall i | 0 <= i < |calls| :: SizeFits(calls[i])
    decreases |calls|
  {
    |oks| == |calls| &&
    if calls == [] then t == s
    else
      var n := |calls| - 1;
      exists mid :: Run(s, calls[..n], oks[..n], mid) && Step(mid, calls[n], oks[n], t)
  }

  /** Soundness, and the presence of the current directory, last over any run of harmless calls,
      whether they succeed or fail. */
  lemma {:induction false} RunKeeps(s: State, calls: seq<Call>, oks: seq<bool>, t: State)
    requires forall i | 0 <= i < |calls| :: SizeFits(calls[i]) && Harmless(calls[i])
    requires Sound(s.img) && Present(s.img, s.cwd) && Run(s, calls, oks, t)
    ensures Sound(t.img) && Present(t.img, t.cwd)
    decreases |calls|
  {
    hide Wf, Step, Careless, Harmless, Present;
    if calls != [] {
      var n := |calls| - 1;
      var mid :| Run(s, calls[..n], oks[..n], mid) && Step(mid, calls[n], oks[n], t);
      RunKeeps(s, calls[..n], oks[..n], mid);
      var own, depth :| Wf(mid.img, own, depth);
      HarmlessIsCareful(mid, calls[n]);
      StepKeeps(mid, own, depth, calls[n], oks[n], t);
    }
  }
}
