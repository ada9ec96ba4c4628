/** What each public call does, as a relation between the volume before and after. */
module Calls {
  import opened Types
  import opened Layout
  import opened Codec
  import opened Names
  import opened Images
  import opened Paths
  import opened PathTexts
  import opened Soundness

  /** The mounted volume, the current directory and its text. */
  datatype State = State(img: Image, cwd: DirRef, text: seq<byte>)

  const ZERO10: Bytes10 := [0, 0, 0, 0, 0, 0, 0, 0, 0, 0]

  function NewFile(n: FName): Dirent {
    Dirent(n.base, n.ext, ATTR_NORMAL, ZERO10, 0, 0, 0, 0)
  }

  function DirEntry(n: FName, first: u16): Dirent {
    Dirent(n.base, n.ext, ATTR_DIRECTORY, ZERO10, 0, 0, first, 0)
  }

  function Deleted(e: Dirent): Dirent {
    e.(name := e.name[0 := DIRENT_DELETED], first := 0, size := 0)
  }

  function NewDirSlots(c: u16, parent: u16): (s: seq<Dirent>)
    ensures |s| == 16
  {
    FreeSlots()[0 := DirEntry(DOT_NAME, c)][1 := DirEntry(DOTDOT_NAME, parent)]
  }

  /** The image with `e` in the first free slot of `d`. */
  function Placed(img: Image, d: nat, e: Dirent): Image
    requires Room(img, d)
  {
    SetSlot(WithRoom(img, d), d, FreeSlot(img.dirs[d]), e)
  }

  // ---------- calls on a resolved target ----------

  datatype Outcome = Outcome(ok: bool, img: Image)

  function CreateIn(img: Image, d: nat, n: FName): Outcome {
    if d !in img.dirs || Has(img.dirs[d], n) || !Room(img, d) then Outcome(false, img)
    else Outcome(true, Placed(img, d, NewFile(n)))
  }

  function SectorsOf(img: Image, e: Dirent): nat {
    if e.first in img.files then |img.files[e.first]| else 0
  }

  /** The plain file in slot `k` of `d` now holds `data`, in as many clusters as the 32-bit computation
      asks for; or, if there are not that many once its own are free, it is empty. */
  ghost predicate Overwritten(img: Image, d: nat, k: nat, data: seq<byte>, ok: bool, t: Image)
    requires d in img.dirs && k < |img.dirs[d]| && |data| < 0x1_0000_0000
  {
    var e := img.dirs[d][k];
    var avail := img.free + SectorsOf(img, e);
    var need := SectorsFor32(|data|);
    && d in t.dirs && k < |t.dirs[d]|
    && var e2 := t.dirs[d][k];
       && FileChange(img, d, k, e2, t)
       && (ok <==> need <= avail)
       && e2 == e.(first := e2.first, size := if ok then |data| else 0)
       && (e2.first == 0 <==> !ok || need == 0)
       && t.free == avail - (if ok then need else 0)
       && (e2.first != 0 ==>
             && e2.first in t.files && DataCluster(e2.first) && e2.first !in img.dirs && e2.first !in img.files - {e.first as nat}
             && FileHolds(t.files[e2.first], data))
  }

  ghost predicate OverwriteStep(img: Image, d: nat, k: nat, data: seq<byte>, ok: bool, t: Image)
    requires d in img.dirs && k < |img.dirs[d]| && |data| < 0x1_0000_0000
  {
    if IsDir(img.dirs[d][k]) then !ok && t == img else Overwritten(img, d, k, data, ok, t)
  }

  /** Bytes the file of `e` can still take: the slack of its last cluster and all free clusters. */
  function RoomToAppend(img: Image, e: Dirent): int {
    512 * SectorsOf(img, e) - e.size + 512 * img.free
  }

  /** The plain file in slot `k` of `d` now ends in as much of `extra` as fits. */
  ghost predicate FileExtended(img: Image, d: nat, k: nat, extra: seq<byte>, ok: bool, t: Image)
    requires d in img.dirs && k < |img.dirs[d]|
  {
    var e := img.dirs[d][k];
    var room := RoomToAppend(img, e);
    && d in t.dirs && k < |t.dirs[d]| && room >= 0
    && (ok <==> |extra| <= room)
    && var n := if ok then |extra| else room;
       var e2 := t.dirs[d][k];
       && FileChange(img, d, k, e2, t)
       && e2 == e.(first := e2.first, size := e2.size) && e2.size == e.size + n
       && (e2.first == 0 <==> e2.size == 0) && (e.first != 0 ==> e2.first == e.first)
       && (e2.first != 0 ==>
             && e2.first in t.files && DataCluster(e2.first) && e2.first !in img.dirs && e2.first !in img.files - {e.first as nat}
             && FileHolds(t.files[e2.first], FileBytes(img, e) + extra[..n]))
       && t.free == img.free + SectorsOf(img, e) - SectorsFor(e2.size)
  }

  ghost predicate AppendStep(img: Image, d: nat, k: nat, extra: seq<byte>, ok: bool, t: Image)
    requires d in img.dirs && k < |img.dirs[d]|
  {
    if IsDir(img.dirs[d][k]) then !ok && t == img
    else if extra == [] then ok && t == img
    else FileExtended(img, d, k, extra, ok, t)
  }

  function DeleteIn(img: Image, d: nat, n: FName): Outcome {
    if d !in img.dirs || !Has(img.dirs[d], n) then Outcome(false, img)
    else
      var k := Find(img.dirs[d], n);
      var e := img.dirs[d][k];
      if IsDir(e) then Outcome(false, img)
      else Outcome(true, Image(img.dirs[d := img.dirs[d][k := Deleted(e)]], img.files - {e.first as nat},
                               img.free + SectorsOf(img, e)))
  }

  /** The name is free, and there is a cluster for the new directory and then still room for its entry. */
  predicate CanMkdir(img: Image, d: nat, n: FName) {
    d in img.dirs && d < 0x1_0000 && !Has(img.dirs[d], n) && img.free > 0 && Room(img.(free := img.free - 1), d)
  }

  /** A new directory in a cluster of its own, entered in `d`. */
  ghost predicate MkdirIn(img: Image, d: nat, n: FName, ok: bool, t: Image) {
    if CanMkdir(img, d, n) then ok && exists c: u16 :: Made(img, d, n, c, t)
    else !ok && t == img
  }

  ghost predicate Made(img: Image, d: nat, n: FName, c: u16, t: Image)
    requires d in img.dirs && d < 0x1_0000 && img.free > 0 && Room(img.(free := img.free - 1), d)
  {
    && DataCluster(c) && c !in img.dirs && c !in img.files
    && var p := Placed(img.(free := img.free - 1), d, DirEntry(n, c));
       t == Image(p.dirs[c as nat := NewDirSlots(c, d)], p.files, p.free)
  }

  /** Only dead slots and entries named "." or ".." (whatever their extension). */
  predicate EmptyDir(slots: seq<Dirent>) {
    forall i | 0 <= i < |slots| && Live(slots[i]) :: slots[i].name == DOT_NAME.base || slots[i].name == DOTDOT_NAME.base
  }

  function RmdirIn(img: Image, cwd: DirRef, d: nat, n: FName): Outcome {
    if d !in img.dirs || !Has(img.dirs[d], n) then Outcome(false, img)
    else
      var k := Find(img.dirs[d], n);
      var e := img.dirs[d][k];
      if !IsDir(e) || Id(cwd) == e.first || e.first !in img.dirs || !EmptyDir(img.dirs[e.first]) then Outcome(false, img)
      else Outcome(true, Image((img.dirs - {e.first as nat})[d := img.dirs[d][k := Deleted(e)]], img.files,
                               img.free + |img.dirs[e.first]| / 16))
  }

  function RenameIn(img: Image, d: nat, from: FName, to: FName): Outcome {
    if d !in img.dirs || !Has(img.dirs[d], from) || Has(img.dirs[d], to) then Outcome(false, img)
    else
      var k := Find(img.dirs[d], from);
      Outcome(true, SetSlot(img, d, k, img.dirs[d][k].(name := to.base, ext := to.ext)))
  }

  // ---------- the calls ----------

  datatype Call =
    | Create(path: CStr)
    | Write(path: CStr, data: seq<byte>)
    | Append(path: CStr, data: seq<byte>)
    | Delete(path: CStr)
    | Rename(path: CStr, to: CStr)
    | Mkdir(path: CStr)
    | Rmdir(path: CStr)
    | Chdir(path: CStr)

  /** Directory and name a path stands for; no name when the path ends in '/'. */
  function Aim(s: State, path: seq<byte>): Option<Target> { ResolveParent(s.img, s.cwd, path) }

  /** What `fs_read` would read from, and what `fs_stat` would report. */
  function FileAt(s: State, path: seq<byte>): Option<seq<byte>> {
    match Aim(s, path)
    case None => None
    case Some(a) =>
      match Lookup(s.img, Id(a.parent), SplitName(a.leaf))
      case Some(FileNode(bytes)) => Some(bytes)
      case _ => None
  }

  /** `fs_read`: the first bytes of a plain file, as many as the caller has room for. */
  ghost predicate ReadStep(s: State, path: seq<byte>, maxSize: nat, ok: bool, out: seq<byte>) {
    match FileAt(s, path)
    case None => !ok
    case Some(bytes) => ok && out == bytes[..Min(maxSize, |bytes|)]
  }

  function SizeAt(s: State, path: seq<byte>): Option<u32> {
    match Aim(s, path)
    case None => None
    case Some(a) => SizeIn(s.img, Id(a.parent), SplitName(a.leaf))
  }

  function SizeIn(img: Image, d: nat, n: FName): Option<u32> {
    if d in img.dirs && Has(img.dirs[d], n) then Some(img.dirs[d][Find(img.dirs[d], n)].size) else None
  }

  predicate DotLeaf(leaf: seq<byte>) { leaf == ONE_DOT || leaf == TWO_DOTS }

  ghost predicate Keeps(s: State, o: Outcome, ok: bool, t: State) {
    ok == o.ok && t == s.(img := o.img)
  }

  ghost predicate Fails(s: State, ok: bool, t: State) { !ok && t == s }

  ghost predicate CreateStep(s: State, path: seq<byte>, ok: bool, t: State) {
    match Aim(s, path)
    case None => Fails(s, ok, t)
    case Some(a) => if a.leaf == [] then Fails(s, ok, t)
                    else Keeps(s, CreateIn(s.img, Id(a.parent), SplitName(a.leaf)), ok, t)
  }

  /** The file to write: there already, or created now. A name whose first byte is 0xE5 is created
      and not found again. */
  function Opened(img: Image, d: nat, n: FName): Outcome {
    if d in img.dirs && Has(img.dirs[d], n) then Outcome(true, img)
    else var o := CreateIn(img, d, n);
         Outcome(o.ok && d in o.img.dirs && Has(o.img.dirs[d], n), o.img)
  }

  /** A plain file is there or can be created: write and append get past their early exits. */
  predicate OpensFile(img: Image, d: nat, n: FName) {
    var o := Opened(img, d, n);
    o.ok && !IsDir(o.img.dirs[d][Find(o.img.dirs[d], n)])
  }

  ghost predicate WriteStep(s: State, path: seq<byte>, data: seq<byte>, ok: bool, t: State)
    requires |data| < 0x1_0000_0000
  {
    match Aim(s, path)
    case None => Fails(s, ok, t)
    case Some(a) => if a.leaf == [] then Fails(s, ok, t)
                    else WriteIn(s, Id(a.parent), SplitName(a.leaf), data, ok, t)
  }

  ghost predicate WriteIn(s: State, d: nat, n: FName, data: seq<byte>, ok: bool, t: State)
    requires |data| < 0x1_0000_0000
  {
    var o := Opened(s.img, d, n);
    if !o.ok then !ok && t == s.(img := o.img)
    else t == s.(img := t.img) && OverwriteStep(o.img, d, Find(o.img.dirs[d], n), data, ok, t.img)
  }

  ghost predicate AppendPathStep(s: State, path: seq<byte>, extra: seq<byte>, ok: bool, t: State) {
    match Aim(s, path)
    case None => Fails(s, ok, t)
    case Some(a) => if a.leaf == [] then Fails(s, ok, t)
                    else AppendIn(s, Id(a.parent), SplitName(a.leaf), extra, ok, t)
  }

  ghost predicate AppendIn(s: State, d: nat, n: FName, extra: seq<byte>, ok: bool, t: State) {
    var o := Opened(s.img, d, n);
    if !o.ok then !ok && t == s.(img := o.img)
    else t == s.(img := t.img) && AppendStep(o.img, d, Find(o.img.dirs[d], n), extra, ok, t.img)
  }

  ghost predicate DeleteStep(s: State, path: seq<byte>, ok: bool, t: State) {
    match Aim(s, path)
    case None => Fails(s, ok, t)
    case Some(a) => Keeps(s, DeleteIn(s.img, Id(a.parent), SplitName(a.leaf)), ok, t)
  }

  ghost predicate MkdirStep(s: State, path: seq<byte>, ok: bool, t: State) {
    match Aim(s, path)
    case None => Fails(s, ok, t)
    case Some(a) => if a.leaf == [] || DotLeaf(a.leaf) then Fails(s, ok, t)
                    else t == s.(img := t.img) && MkdirIn(s.img, Id(a.parent), SplitName(a.leaf), ok, t.img)
  }

  ghost predicate RmdirStep(s: State, path: seq<byte>, ok: bool, t: State) {
    match Aim(s, path)
    case None => Fails(s, ok, t)
    case Some(a) => if a.leaf == [] || DotLeaf(a.leaf) then Fails(s, ok, t)
                    else Keeps(s, RmdirIn(s.img, s.cwd, Id(a.parent), SplitName(a.leaf)), ok, t)
  }

  /** Both paths must give the same reference, stale cluster included. */
  ghost predicate RenameStep(s: State, path: seq<byte>, to: seq<byte>, ok: bool, t: State) {
    match (Aim(s, path), Aim(s, to))
    case (Some(a), Some(b)) =>
      if b.leaf == [] || a.parent != b.parent then Fails(s, ok, t)
      else Keeps(s, RenameIn(s.img, Id(a.parent), SplitName(a.leaf), SplitName(b.leaf)), ok, t)
    case _ => Fails(s, ok, t)
  }

  ghost predicate ChdirStep(s: State, path: seq<byte>, ok: bool, t: State) {
    match WalkPath(s.img, path, s.cwd)
    case None => Fails(s, ok, t)
    case Some(d) => ok && t == State(s.img, d, WalkPathText(s.img, path, s.cwd, s.text))
  }

  predicate SizeFits(c: Call) {
    (c.Write? || c.Append?) ==> |c.data| < 0x1_0000_0000
  }

  ghost predicate Step(s: State, c: Call, ok: bool, t: State)
    requires SizeFits(c)
  {
    match c
    case Create(p) => CreateStep(s, p, ok, t)
    case Write(p, data) => WriteStep(s, p, data, ok, t)
    case Append(p, data) => AppendPathStep(s, p, data, ok, t)
    case Delete(p) => DeleteStep(s, p, ok, t)
    case Rename(p, to) => RenameStep(s, p, to, ok, t)
    case Mkdir(p) => MkdirStep(s, p, ok, t)
    case Rmdir(p) => RmdirStep(s, p, ok, t)
    case Chdir(p) => ChdirStep(s, p, ok, t)
  }
}
