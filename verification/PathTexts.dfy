/** The text of the current directory, kept alongside the walk. */
module PathTexts {
  import opened Types
  import opened Names
  import opened Images
  import opened Paths

  /** Characters the 128-byte path buffer can hold. */
  const PATH_MAX := 127

  function WithSlash(buf: seq<byte>): seq<byte> {
    if buf == [SLASH] || (|buf| > 0 && |buf| >= PATH_MAX) then buf else buf + [SLASH]
  }

  /** "/name" put after the text, cut at the end of the buffer. */
  function Appended(buf: seq<byte>, name: seq<byte>): seq<byte> {
    var b := WithSlash(buf);
    if |b| >= PATH_MAX then b else b + name[..Min(|name|, PATH_MAX - |b|)]
  }

  /** The text up to its last '/', but at least the leading one. */
  function Trimmed(buf: seq<byte>): seq<byte> {
    if |buf| <= 1 then buf
    else
      var n := AfterLastSlash(buf[1..]);
      if n == 0 then buf[..1] else buf[..n]
  }

  /** The text after walking `p` from `d`, when the walk succeeds. */
  function WalkText(img: Image, p: seq<byte>, d: DirRef, buf: seq<byte>): seq<byte>
    decreases |p|
  {
    if p == [] then buf
    else if Comp(p) == [] || Comp(p) == ONE_DOT then WalkText(img, Rest(p), d, buf)
    else if Comp(p) == TWO_DOTS then WalkText(img, Rest(p), Up(img, d), Trimmed(buf))
    else match Down(img, d, Comp(p))
      case None => buf
      case Some(next) => WalkText(img, Rest(p), next, Appended(buf, Display(SplitName(Comp(p)))))
  }

  function WalkPathText(img: Image, path: seq<byte>, d: DirRef, buf: seq<byte>): seq<byte> {
    if IsAbsolute(path) then WalkText(img, path[1..], ROOT, [SLASH]) else WalkText(img, path, d, buf)
  }

  /** The start of `path_append`: a slash, unless the text is exactly "/" or full. */
  method PutSlash(buf: CStr) returns (r: CStr)
    ensures r == WithSlash(buf)
  {
    var len := |buf|;
    r := buf;
    if len > 1 || (len == 1 && buf[0] != SLASH) {
      if len < PATH_MAX { r := r + [SLASH]; }
    } else if len == 0 {
      r := r + [SLASH];
    }
  }

  /** The loop of `path_append`: the bytes before the NUL, as many as fit. */
  method CopyTail(b: CStr, out: seq<byte>) returns (r: CStr)
    ensures r == if |b| >= PATH_MAX then b else b + Until(out, 0)[..Min(|Until(out, 0)|, PATH_MAX - |b|)]
  {
    ghost var disp: CStr := Until(out, 0);
    hide Until;
    var t: seq<byte> := b;
    var i := 0;
    while i < |out| && out[i] != 0 && |t| < PATH_MAX
      invariant i <= |disp| && t == b + disp[..i] && (i > 0 ==> |t| <= PATH_MAX)
    {
      assert out[i] == disp[i];
      t := t + [out[i]];
      i := i + 1;
    }
    StillNoNul(b, disp, i);
    r := t;
  }

  method AppendName(buf: CStr, n: FName) returns (r: CStr)
    ensures r == Appended(buf, Display(n))
  {
    var out := PrintName(n);
    assert Display(n) == Until(out, 0);
    hide Display, Printed, WithSlash, Until;
    r := PutSlash(buf);
    r := CopyTail(r, out);
  }

  lemma StillNoNul(a: CStr, b: CStr, i: nat)
    requires i <= |b|
    ensures 0 !in a + b[..i]
  {
  }

  /** The loop of `path_trim_last`. */
  method TrimLast(buf: CStr) returns (r: CStr)
    ensures r == Trimmed(buf)
  {
    var len := |buf|;
    if len <= 1 { return buf; }
    len := len - 1;
    while len > 0 && buf[len] != SLASH
      invariant len < |buf|
      invariant forall i | len < i < |buf| :: buf[i] != SLASH
    {
      len := len - 1;
    }
    var tail := buf[1..];
    LastSlashIs(tail, len);
    if len == 0 { len := 1; }
    r := buf[..len];
  }

  lemma {:induction false} LastSlashIs(s: seq<byte>, n: nat)
    requires n <= |s| && (n > 0 ==> s[n - 1] == SLASH)
    requires forall i | n <= i < |s| :: s[i] != SLASH
    ensures AfterLastSlash(s) == n
    decreases |s|
  {
    if n < |s| { LastSlashIs(s[..|s| - 1], n); }
  }

  /** The text never outgrows its buffer. */
  lemma {:induction false} WalkTextFits(img: Image, p: seq<byte>, d: DirRef, buf: seq<byte>)
    requires |buf| <= PATH_MAX
    ensures |WalkText(img, p, d, buf)| <= PATH_MAX
    decreases |p|
  {
    hide Display, Up, Down, Comp, Rest;
    if p != [] {
      if Comp(p) == [] || Comp(p) == ONE_DOT {
        WalkTextFits(img, Rest(p), d, buf);
      } else if Comp(p) == TWO_DOTS {
        WalkTextFits(img, Rest(p), Up(img, d), Trimmed(buf));
      } else if Down(img, d, Comp(p)).Some? {
        WalkTextFits(img, Rest(p), Down(img, d, Comp(p)).value, Appended(buf, Display(SplitName(Comp(p)))));
      }
    }
  }

  /** What `path_append` leaves: the text, a slash unless the text is "/", and the name, cut at 127
      characters. */
  lemma AppendedIs(buf: seq<byte>, name: seq<byte>)
    requires 0 < |buf| <= 127
    ensures var full := buf + (if buf == [0x2F] then [] else [0x2F]) + name;
      Appended(buf, name) == if |full| <= 127 then full else full[..127]
  {
    var b := buf + (if buf == [0x2F] then [] else [0x2F]);
    if |buf| == 127 {
      assert (b + name)[..127] == buf;
    } else if |b + name| > 127 {
      assert (b + name)[..127] == b + name[..127 - |b|];
    }
  }

  /** What `path_trim_last` leaves: the text before its last slash, or that slash if it is the first byte. */
  lemma TrimmedIs(dir: seq<byte>, last: seq<byte>)
    requires SLASH !in last && dir != []
    ensures Trimmed(dir + [SLASH] + last) == dir
    ensures Trimmed([SLASH] + last) == [SLASH] && Trimmed([]) == []
  {
    var buf := dir + [SLASH] + last;
    assert buf[1..][..|dir| - 1] == dir[1..] && buf[|dir|] == SLASH;
    LastSlashIs(buf[1..], |dir|);
    if last != [] { LastSlashIs(([SLASH] + last)[1..], 0); }
  }
}
