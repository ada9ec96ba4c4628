/** 8.3 names: parsing what a user types and printing what a directory holds. */
module Names {
  import opened Types
  import opened Codec

  const NAME_FIELD_LEN := 8
  const EXT_FIELD_LEN := 3

  /** A name as the disk holds it. */
  datatype FName = FName(base: Name8, ext: Ext3)

  function Upper(c: byte): byte {
    if 0x61 <= c <= 0x7A then c - 0x20 else c
  }

  /** The bytes before the first occurrence of `stop`. */
  function Until(s: seq<byte>, stop: byte): (r: seq<byte>)
    ensures |r| <= |s| && r == s[..|r|] && stop !in r
    ensures |r| < |s| ==> s[|r|] == stop
  {
    if s == [] || s[0] == stop then [] else [s[0]] + Until(s[1..], stop)
  }

  /** The bytes after the first '.'. */
  function AfterDot(s: seq<byte>): seq<byte> {
    var n := |Until(s, DOT)|;
    if n < |s| then s[n + 1..] else []
  }

  /** `s` cut or space-padded to `n` bytes, in upper case. */
  function Field(s: seq<byte>, n: nat): (f: seq<byte>)
    ensures |f| == n
  {
    seq(n, i requires 0 <= i < n => if i < |s| then Upper(s[i]) else SPACE)
  }

  function SplitName(s: seq<byte>): FName {
    FName(Field(Until(s, DOT), NAME_FIELD_LEN), Field(AfterDot(s), EXT_FIELD_LEN))
  }

  /** The bytes `dirent_to_display` writes in front of the terminating NUL. */
  function Printed(n: FName): seq<byte> {
    Until(n.base, SPACE) + if n.ext[0] == SPACE then [] else [DOT] + Until(n.ext, SPACE)
  }

  /** The string a reader finds there: a NUL in a field ends it early. */
  function Display(n: FName): CStr { Until(Printed(n), 0) }

  /** The loops of `split_name`. */
  method ParseName(input: CStr) returns (n: FName)
    ensures n == SplitName(input)
  {
    var name8: Name8 := seq(8, i => SPACE);
    var ext3: Ext3 := seq(3, i => SPACE);
    var stem := Until(input, DOT);
    var pos := 0;
    while pos < |input| && input[pos] != DOT && pos < NAME_FIELD_LEN
      invariant pos <= |stem| && pos <= NAME_FIELD_LEN
      invariant forall i | 0 <= i < 8 :: name8[i] == if i < pos then Upper(stem[i]) else SPACE
    {
      name8 := name8[pos := Upper(input[pos])];
      pos := pos + 1;
    }
    while pos < |input| && input[pos] != DOT
      invariant pos <= |stem|
    {
      pos := pos + 1;
    }
    assert pos == |stem|;
    if pos < |input| && input[pos] == DOT {
      pos := pos + 1;
      var e := 0;
      var rest := AfterDot(input);
      while pos < |input| && e < EXT_FIELD_LEN
        invariant pos == |stem| + 1 + e && e <= |rest| && e <= EXT_FIELD_LEN
        invariant forall i | 0 <= i < 3 :: ext3[i] == if i < e then Upper(rest[i]) else SPACE
      {
        ext3 := ext3[e := Upper(input[pos])];
        e := e + 1;
        pos := pos + 1;
      }
    }
    n := FName(name8, ext3);
    assert name8 == Field(stem, NAME_FIELD_LEN);
    assert ext3 == Field(AfterDot(input), EXT_FIELD_LEN);
  }

  /** The loops of `dirent_to_display`; the text and its NUL fit the 13-byte component buffer. */
  method PrintName(n: FName) returns (out: seq<byte>)
    ensures out == Printed(n) && |out| + 1 <= 13
  {
    out := [];
    var i := 0;
    while i < NAME_FIELD_LEN && n.base[i] != SPACE
      invariant i <= NAME_FIELD_LEN && i <= |Until(n.base, SPACE)|
      invariant out == n.base[..i]
    {
      out := out + [n.base[i]];
      i := i + 1;
    }
    assert out == Until(n.base, SPACE);
    if n.ext[0] != SPACE {
      out := out + [DOT];
      i := 0;
      while i < EXT_FIELD_LEN && n.ext[i] != SPACE
        invariant i <= EXT_FIELD_LEN && i <= |Until(n.ext, SPACE)|
        invariant out == Until(n.base, SPACE) + [DOT] + n.ext[..i]
      {
        out := out + [n.ext[i]];
        i := i + 1;
      }
      assert out == Printed(n);
    }
  }

  /** Upper case, and spaces only as padding at the end. */
  predicate PaddedUpper(f: seq<byte>) {
    && (forall i | 0 <= i < |f| :: Upper(f[i]) == f[i])
    && (forall i, j | 0 <= i < j < |f| :: f[i] == SPACE ==> f[j] == SPACE)
  }

  lemma FieldOfUntil(f: seq<byte>)
    ensures Field(Until(f, SPACE), |f|) == f <==> PaddedUpper(f)
  {
    var t := Until(f, SPACE);
    if PaddedUpper(f) {
      forall i | 0 <= i < |f|
        ensures Field(t, |f|)[i] == f[i]
      {
        assert i < |t| ==> t[i] == f[i];
        assert |t| < i ==> f[|t|] == SPACE;
      }
    }
  }

  /** Parsing the displayed form of a name gives the name back exactly when both fields are upper case,
      padded with spaces only at the end and free of NULs, and the name field holds no '.'. */
  lemma SplitDisplayRoundTrip(n: FName)
    ensures SplitName(Display(n)) == n <==>
            && PaddedUpper(n.base) && DOT !in n.base && PaddedUpper(n.ext) && 0 !in n.base && 0 !in n.ext
  {
    SplitNameHasNoDot(Display(n));
    SplitNameHasNoNul(Display(n));
    if 0 !in n.base && 0 !in n.ext {
      FieldOfUntil(n.base);
      FieldOfUntil(n.ext);
      NoNulPrinted(n);
      if DOT !in n.base { PrintedParts(n); }
    }
    hide Display, Printed, Until, AfterDot, Field, PaddedUpper;
  }

  lemma SplitNameHasNoNul(s: CStr)
    ensures 0 !in SplitName(s).base && 0 !in SplitName(s).ext
  {
    var t, e := Until(s, DOT), AfterDot(s);
    assert forall i | 0 <= i < 8 :: SplitName(s).base[i] == if i < |t| then Upper(t[i]) else SPACE;
    assert forall i | 0 <= i < 3 :: SplitName(s).ext[i] == if i < |e| then Upper(e[i]) else SPACE;
  }

  lemma NoNulPrinted(n: FName)
    requires 0 !in n.base && 0 !in n.ext
    ensures Display(n) == Printed(n)
  {
    UntilOfPrefix(Printed(n), Printed(n), 0);
  }

  /** The '.' that printing puts in is the one that parsing finds. */
  lemma PrintedParts(n: FName)
    requires DOT !in n.base
    ensures Until(Printed(n), DOT) == Until(n.base, SPACE)
    ensures AfterDot(Printed(n)) == Until(n.ext, SPACE)
  {
    var s := Printed(n);
    var b := Until(n.base, SPACE);
    assert DOT !in b;
    UntilOfPrefix(b, s, DOT);
    if n.ext[0] != SPACE {
      assert s[|b| + 1..] == Until(n.ext, SPACE);
    }
  }

  /** A field with a NUL in it is cut there: this name, whose fields are in order otherwise, prints as
      one that parses to another. */
  lemma NulCutsName()
    ensures var n := FName(seq(8, i => if i == 0 then 0 else SPACE), seq(3, i => SPACE));
      PaddedUpper(n.base) && DOT !in n.base && PaddedUpper(n.ext) && SplitName(Display(n)) != n
  {
    var n := FName(seq(8, i => if i == 0 then 0 else SPACE), seq(3, i => SPACE));
    hide Display, SplitName;
    assert n.base[0] == 0;
    SplitDisplayRoundTrip(n);
  }

  lemma {:induction false} UntilOfPrefix(b: seq<byte>, s: seq<byte>, stop: byte)
    requires b <= s && stop !in b && (|b| < |s| ==> s[|b|] == stop)
    ensures Until(s, stop) == b
  {
    if b != [] {
      assert b[0] == s[0];
      UntilOfPrefix(b[1..], s[1..], stop);
      assert b == [b[0]] + b[1..];
    }
  }

  /** A parsed name never has a '.' in its name field, so it never matches "." or "..". */
  lemma SplitNameHasNoDot(s: seq<byte>)
    ensures DOT !in SplitName(s).base
  {
    var t := Until(s, DOT);
    assert forall i | 0 <= i < 8 :: SplitName(s).base[i] == if i < |t| then Upper(t[i]) else SPACE;
  }

  /** The first name byte is the first byte typed, unless that is a '.' or nothing. */
  lemma SplitNameFirstByte(s: CStr)
    ensures SplitName(s).base[0] != 0
    ensures SplitName(s).base[0] == 0xE5 <==> s != [] && s[0] == 0xE5
  {
  }

  /** Printing and parsing once more changes nothing, for a name typed without spaces. */
  lemma DisplayIsStable(s: CStr)
    requires SPACE !in s
    ensures SplitName(Display(SplitName(s))) == SplitName(s)
  {
    SplitNameHasNoDot(s);
    SplitNameHasNoNul(s);
    SplitDisplayRoundTrip(SplitName(s));
    FieldIsPadded(Until(s, DOT), NAME_FIELD_LEN);
    FieldIsPadded(AfterDot(s), EXT_FIELD_LEN);
  }

  lemma FieldIsPadded(s: seq<byte>, n: nat)
    requires SPACE !in s
    ensures PaddedUpper(Field(s, n))
  {
  }

  // ---------- letter case ----------

  /** The same byte, or the same letter in the other case. */
  predicate SameLetter(a: byte, b: byte) {
    a == b || (0x61 <= a <= 0x7A && b == a - 0x20) || (0x61 <= b <= 0x7A && a == b - 0x20)
  }

  predicate Alike(s: seq<byte>, t: seq<byte>) {
    |s| == |t| && forall i | 0 <= i < |s| :: SameLetter(s[i], t[i])
  }

  /** What is cut at a byte that is no letter is alike in both. */
  lemma {:induction false} AlikeUntil(s: seq<byte>, t: seq<byte>, stop: byte)
    requires Alike(s, t) && (stop == DOT || stop == SLASH)
    ensures Alike(Until(s, stop), Until(t, stop))
  {
    if s != [] && s[0] != stop {
      assert SameLetter(s[0], t[0]) && t[0] != stop;
      AlikeUntil(s[1..], t[1..], stop);
    }
  }

  /** Parsing folds case: no parsed field holds a lower-case letter, and names that differ in case only
      parse to the same. */
  lemma SplitNameFolds(s: seq<byte>, t: seq<byte>)
    ensures forall i | 0 <= i < 8 :: !(0x61 <= SplitName(s).base[i] <= 0x7A)
    ensures forall i | 0 <= i < 3 :: !(0x61 <= SplitName(s).ext[i] <= 0x7A)
    ensures Alike(s, t) ==> SplitName(s) == SplitName(t)
  {
    if Alike(s, t) {
      AlikeUntil(s, t, DOT);
      hide Until;
      AlikeFields(Until(s, DOT), Until(t, DOT), NAME_FIELD_LEN);
      AlikeFields(AfterDot(s), AfterDot(t), EXT_FIELD_LEN);
    }
  }

  lemma AlikeFields(s: seq<byte>, t: seq<byte>, n: nat)
    requires Alike(s, t)
    ensures Field(s, n) == Field(t, n)
  {
    forall i | 0 <= i < n ensures Field(s, n)[i] == Field(t, n)[i] {
      if i < |s| { assert SameLetter(s[i], t[i]); }
    }
  }

  /** What a name parses to, byte by byte: the part before the first dot and the part behind it, each cut
      or padded with spaces, lower-case letters made upper-case. */
  lemma SplitNameIs(stem: seq<byte>, rest: seq<byte>)
    requires DOT !in stem
    ensures var n := SplitName(stem + [DOT] + rest);
      && (forall i | 0 <= i < 8 :: n.base[i] == ParsedByte(stem, i))
      && (forall i | 0 <= i < 3 :: n.ext[i] == ParsedByte(rest, i))
    ensures var n := SplitName(stem);
      && (forall i | 0 <= i < 8 :: n.base[i] == ParsedByte(stem, i))
      && (forall i | 0 <= i < 3 :: n.ext[i] == 0x20)
  {
    var s := stem + [DOT] + rest;
    UntilOfPrefix(stem, s, DOT);
    UntilOfPrefix(stem, stem, DOT);
    assert AfterDot(s) == rest && AfterDot(stem) == [];
    hide Until, AfterDot;
  }

  function ParsedByte(s: seq<byte>, i: nat): byte {
    if i >= |s| then 0x20 else if 0x61 <= s[i] <= 0x7A then s[i] - 0x20 else s[i]
  }
}
