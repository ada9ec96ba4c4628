/** Byte strings laid out over sectors. */
module Sectors {
  import opened Types

  lemma FlattenAppend(ss: seq<Sector>, s: Sector)
    ensures Flatten(ss + [s]) == Flatten(ss) + s
  {
    var n := |ss|;
    forall k | 0 <= k < 512 * (n + 1)
      ensures Flatten(ss + [s])[k] == (Flatten(ss) + s)[k]
    {
      if k < 512 * n {
        assert (ss + [s])[k / 512] == ss[k / 512];
      } else {
        assert k / 512 == n && k % 512 == k - 512 * n;
      }
    }
  }

  lemma {:induction false} FlattenConcat(a: seq<Sector>, b: seq<Sector>)
    ensures Flatten(a + b) == Flatten(a) + Flatten(b)
  {
    if b == [] {
      assert a + b == a && Flatten(b) == [];
    } else {
      var init := b[..|b| - 1];
      FlattenConcat(a, init);
      FlattenAppend(init, b[|b| - 1]);
      FlattenAppend(a + init, b[|b| - 1]);
      assert b == init + [b[|b| - 1]] && a + b == a + init + [b[|b| - 1]];
    }
  }

  /** Replacing the last sector replaces the last 512 bytes. */
  lemma FlattenLast(ss: seq<Sector>, s: Sector)
    requires ss != []
    ensures Flatten(ss[|ss| - 1 := s]) == Flatten(ss)[..512 * (|ss| - 1)] + s
  {
    var init := ss[..|ss| - 1];
    FlattenAppend(init, s);
    FlattenAppend(init, ss[|ss| - 1]);
    assert ss[|ss| - 1 := s] == init + [s] && ss == init + [ss[|ss| - 1]];
  }

  lemma FlattenAt(ss: seq<Sector>, i: nat)
    requires i < |ss|
    ensures Flatten(ss)[512 * i..512 * i + 512] == ss[i]
  {
    forall k | 0 <= k < 512
      ensures Flatten(ss)[512 * i..512 * i + 512][k] == ss[i][k]
    {
      assert (512 * i + k) / 512 == i && (512 * i + k) % 512 == k;
    }
  }

  lemma FlattenPrefix(ss: seq<Sector>, i: nat, count: nat)
    requires i < |ss| && count <= 512
    ensures Flatten(ss)[..512 * i + count] == Flatten(ss)[..512 * i] + ss[i][..count]
  {
    FlattenAt(ss, i);
    var all := Flatten(ss);
    assert all[512 * i..512 * i + 512][..count] == all[512 * i..512 * i + count];
  }

  /** The copying loops of `fs_write`, `fs_append` and `fs_read`. */
  method CopyInto(buf: Sector, at: nat, data: seq<byte>, from: nat, count: nat) returns (r: Sector)
    requires at + count <= 512 && from + count <= |data|
    ensures r == buf[..at] + data[from..from + count] + buf[at + count..]
  {
    r := buf;
    for b := 0 to count
      invariant r == buf[..at] + data[from..from + b] + buf[at + b..]
    {
      r := r[at + b := data[from + b]];
    }
  }

  /** `size` bytes need `n` sectors: the first `n` full ones and one more for the rest. */
  lemma SectorsForBounds(size: nat)
    ensures 512 * SectorsFor(size) >= size > 512 * (SectorsFor(size) - 1)
  {
  }

  lemma SectorsForIs(size: nat, n: nat)
    requires 512 * n >= size > 512 * (n - 1)
    ensures SectorsFor(size) == n
  {
  }
}
