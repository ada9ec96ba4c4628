/** The byte formats: little-endian FAT cells and 32-byte directory entries. */
module Codec {
  import opened Types
  import opened Layout

  // ---------- FAT cells ----------

  function Word(lo: byte, hi: byte): u16 {
    lo as int + 0x100 * hi as int
  }

  function Lo(v: u16): byte { v % 0x100 }

  function Hi(v: u16): byte { v / 0x100 }

  lemma WordLoHi(v: u16)
    ensures Word(Lo(v), Hi(v)) == v
  {
  }

  lemma LoHiWord(lo: byte, hi: byte)
    ensures Lo(Word(lo, hi)) == lo && Hi(Word(lo, hi)) == hi
  {
  }

  function Get16(s: Sector, o: nat): u16
    requires o + 1 < 512
  {
    Word(s[o], s[o + 1])
  }

  function Put16(s: Sector, o: nat, v: u16): Sector
    requires o + 1 < 512
  {
    s[o := Lo(v)][o + 1 := Hi(v)]
  }

  type DiskImage = d: seq<Sector> | |d| == 16384 witness seq<Sector>(16384, i => ZERO_SECTOR)

  function FatCell(disk: DiskImage, c: nat): u16
    requires c < FAT_CELLS
  {
    Get16(disk[FatSector(c)], FatOffset(c))
  }

  /** FAT copy 1 read as a table. */
  function FatOf(disk: DiskImage): (fat: seq<u16>)
    ensures |fat| == FAT_CELLS
  {
    seq(FAT_CELLS, c requires 0 <= c < FAT_CELLS => FatCell(disk, c))
  }

  predicate Mirrored(disk: DiskImage) {
    disk[FAT2_LBA..ROOT_LBA] == disk[FAT1_LBA..FAT2_LBA]
  }

  /** The data area, indexed by cluster number less FIRST_CLUSTER. */
  function ClustersOf(disk: DiskImage): (s: seq<Sector>)
    ensures |s| == DATA_CLUSTERS
  {
    disk[DATA_LBA..]
  }

  function RootAreaOf(disk: DiskImage): (s: seq<Sector>)
    ensures |s| == ROOT_SECTORS
  {
    disk[ROOT_LBA..DATA_LBA]
  }

  /** The disk after one cell is stored in both copies. */
  function FatStored(disk: DiskImage, c: nat, v: u16): DiskImage
    requires c < FAT_CELLS
  {
    var s := Put16(disk[FatSector(c)], FatOffset(c), v);
    disk[FatSector(c) := s][FatSector(c) + FAT_SECTORS := s]
  }

  /** Storing a cell changes that cell only, in both copies, and nothing outside the FAT. */
  lemma FatStoreThenRead(disk: DiskImage, c: nat, v: u16)
    requires c < FAT_CELLS
    ensures var d := FatStored(disk, c, v);
      && FatOf(d) == FatOf(disk)[c := v]
      && (Mirrored(disk) ==> Mirrored(d))
      && ClustersOf(d) == ClustersOf(disk)
      && RootAreaOf(d) == RootAreaOf(disk)
      && d[..BOOT_LBA + 1] == disk[..BOOT_LBA + 1]
  {
    var d := FatStored(disk, c, v);
    forall k | 0 <= k < FAT_CELLS
      ensures FatCell(d, k) == if k == c then v else FatCell(disk, k)
    {
      assert 2 * k == 512 * (2 * k / 512) + 2 * k % 512;
      assert 2 * c == 512 * (2 * c / 512) + 2 * c % 512;
    }
    if Mirrored(disk) {
      forall i | FAT1_LBA <= i < FAT2_LBA
        ensures d[i + FAT_SECTORS] == d[i]
      {
        assert disk[FAT2_LBA..ROOT_LBA][i - FAT1_LBA] == disk[FAT1_LBA..FAT2_LBA][i - FAT1_LBA];
      }
    }
  }

  // ---------- directory entries ----------

  type Name8 = s: seq<byte> | |s| == 8 witness [0, 0, 0, 0, 0, 0, 0, 0]
  type Ext3 = s: seq<byte> | |s| == 3 witness [0, 0, 0]
  type Bytes10 = s: seq<byte> | |s| == 10 witness [0, 0, 0, 0, 0, 0, 0, 0, 0, 0]

  datatype Dirent = Dirent(name: Name8, ext: Ext3, attr: byte, reserved: Bytes10,
                           time: u16, date: u16, first: u16, size: u32)

  function Long(lo: u16, hi: u16): u32 {
    lo as int + 0x1_0000 * hi as int
  }

  function LoWord(v: u32): u16 { v % 0x1_0000 }

  function HiWord(v: u32): u16 { v / 0x1_0000 }

  lemma LongLoHi(v: u32)
    ensures Long(LoWord(v), HiWord(v)) == v
  {
  }

  lemma LoHiLong(lo: u16, hi: u16)
    ensures LoWord(Long(lo, hi)) == lo && HiWord(Long(lo, hi)) == hi
  {
  }

  /** The numeric fields, little-endian. */
  function EncodeTail(e: Dirent): (b: seq<byte>)
    ensures |b| == 10
  {
    [Lo(e.time), Hi(e.time), Lo(e.date), Hi(e.date), Lo(e.first), Hi(e.first),
     Lo(LoWord(e.size)), Hi(LoWord(e.size)), Lo(HiWord(e.size)), Hi(HiWord(e.size))]
  }

  function Encode(e: Dirent): (b: seq<byte>)
    ensures |b| == 32
  {
    e.name + e.ext + [e.attr] + e.reserved + EncodeTail(e)
  }

  function Decode(b: seq<byte>): Dirent
    requires |b| == 32
  {
    Dirent(b[0..8], b[8..11], b[11], b[12..22],
           Word(b[22], b[23]), Word(b[24], b[25]), Word(b[26], b[27]),
           Long(Word(b[28], b[29]), Word(b[30], b[31])))
  }

  lemma DecodeEncode(e: Dirent)
    ensures Decode(Encode(e)) == e
  {
    WordLoHi(e.time);
    WordLoHi(e.date);
    WordLoHi(e.first);
    WordLoHi(LoWord(e.size));
    WordLoHi(HiWord(e.size));
    LongLoHi(e.size);
    hide Word, Lo, Hi, Long, LoWord, HiWord;
    var b := Encode(e);
    var t := EncodeTail(e);
    assert forall i | 0 <= i < 10 :: b[22 + i] == t[i];
    assert b[0..8] == e.name;
    assert b[8..11] == e.ext;
    assert b[12..22] == e.reserved;
    assert b[22] == t[0] && b[23] == t[1] && b[24] == t[2] && b[25] == t[3] && b[26] == t[4];
    assert b[27] == t[5] && b[28] == t[6] && b[29] == t[7] && b[30] == t[8] && b[31] == t[9];
  }

  lemma EncodeDecode(b: seq<byte>)
    requires |b| == 32
    ensures Encode(Decode(b)) == b
  {
    LoHiWord(b[22], b[23]);
    LoHiWord(b[24], b[25]);
    LoHiWord(b[26], b[27]);
    LoHiWord(b[28], b[29]);
    LoHiWord(b[30], b[31]);
    LoHiLong(Word(b[28], b[29]), Word(b[30], b[31]));
    hide Word, Lo, Hi, Long, LoWord, HiWord;
    var e := Decode(b);
    assert EncodeTail(e) == b[22..];
    assert e.name + e.ext + [e.attr] + e.reserved == b[..22];
  }

  // ---------- directory sectors ----------

  function EntryAt(s: Sector, k: nat): Dirent
    requires k < ENTRIES_PER_CLUSTER
  {
    Decode(s[32 * k..32 * k + 32])
  }

  function WithEntry(s: Sector, k: nat, e: Dirent): Sector
    requires k < ENTRIES_PER_CLUSTER
  {
    s[..32 * k] + Encode(e) + s[32 * k + 32..]
  }

  lemma WithEntryThenEntryAt(s: Sector, k: nat, e: Dirent, j: nat)
    requires k < ENTRIES_PER_CLUSTER && j < ENTRIES_PER_CLUSTER
    ensures EntryAt(WithEntry(s, k, e), j) == if j == k then e else EntryAt(s, j)
  {
    var t := WithEntry(s, k, e);
    if j == k {
      assert t[32 * j..32 * j + 32] == Encode(e);
      DecodeEncode(e);
    } else {
      assert t[32 * j..32 * j + 32] == s[32 * j..32 * j + 32];
    }
  }

  /** The entries of consecutive directory sectors, in disk order. */
  function Entries(sectors: seq<Sector>): (es: seq<Dirent>)
    ensures |es| == 16 * |sectors|
  {
    seq(16 * |sectors|, k requires 0 <= k < 16 * |sectors| => EntryAt(sectors[k / 16], k % 16))
  }

  lemma EntriesUpdate(sectors: seq<Sector>, i: nat, k: nat, e: Dirent)
    requires i < |sectors| && k < ENTRIES_PER_CLUSTER
    ensures Entries(sectors[i := WithEntry(sectors[i], k, e)]) == Entries(sectors)[16 * i + k := e]
  {
    var t := sectors[i := WithEntry(sectors[i], k, e)];
    forall j | 0 <= j < 16 * |sectors|
      ensures Entries(t)[j] == Entries(sectors)[16 * i + k := e][j]
    {
      WithEntryThenEntryAt(sectors[i], k, e, j % 16);
    }
  }

  lemma EntriesAppend(sectors: seq<Sector>, s: Sector)
    ensures Entries(sectors + [s]) == Entries(sectors) + Entries([s])
  {
    var n := |sectors|;
    forall j | 0 <= j < 16 * (n + 1)
      ensures Entries(sectors + [s])[j] == (Entries(sectors) + Entries([s]))[j]
    {
      if j < 16 * n {
        assert (sectors + [s])[j / 16] == sectors[j / 16];
      } else {
        assert j / 16 == n && j % 16 == j - 16 * n;
      }
    }
  }

  const FREE_ENTRY := Dirent([0, 0, 0, 0, 0, 0, 0, 0], [0, 0, 0], 0, [0, 0, 0, 0, 0, 0, 0, 0, 0, 0], 0, 0, 0, 0)

  lemma ZeroBytesDecode(b: seq<byte>)
    requires |b| == 32 && forall j | 0 <= j < 32 :: b[j] == 0
    ensures Decode(b) == FREE_ENTRY
  {
    assert b[0..8] == FREE_ENTRY.name;
    assert b[8..11] == FREE_ENTRY.ext;
    assert b[12..22] == FREE_ENTRY.reserved;
  }

  lemma ZeroSectorEntries()
    ensures forall k | 0 <= k < 16 :: Entries([ZERO_SECTOR])[k] == FREE_ENTRY
  {
    hide Decode;
    forall k | 0 <= k < 16
      ensures Entries([ZERO_SECTOR])[k] == FREE_ENTRY
    {
      var b := ZERO_SECTOR[32 * k..32 * k + 32];
      assert forall j | 0 <= j < 32 :: b[j] == 0;
      ZeroBytesDecode(b);
      assert k / 16 == 0 && k % 16 == k;
    }
  }

  /** One sector of the cached root directory, as it is written to disk. */
  function SectorOf(es: seq<Dirent>): Sector
    requires |es| == 16
  {
    seq(512, k requires 0 <= k < 512 => Encode(es[k / 32])[k % 32])
  }

  lemma SectorOfSlice(es: seq<Dirent>, k: nat)
    requires |es| == 16 && k < 16
    ensures SectorOf(es)[32 * k..32 * k + 32] == Encode(es[k])
  {
    hide Encode;
    var b := SectorOf(es)[32 * k..32 * k + 32];
    forall j | 0 <= j < 32
      ensures b[j] == Encode(es[k])[j]
    {
      assert b[j] == SectorOf(es)[32 * k + j] && (32 * k + j) / 32 == k && (32 * k + j) % 32 == j;
    }
  }

  lemma SectorOfThenEntries(es: seq<Dirent>)
    requires |es| == 16
    ensures Entries([SectorOf(es)]) == es
  {
    hide Encode, Decode, SectorOf;
    forall k | 0 <= k < 16
      ensures Entries([SectorOf(es)])[k] == es[k]
    {
      SectorOfSlice(es, k);
      DecodeEncode(es[k]);
    }
  }
}
