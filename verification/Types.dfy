/** Machine-level values shared by the whole model. */
module Types {
  type byte = x: int | 0 <= x < 0x100
  type u16 = x: int | 0 <= x < 0x1_0000
  type u32 = x: int | 0 <= x < 0x1_0000_0000

  datatype Option<+T> = None | Some(value: T)

  function Min(a: nat, b: nat): nat { if a < b then a else b }

  const BYTES_PER_SECTOR := 512

  type Sector = s: seq<byte> | |s| == 512 witness seq(512, i => 0)

  /** What a `const char *` denotes: the bytes before the terminating NUL. */
  type CStr = s: seq<byte> | 0 !in s

  const SPACE: byte := 0x20
  const DOT: byte := 0x2E
  const SLASH: byte := 0x2F

  const ZERO_SECTOR: Sector := seq(512, i => 0)

  /** `(size + 511) / 512` with the wrap-around of a 32-bit unsigned sum. */
  function SectorsFor32(size: u32): nat {
    (size + 511) % 0x1_0000_0000 / 512
  }

  /** The number of sectors that hold `size` bytes. */
  function SectorsFor(size: nat): nat {
    (size + 511) / 512
  }

  /** The 32-bit computation is right exactly up to 2^32 - 512 bytes; above that it gives 0. */
  lemma SectorsFor32IsRight(size: u32)
    ensures SectorsFor32(size) == SectorsFor(size) <==> size <= 0x1_0000_0000 - 512
    ensures size > 0x1_0000_0000 - 512 ==> SectorsFor32(size) == 0
    ensures SectorsFor32(size) == 0 <==> size == 0 || size > 0x1_0000_0000 - 512
  {
    if size > 0x1_0000_0000 - 512 {
      assert (size + 511) % 0x1_0000_0000 == size + 511 - 0x1_0000_0000;
    } else {
      assert (size + 511) % 0x1_0000_0000 == size + 511;
    }
  }

  /** All sectors one after the other. */
  function Flatten(sectors: seq<Sector>): (bytes: seq<byte>)
    ensures |bytes| == 512 * |sectors|
  {
    seq(512 * |sectors|, k requires 0 <= k < 512 * |sectors| => sectors[k / 512][k % 512])
  }
}
