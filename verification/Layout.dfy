/** Where RinkFS16 keeps things on the disk image (kernel/scr/fs.h). */
module Layout {
  import opened Types

  const IMAGE_SECTORS := 16384
  const BOOT_LBA := 300
  const FAT_SECTORS := 63
  const FAT1_LBA := BOOT_LBA + 1
  const FAT2_LBA := FAT1_LBA + FAT_SECTORS
  const ROOT_ENTRIES := 128
  const ROOT_SECTORS := 8
  const ROOT_LBA := FAT2_LBA + FAT_SECTORS
  const DATA_LBA := ROOT_LBA + ROOT_SECTORS
  const FIRST_CLUSTER := 2
  const DATA_CLUSTERS := IMAGE_SECTORS - DATA_LBA
  const CLUSTER_LIMIT := FIRST_CLUSTER + DATA_CLUSTERS
  /** 16-bit cells in one FAT copy; a little more than the clusters it has to describe. */
  const FAT_CELLS := FAT_SECTORS * 256
  const ENTRIES_PER_CLUSTER := 16

  const CLUSTER_FREE: u16 := 0x0000
  const CLUSTER_BAD: u16 := 0xFFF7
  const CLUSTER_EOC: u16 := 0xFFFF
  const CLUSTER_EOC_MIN: u16 := 0xFFF8

  predicate DataCluster(c: int) { FIRST_CLUSTER <= c < CLUSTER_LIMIT }

  /** The test the source makes before it follows a link. */
  predicate Followable(c: int) { FIRST_CLUSTER <= c < CLUSTER_EOC_MIN }

  function FatSector(c: nat): nat { FAT1_LBA + 2 * c / BYTES_PER_SECTOR }

  function FatOffset(c: nat): nat { 2 * c % BYTES_PER_SECTOR }

  function ClusterLba(c: nat): int { DATA_LBA + (c - FIRST_CLUSTER) }

  datatype Area = Boot | Fat1 | Fat2 | Root | Data | Outside

  function AreaOf(lba: int): Area {
    if lba == BOOT_LBA then Boot
    else if FAT1_LBA <= lba < FAT2_LBA then Fat1
    else if FAT2_LBA <= lba < ROOT_LBA then Fat2
    else if ROOT_LBA <= lba < DATA_LBA then Root
    else if DATA_LBA <= lba < IMAGE_SECTORS then Data
    else Outside
  }

  /** Every sector the source computes for a data cluster or its FAT cell lies in its own area,
      and two clusters never share a data sector or a FAT cell. */
  lemma AreasAreDisjoint(c: nat, d: nat)
    requires DataCluster(c) && DataCluster(d)
    ensures AreaOf(FatSector(c)) == Fat1 && AreaOf(FatSector(c) + FAT_SECTORS) == Fat2
    ensures AreaOf(ClusterLba(c)) == Data
    ensures FatOffset(c) + 1 < BYTES_PER_SECTOR
    ensures c != d ==> ClusterLba(c) != ClusterLba(d)
    ensures c != d ==> FatSector(c) != FatSector(d) || FatOffset(c) + 1 < FatOffset(d) || FatOffset(d) + 1 < FatOffset(c)
  {
    FatPosition(c);
    FatPosition(d);
  }

  lemma FatPosition(c: nat)
    requires c < FAT_CELLS
    ensures 2 * c == 512 * (FatSector(c) - FAT1_LBA) + FatOffset(c)
    ensures FAT1_LBA <= FatSector(c) < FAT2_LBA && FatOffset(c) + 1 < 512
    ensures FatOffset(c) % 2 == 0
  {
  }
}
