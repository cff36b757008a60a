/**
 * FAT32 volume geometry: how many clusters a partition of a given size
 * holds, how large each FAT copy must be, and where every cluster begins.
 * The formatter refuses a partition whose sector count, divided by the
 * cluster size, is below 65525. That count includes the reserved sectors and
 * both FATs, whereas section 3.5 of the Microsoft FAT32 File System
 * Specification counts only the clusters of the data region.
 */
module Fat32Geometry {
  import opened Bytes
  import opened Wrappers

  const SectorSize: nat := 512
  /** Sectors before the first FAT: boot sector, FSInfo, backup boot sector and padding. */
  const ReservedSectors: nat := 32
  const FatCount: nat := 2
  const MinClusters: nat := 65525
  const MaxClusterBytes: nat := 32768
  /** Four-byte FAT entries in one sector. */
  const FatEntriesPerSector: nat := 128
  /** The cluster size the formatter always uses: two sectors, 1024 bytes. */
  const SectorsPerCluster: nat := 2
  /** The largest kernel whose size fits the 32-bit size field of a directory record. */
  const MaxKernelSize: nat := 0xFFFF_FFFF
  const FsInfoSectorNumber: nat := 1
  const BackupBootSectorNumber: nat := 6
  const RootCluster: nat := 2

  datatype FormatError =
    | KernelTooBig(size: nat)
    | TooFewClusters(clusters: nat)
    | ClusterTooLarge(bytes: nat)
    | WriteFailed

  /**
   * The cluster sizes the formatter can handle: `BPB_SecPerClus` is one byte,
   * and rounding up with the mask `~(spc - 1)` is only correct for a power of two.
   */
  predicate ValidSectorsPerCluster(spc: nat)
  {
    spc == 1 || spc == 2 || spc == 4 || spc == 8 || spc == 16 || spc == 32 || spc == 64 || spc == 128
  }

  datatype Geometry = Geometry(
    firstSector: nat,       // partition start, in sectors from the start of the image
    sectorsPerCluster: nat,
    numClusters: nat,
    totalSectors: nat,      // the partition size recorded in the boot sector
    sectorsPerFat: nat)
  {
    function BytesPerCluster(): nat { sectorsPerCluster * SectorSize }
    function FatEntries(): nat { sectorsPerFat * FatEntriesPerSector }
  }

  /**
   * `x` rounded up to a multiple of the power of two `p`. The formatter
   * clears the low bits of `x + p - 1` with a mask; this is stated with
   * division instead.
   */
  function AlignUp(x: nat, p: nat): (r: nat)
    requires ValidSectorsPerCluster(p)
    ensures r % p == 0 && x <= r < x + p
  {
    (x + p - 1) / p * p
  }

  /**
   * The formatter's geometry for a partition of `numSectors` sectors starting
   * at `firstSector`, or the reason it refuses it: too few clusters for FAT32,
   * or clusters larger than 32 KiB.
   */
  function ComputeGeometry(firstSector: nat, numSectors: nat, spc: nat): (r: Result<Geometry, FormatError>)
    requires ValidSectorsPerCluster(spc)
    ensures r.Success? <==> numSectors >= MinClusters * spc && spc * SectorSize <= MaxClusterBytes
    ensures r.Failure? && numSectors < MinClusters * spc ==> r.error == TooFewClusters(numSectors / spc)
    ensures r.Failure? && numSectors >= MinClusters * spc ==> r.error == ClusterTooLarge(spc * SectorSize)
    ensures r.Success? ==> ValidGeometry(r.value)
    ensures r.Success? ==> r.value.firstSector == firstSector && r.value.sectorsPerCluster == spc
    ensures r.Success? ==> r.value.totalSectors <= numSectors < r.value.totalSectors + spc
  {
    var numClusters := numSectors / spc;
    if numClusters < MinClusters then
      Failure(TooFewClusters(numClusters))
    else if spc * SectorSize > MaxClusterBytes then
      Failure(ClusterTooLarge(spc * SectorSize))
    else
      var fatSectors := AlignUp((numClusters + FatEntriesPerSector - 1) / FatEntriesPerSector, spc);
      var g := Geometry(firstSector, spc, numClusters, numClusters * spc, fatSectors);
      assert ValidGeometry(g) by { GeometryArithmetic(numSectors, spc); }
      Success(g)
  }

  /**
   * What the formatter's geometry satisfies: at least 65525 clusters in the
   * whole partition (reserved sectors and FATs included), clusters of at most
   * 32 KiB, a recorded size of whole clusters, and a FAT that has one entry
   * per counted cluster and is the smallest whole number of clusters that does.
   */
  ghost predicate ValidGeometry(g: Geometry)
  {
    && ValidSectorsPerCluster(g.sectorsPerCluster)
    && g.numClusters >= MinClusters
    && g.BytesPerCluster() <= MaxClusterBytes
    && g.totalSectors == g.numClusters * g.sectorsPerCluster
    && g.sectorsPerFat % g.sectorsPerCluster == 0
    && g.FatEntries() >= g.numClusters
    && (g.sectorsPerFat - g.sectorsPerCluster) * FatEntriesPerSector < g.numClusters
  }

  /** The arithmetic behind `ComputeGeometry`, one cluster size at a time. */
  lemma GeometryArithmetic(numSectors: nat, spc: nat)
    requires ValidSectorsPerCluster(spc) && numSectors / spc >= MinClusters
    ensures var nc := numSectors / spc;
            var spf := AlignUp((nc + 127) / 128, spc);
            && nc * spc <= numSectors < nc * spc + spc
            && spf * 128 >= nc
            && (spf - spc) * 128 < nc
  {
    var nc := numSectors / spc;
    var spf := AlignUp((nc + 127) / 128, spc);
    assert spf * 128 >= nc;
    if spc == 1 {} else if spc == 2 {} else if spc == 4 {} else if spc == 8 {}
    else if spc == 16 {} else if spc == 32 {} else if spc == 64 {} else {}
  }

  /** `ceil(kernelSize / bytesPerCluster)`: the clusters a kernel of `kernelSize` bytes occupies. */
  function KernelClusters(kernelSize: nat, bytesPerCluster: nat): (r: nat)
    requires bytesPerCluster > 0
    ensures r * bytesPerCluster >= kernelSize
    ensures r > 0 ==> (r - 1) * bytesPerCluster < kernelSize
    ensures r == 0 <==> kernelSize == 0
  {
    var q := (kernelSize + bytesPerCluster - 1) / bytesPerCluster;
    assert (q - 1) * bytesPerCluster == q * bytesPerCluster - bytesPerCluster;
    q
  }

  /** Byte offset of FAT copy `copy` (0 or 1): right after the reserved sectors, one after the other. */
  function FatOffset(g: Geometry, copy: nat): nat
  {
    (g.firstSector + ReservedSectors + copy * g.sectorsPerFat) * SectorSize
  }

  /** Byte offset of data cluster `cluster` (`get_cluster_offset`); data clusters are numbered from 2. */
  function ClusterOffset(g: Geometry, cluster: nat): (r: nat)
    requires cluster >= 2
    ensures cluster == 2 ==> r == FatOffset(g, 1) + g.sectorsPerFat * SectorSize
    ensures r % SectorSize == 0
  {
    (g.firstSector + ReservedSectors + g.sectorsPerFat * FatCount + g.sectorsPerCluster * (cluster - 2)) * SectorSize
  }

  /** Consecutive clusters are `BytesPerCluster()` apart, so cluster `c` occupies its own byte range. */
  lemma ClusterStride(g: Geometry, cluster: nat)
    requires cluster >= 2
    ensures ClusterOffset(g, cluster + 1) == ClusterOffset(g, cluster) + g.BytesPerCluster()
    ensures ClusterOffset(g, cluster) >= ClusterOffset(g, 2)
  {
    assert g.sectorsPerCluster * (cluster + 1 - 2) == g.sectorsPerCluster * (cluster - 2) + g.sectorsPerCluster;
  }

  /** The clusters of the data region: what follows the reserved sectors and both FATs. */
  function DataClusters(g: Geometry): (r: nat)
    requires g.sectorsPerCluster > 0
    ensures r * g.sectorsPerCluster + ReservedSectors + FatCount * g.sectorsPerFat <= g.totalSectors
            || g.totalSectors < ReservedSectors + FatCount * g.sectorsPerFat
  {
    if g.totalSectors < ReservedSectors + FatCount * g.sectorsPerFat then 0
    else (g.totalSectors - ReservedSectors - FatCount * g.sectorsPerFat) / g.sectorsPerCluster
  }

  /**
   * A partition of 131050 sectors passes the 65525-cluster check with
   * two-sector clusters, yet its data region holds only 64997 clusters, few
   * enough that a reader following section 3.5 takes the volume for FAT16.
   */
  lemma AcceptedBelowFat32()
    ensures ComputeGeometry(0, 131050, SectorsPerCluster).Success?
    ensures DataClusters(ComputeGeometry(0, 131050, SectorsPerCluster).value) == 64997 < MinClusters
  {
    var g := ComputeGeometry(0, 131050, SectorsPerCluster).value;
    assert g.sectorsPerFat == AlignUp(512, 2) == 512;
  }
}
