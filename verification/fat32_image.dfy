/**
 * What the formatted partition holds once every write of the formatter has
 * been made: the writes are laid out in increasing order, so none overwrites
 * another, and each structure can be read back from the final image where
 * the formatter put it.
 */
module Fat32Image {
  import opened Bytes
  import opened ImageSink
  import opened Fat32Geometry
  import opened Fat32Records
  import opened Fat32Table
  import opened Fat32

  /** The conditions under which the formatter's writes are defined. */
  ghost predicate Formattable(g: Geometry, kernel: seq<byte>)
  {
    ValidGeometry(g) && g.totalSectors < TwoTo32 && g.FatEntries() < TwoTo32 && |kernel| <= MaxKernelSize
  }

  /** Sectors 0, 1 and 6 of the partition lie in order before the first FAT. */
  lemma SectorsInOrder(g: Geometry, boot: seq<byte>, info: seq<byte>)
    requires |boot| == SectorSize && |info| == SectorSize
    ensures var ws := [SectorWrite(g, 0, boot), SectorWrite(g, FsInfoSectorNumber, info),
                       SectorWrite(g, BackupBootSectorNumber, boot)];
            InOrder(ws) && ws[2].End() <= FatOffset(g, 0)
  {
    var base := g.firstSector * SectorSize;
    assert (g.firstSector + 0) * SectorSize == base;
    assert (g.firstSector + FsInfoSectorNumber) * SectorSize == base + 512;
    assert (g.firstSector + BackupBootSectorNumber) * SectorSize == base + 3072;
    assert FatOffset(g, 0) == base + 16384;
  }

  /** The boot sector, FSInfo and backup boot sector lie in order within the reserved sectors. */
  lemma BootRegionLayout(g: Geometry, volumeId: u32)
    requires ValidGeometry(g) && g.totalSectors < TwoTo32
    ensures var ws := BootRegionWrites(g, volumeId);
            && |ws| == 3 && InOrder(ws)
            && ws[2].End() <= FatOffset(g, 0)
  {
    SectorsInOrder(g, EncodeBootSector(FormatterBootSector(g, volumeId)), FsInfoSector());
  }

  /** The two FAT copies lie one after the other, and the second ends where cluster 2 begins. */
  lemma FatCopyLayout(g: Geometry, kernelClusters: nat)
    requires g.FatEntries() < TwoTo32
    ensures var ws := FatCopyWrites(g, kernelClusters);
            && |ws| == 2 && InOrder(ws)
            && ws[0].offset == FatOffset(g, 0) && ws[1].offset == FatOffset(g, 1)
            && ws[0].data == ws[1].data == FatImage(g, kernelClusters)
            && ws[1].End() == ClusterOffset(g, 2)
  {
  }

  /** Records 0, 1 and 2 of the directory in `cluster` lie in order within that cluster. */
  lemma ClusterRecordsLayout(g: Geometry, cluster: nat, w0: Write, w1: Write, w2: Write)
    requires ValidGeometry(g) && cluster >= 2
    requires w0.offset == RecordOffset(g, cluster, 0) && |w0.data| == DirEntrySize
    requires w1.offset == RecordOffset(g, cluster, 1) && |w1.data| == DirEntrySize
    requires w2.offset == RecordOffset(g, cluster, 2) && |w2.data| == DirEntrySize
    ensures InOrder([w0, w1, w2])
    ensures w0.offset == ClusterOffset(g, cluster) && w2.End() <= ClusterOffset(g, cluster + 1)
  {
    ClusterStride(g, cluster);
    assert g.BytesPerCluster() >= SectorSize;
  }

  /** The three directories lie in clusters 2, 3 and 4, each within its own cluster. */
  lemma DirectoryLayout(g: Geometry, kernelSize: u32)
    requires ValidGeometry(g)
    ensures var c, d, e := RootDirWrites(g), EfiDirWrites(g), BootDirWrites(g, kernelSize);
            && |c| == 1 && |d| == 3 && |e| == 3 && InOrder(c) && InOrder(d) && InOrder(e)
            && c[0].offset == ClusterOffset(g, 2) && c[0].End() <= d[0].offset
            && d[2].End() <= e[0].offset && e[2].End() <= ClusterOffset(g, KernelCluster)
  {
    var c, d, e := RootDirWrites(g), EfiDirWrites(g), BootDirWrites(g, kernelSize);
    ClusterStride(g, 2);
    assert g.BytesPerCluster() >= SectorSize;
    ClusterRecordsLayout(g, EfiDirCluster, d[0], d[1], d[2]);
    assert d == [d[0], d[1], d[2]];
    ClusterRecordsLayout(g, BootDirCluster, e[0], e[1], e[2]);
    assert e == [e[0], e[1], e[2]];
  }

  /**
   * The thirteen writes, in order: boot sector, FSInfo, backup boot sector,
   * the two FAT copies, the seven directory records and the kernel, each
   * ending at or before the offset where the next one begins.
   */
  lemma EfiWritesInOrder(g: Geometry, kernel: seq<byte>, volumeId: u32)
    requires Formattable(g, kernel)
    ensures InOrder(EfiWrites(g, kernel, volumeId))
  {
    var kc := KernelClusters(|kernel|, g.BytesPerCluster());
    BootRegionLayout(g, volumeId);
    FatCopyLayout(g, kc);
    DirectoryLayout(g, |kernel|);
    InOrderGroups(BootRegionWrites(g, volumeId), FatCopyWrites(g, kc), RootDirWrites(g), EfiDirWrites(g),
                  BootDirWrites(g, |kernel|), [KernelWrite(g, kernel)]);
  }

  /** The image the writes leave behind. */
  ghost function Formatted(s: seq<byte>, g: Geometry, kernel: seq<byte>, volumeId: u32): (r: seq<byte>)
    requires Formattable(g, kernel) && AllFit(|s|, EfiWrites(g, kernel, volumeId))
    ensures |r| == |s|
  {
    ApplyWrites(s, EfiWrites(g, kernel, volumeId))
  }

  /** The sector `sector` of the partition, taken from `img`. */
  ghost function SectorAt(img: seq<byte>, g: Geometry, sector: nat): (r: seq<byte>)
    requires (g.firstSector + sector + 1) * SectorSize <= |img|
    ensures |r| == SectorSize
  {
    img[(g.firstSector + sector) * SectorSize..(g.firstSector + sector + 1) * SectorSize]
  }

  /**
   * Group `which` of the formatter's writes (0 to 5, in the order it writes
   * them) is present in the formatted image; `which` is a literal at every
   * use, so only the one group's fact comes into play.
   */
  lemma GroupWritten(s: seq<byte>, g: Geometry, kernel: seq<byte>, volumeId: u32, which: nat)
    requires Formattable(g, kernel) && AllFit(|s|, EfiWrites(g, kernel, volumeId)) && which < 6
    ensures var img, kc := Formatted(s, g, kernel, volumeId), KernelClusters(|kernel|, g.BytesPerCluster());
            && (which == 0 ==> Holds(img, BootRegionWrites(g, volumeId)))
            && (which == 1 ==> Holds(img, FatCopyWrites(g, kc)))
            && (which == 2 ==> Holds(img, RootDirWrites(g)))
            && (which == 3 ==> Holds(img, EfiDirWrites(g)))
            && (which == 4 ==> Holds(img, BootDirWrites(g, |kernel|)))
            && (which == 5 ==> Holds(img, [KernelWrite(g, kernel)]))
  {
    var kc := KernelClusters(|kernel|, g.BytesPerCluster());
    EfiWritesInOrder(g, kernel, volumeId);
    ReadBackGroup(s, EfiWrites(g, kernel, volumeId), BootRegionWrites(g, volumeId), FatCopyWrites(g, kc),
                  RootDirWrites(g), EfiDirWrites(g), BootDirWrites(g, |kernel|), [KernelWrite(g, kernel)], which);
  }

  /** A one-sector write present in `img` is the sector it was written to. */
  lemma SectorIn(img: seq<byte>, g: Geometry, sector: nat, data: seq<byte>, w: Write)
    requires |data| == SectorSize && w == SectorWrite(g, sector, data)
    requires w.End() <= |img| && img[w.offset..w.End()] == data
    ensures (g.firstSector + sector + 1) * SectorSize <= |img|
    ensures SectorAt(img, g, sector) == data
  {
    assert w.End() == (g.firstSector + sector + 1) * SectorSize;
  }

  /**
   * In any image holding the boot region writes, sectors 0 and 6 of the
   * partition decode to the formatter's boot sector and sector 1 is the
   * FSInfo sector.
   */
  lemma BootRegionIn(img: seq<byte>, g: Geometry, volumeId: u32)
    requires ValidGeometry(g) && g.totalSectors < TwoTo32 && Holds(img, BootRegionWrites(g, volumeId))
    ensures (g.firstSector + BackupBootSectorNumber + 1) * SectorSize <= |img|
    ensures DecodeBootSector(SectorAt(img, g, 0)) == FormatterBootSector(g, volumeId)
    ensures SectorAt(img, g, FsInfoSectorNumber) == FsInfoSector()
    ensures DecodeBootSector(SectorAt(img, g, BackupBootSectorNumber)) == FormatterBootSector(g, volumeId)
  {
    var a := BootRegionWrites(g, volumeId);
    var boot := EncodeBootSector(FormatterBootSector(g, volumeId));
    SectorIn(img, g, 0, boot, a[0]);
    SectorIn(img, g, FsInfoSectorNumber, FsInfoSector(), a[1]);
    SectorIn(img, g, BackupBootSectorNumber, boot, a[2]);
    BootSectorRoundTrip(FormatterBootSector(g, volumeId));
  }

  /**
   * Sectors 0 and 6 of the formatted partition both decode to the
   * formatter's boot sector, and sector 1 is the FSInfo sector.
   */
  lemma BootRegionWritten(s: seq<byte>, g: Geometry, kernel: seq<byte>, volumeId: u32)
    requires Formattable(g, kernel) && AllFit(|s|, EfiWrites(g, kernel, volumeId))
    ensures var img := Formatted(s, g, kernel, volumeId);
            && (g.firstSector + BackupBootSectorNumber + 1) * SectorSize <= |img|
            && DecodeBootSector(SectorAt(img, g, 0)) == FormatterBootSector(g, volumeId)
            && SectorAt(img, g, FsInfoSectorNumber) == FsInfoSector()
            && DecodeBootSector(SectorAt(img, g, BackupBootSectorNumber)) == FormatterBootSector(g, volumeId)
  {
    GroupWritten(s, g, kernel, volumeId, 0);
    BootRegionIn(Formatted(s, g, kernel, volumeId), g, volumeId);
  }

  /** FAT copy `copy` (0 or 1), taken from `img`. */
  ghost function FatCopyAt(img: seq<byte>, g: Geometry, copy: nat): (r: seq<byte>)
    requires FatOffset(g, copy) + g.sectorsPerFat * SectorSize <= |img|
    ensures |r| == g.sectorsPerFat * SectorSize == 4 * g.FatEntries()
    ensures |r| % 4 == 0
  {
    img[FatOffset(g, copy)..FatOffset(g, copy) + g.sectorsPerFat * SectorSize]
  }

  /** The formatter's FAT bytes decode to its table. */
  lemma FatImageDecodes(g: Geometry, kernelClusters: nat)
    requires g.FatEntries() < TwoTo32
    ensures |FatImage(g, kernelClusters)| % 4 == 0
    ensures DecodeFat(FatImage(g, kernelClusters)) == FatTable(g.FatEntries(), kernelClusters)
  {
    DecodeFatBytes(FatTable(g.FatEntries(), kernelClusters));
  }

  /** In any image holding the FAT writes, both FAT copies are the formatter's FAT bytes. */
  lemma FatCopiesIn(img: seq<byte>, g: Geometry, kernelClusters: nat)
    requires g.FatEntries() < TwoTo32 && Holds(img, FatCopyWrites(g, kernelClusters))
    ensures FatOffset(g, 1) + g.sectorsPerFat * SectorSize <= |img|
    ensures FatCopyAt(img, g, 0) == FatImage(g, kernelClusters)
    ensures FatCopyAt(img, g, 1) == FatImage(g, kernelClusters)
  {
    var b := FatCopyWrites(g, kernelClusters);
    FatCopyLayout(g, kernelClusters);
    assert b[0].End() <= |img| && img[b[0].offset..b[0].End()] == b[0].data;
    assert b[1].End() <= |img| && img[b[1].offset..b[1].End()] == b[1].data;
  }

  /**
   * Both FAT copies of the formatted partition are the formatter's FAT bytes,
   * which decode to its table (`FatImageDecodes`).
   */
  lemma FatCopiesWritten(s: seq<byte>, g: Geometry, kernel: seq<byte>, volumeId: u32)
    requires Formattable(g, kernel) && AllFit(|s|, EfiWrites(g, kernel, volumeId))
    ensures var img, kc := Formatted(s, g, kernel, volumeId), KernelClusters(|kernel|, g.BytesPerCluster());
            && FatOffset(g, 1) + g.sectorsPerFat * SectorSize <= |img|
            && FatCopyAt(img, g, 0) == FatImage(g, kc)
            && FatCopyAt(img, g, 1) == FatImage(g, kc)
  {
    var kc := KernelClusters(|kernel|, g.BytesPerCluster());
    GroupWritten(s, g, kernel, volumeId, 1);
    FatCopiesIn(Formatted(s, g, kernel, volumeId), g, kc);
  }

  /** Record `index` of the directory in `cluster`, taken from `img`. */
  ghost function RecordAt(img: seq<byte>, g: Geometry, cluster: nat, index: nat): DirEntry
    requires cluster >= 2 && RecordOffset(g, cluster, index) + DirEntrySize <= |img|
  {
    DecodeDirEntry(img[RecordOffset(g, cluster, index)..RecordOffset(g, cluster, index) + DirEntrySize])
  }

  /** An image holding a record's write decodes, at that record's place, to the record. */
  lemma RecordIn(img: seq<byte>, g: Geometry, cluster: nat, index: nat, e: DirEntry)
    requires cluster >= 2 && WellFormedDirEntry(e)
    requires var w := RecordWrite(g, cluster, index, e); w.End() <= |img| && img[w.offset..w.End()] == w.data
    ensures RecordOffset(g, cluster, index) + DirEntrySize <= |img|
    ensures RecordAt(img, g, cluster, index) == e
  {
    DirEntryRoundTrip(e);
  }

  /** In any image holding a directory's three records, they decode to the records written. */
  lemma RecordsIn(img: seq<byte>, g: Geometry, cluster: nat, ws: seq<Write>, e0: DirEntry, e1: DirEntry, e2: DirEntry)
    requires cluster >= 2 && WellFormedDirEntry(e0) && WellFormedDirEntry(e1) && WellFormedDirEntry(e2)
    requires ws == [RecordWrite(g, cluster, 0, e0), RecordWrite(g, cluster, 1, e1), RecordWrite(g, cluster, 2, e2)]
    requires Holds(img, ws)
    ensures RecordOffset(g, cluster, 2) + DirEntrySize <= |img|
    ensures RecordAt(img, g, cluster, 0) == e0
    ensures RecordAt(img, g, cluster, 1) == e1
    ensures RecordAt(img, g, cluster, 2) == e2
  {
    assert ws[0].End() <= |img| && img[ws[0].offset..ws[0].End()] == ws[0].data;
    assert ws[1].End() <= |img| && img[ws[1].offset..ws[1].End()] == ws[1].data;
    assert ws[2].End() <= |img| && img[ws[2].offset..ws[2].End()] == ws[2].data;
    RecordIn(img, g, cluster, 0, e0);
    RecordIn(img, g, cluster, 1, e1);
    RecordIn(img, g, cluster, 2, e2);
  }

  /** In any image holding the root directory's write, its record decodes to the `EFI` record. */
  lemma RootDirIn(img: seq<byte>, g: Geometry)
    requires Holds(img, RootDirWrites(g))
    ensures RecordOffset(g, RootDirCluster, 0) + DirEntrySize <= |img|
    ensures RecordAt(img, g, RootDirCluster, 0) == DirectoryRecord(EfiName, EfiDirCluster as u32)
  {
    var e := DirectoryRecord(EfiName, EfiDirCluster as u32);
    var w := RootDirWrites(g)[0];
    assert w == RecordWrite(g, RootDirCluster, 0, e);
    assert w.End() <= |img| && img[w.offset..w.End()] == w.data;
    RecordIn(img, g, RootDirCluster, 0, e);
  }

  /** The root directory of the formatted partition holds `EFI`, starting at cluster 3. */
  lemma RootDirWritten(s: seq<byte>, g: Geometry, kernel: seq<byte>, volumeId: u32)
    requires Formattable(g, kernel) && AllFit(|s|, EfiWrites(g, kernel, volumeId))
    ensures var img := Formatted(s, g, kernel, volumeId);
            && RecordOffset(g, RootDirCluster, 0) + DirEntrySize <= |img|
            && RecordAt(img, g, RootDirCluster, 0) == DirectoryRecord(EfiName, EfiDirCluster as u32)
  {
    GroupWritten(s, g, kernel, volumeId, 2);
    RootDirIn(Formatted(s, g, kernel, volumeId), g);
  }

  /** The `EFI` directory holds `.` (cluster 3), `..` (0, the root) and `BOOT` (cluster 4). */
  lemma EfiDirWritten(s: seq<byte>, g: Geometry, kernel: seq<byte>, volumeId: u32)
    requires Formattable(g, kernel) && AllFit(|s|, EfiWrites(g, kernel, volumeId))
    ensures var img := Formatted(s, g, kernel, volumeId);
            && RecordOffset(g, EfiDirCluster, 2) + DirEntrySize <= |img|
            && RecordAt(img, g, EfiDirCluster, 0) == DirectoryRecord(SelfName, EfiDirCluster as u32)
            && RecordAt(img, g, EfiDirCluster, 1) == DirectoryRecord(ParentName, 0)
            && RecordAt(img, g, EfiDirCluster, 2) == DirectoryRecord(BootName, BootDirCluster as u32)
  {
    GroupWritten(s, g, kernel, volumeId, 3);
    RecordsIn(Formatted(s, g, kernel, volumeId), g, EfiDirCluster, EfiDirWrites(g),
              DirectoryRecord(SelfName, EfiDirCluster as u32), DirectoryRecord(ParentName, 0),
              DirectoryRecord(BootName, BootDirCluster as u32));
  }

  /**
   * The `BOOT` directory holds `.` (cluster 4), `..` (cluster 3) and the file
   * `BOOTX64.EFI` of the kernel's size, starting at cluster 5.
   */
  lemma BootDirWritten(s: seq<byte>, g: Geometry, kernel: seq<byte>, volumeId: u32)
    requires Formattable(g, kernel) && AllFit(|s|, EfiWrites(g, kernel, volumeId))
    ensures var img := Formatted(s, g, kernel, volumeId);
            && RecordOffset(g, BootDirCluster, 2) + DirEntrySize <= |img|
            && RecordAt(img, g, BootDirCluster, 0) == DirectoryRecord(SelfName, BootDirCluster as u32)
            && RecordAt(img, g, BootDirCluster, 1) == DirectoryRecord(ParentName, EfiDirCluster as u32)
            && RecordAt(img, g, BootDirCluster, 2)
               == FileRecord(KernelName, KernelExt, KernelCluster as u32, |kernel| as u32)
  {
    GroupWritten(s, g, kernel, volumeId, 4);
    RecordsIn(Formatted(s, g, kernel, volumeId), g, BootDirCluster, BootDirWrites(g, |kernel|),
              DirectoryRecord(SelfName, BootDirCluster as u32), DirectoryRecord(ParentName, EfiDirCluster as u32),
              FileRecord(KernelName, KernelExt, KernelCluster as u32, |kernel| as u32));
  }

  /** The kernel's bytes start at cluster 5 of the formatted partition. */
  lemma KernelWritten(s: seq<byte>, g: Geometry, kernel: seq<byte>, volumeId: u32)
    requires Formattable(g, kernel) && AllFit(|s|, EfiWrites(g, kernel, volumeId))
    ensures var img := Formatted(s, g, kernel, volumeId);
            && ClusterOffset(g, KernelCluster) + |kernel| <= |img|
            && img[ClusterOffset(g, KernelCluster)..ClusterOffset(g, KernelCluster) + |kernel|] == kernel
  {
    var f := [KernelWrite(g, kernel)];
    GroupWritten(s, g, kernel, volumeId, 5);
    assert f[0].End() <= |Formatted(s, g, kernel, volumeId)|;
  }
}
