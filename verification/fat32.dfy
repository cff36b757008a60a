/**
 * The FAT32 formatter: it lays out an EFI system partition holding
 * `/EFI/BOOT/BOOTX64.EFI` inside an image, writing the boot sector and its
 * backup, the FSInfo sector, two copies of the FAT, the three directories
 * and the kernel.
 */
module Fat32 {
  import opened Bytes
  import opened Wrappers
  import opened ImageSink
  import opened Fat32Geometry
  import opened Fat32Records
  import opened Fat32Table

  /** Size of one directory record. */
  const DirEntrySize: nat := 32

  /** The names in the directory tree, as the bytes of their C string literals. */
  const EfiName: seq<byte> := Ascii("EFI")
  const BootName: seq<byte> := Ascii("BOOT")
  const KernelName: seq<byte> := Ascii("BOOTX64")
  const KernelExt: seq<byte> := Ascii("EFI")
  const SelfName: seq<byte> := Ascii(".")
  const ParentName: seq<byte> := Ascii("..")

  /** `data`, a whole number of sectors, at sector `sector` of the partition. */
  function SectorWrite(g: Geometry, sector: nat, data: seq<byte>): Write
  {
    Write((g.firstSector + sector) * SectorSize, data)
  }

  /** Byte offset of record `index` of the directory held in `cluster`. */
  function RecordOffset(g: Geometry, cluster: nat, index: nat): nat
    requires cluster >= 2
  {
    ClusterOffset(g, cluster) + DirEntrySize * index
  }

  /** Record `e` as record `index` of the directory held in `cluster`. */
  function RecordWrite(g: Geometry, cluster: nat, index: nat, e: DirEntry): Write
    requires cluster >= 2 && WellFormedDirEntry(e)
  {
    Write(RecordOffset(g, cluster, index), EncodeDirEntry(e))
  }

  /** The record of subdirectory `name`, as record `index` of the directory in `cluster`. */
  function DirectoryWrite(g: Geometry, cluster: nat, index: nat, name: seq<byte>, firstCluster: u32): Write
    requires cluster >= 2
  {
    RecordWrite(g, cluster, index, DirectoryRecord(name, firstCluster))
  }

  /** The record of file `name`.`ext`, as record `index` of the directory in `cluster`. */
  function FileWrite(g: Geometry, cluster: nat, index: nat, name: seq<byte>, ext: seq<byte>,
                     firstCluster: u32, size: u32): Write
    requires cluster >= 2
  {
    RecordWrite(g, cluster, index, FileRecord(name, ext, firstCluster, size))
  }

  /**
   * `fat32_write_sectors`: writes the `numSectors` sectors of `data` at sector
   * `sector` of the partition; it fails, leaving the image as it was, when
   * they do not fit.
   */
  method WriteSectors(image: array<byte>, g: Geometry, sector: nat, numSectors: nat, data: seq<byte>)
    returns (ok: bool)
    requires |data| == numSectors * SectorSize
    modifies image
    ensures ok == ((g.firstSector + sector + numSectors) * SectorSize <= image.Length)
    ensures image[..] == if ok then Splice(old(image[..]), SectorWrite(g, sector, data)) else old(image[..])
  {
    ok := PWrite(image, SectorWrite(g, sector, data));
  }

  /**
   * `copyname`: copies the first `min(strlen(src), maxlen)` bytes of `src` to
   * `dst[at..]`, without a terminator; the rest of the field keeps its bytes.
   */
  method CopyName(dst: array<byte>, at: nat, src: seq<byte>, maxlen: nat)
    requires at + maxlen <= dst.Length
    modifies dst
    ensures dst[..] == Splice(old(dst[..]), Write(at, src[..Min(Strlen(src), maxlen)]))
  {
    var len := Strlen(src);
    if len > maxlen {
      len := maxlen;
    }
    forall i | 0 <= i < len {
      dst[at + i] := src[i];
    }
    assert dst[..] == Splice(old(dst[..]), Write(at, src[..len]));
  }

  /** Copying a name over the blank name field of a record gives the record with the padded name. */
  lemma NameIntoRecord(e: DirEntry, name: seq<byte>)
    requires WellFormedDirEntry(e) && e.name == Spaces(8)
    ensures Splice(EncodeDirEntry(e), Write(0, name[..Min(Strlen(name), 8)]))
            == EncodeDirEntry(e.(name := PaddedName(name, 8)))
  {
    var a := Splice(EncodeDirEntry(e), Write(0, name[..Min(Strlen(name), 8)]));
    var b := EncodeDirEntry(e.(name := PaddedName(name, 8)));
    forall i | 0 <= i < 8
      ensures a[i] == b[i]
    {
      assert b[i] == b[0..8][i];
      if i >= Min(Strlen(name), 8) {
        assert a[i] == EncodeDirEntry(e)[0..8][i];
      }
    }
    assert a == b;
  }

  /** Copying an extension over the blank extension field gives the record with the padded extension. */
  lemma ExtIntoRecord(e: DirEntry, ext: seq<byte>)
    requires WellFormedDirEntry(e) && e.ext == Spaces(3)
    ensures Splice(EncodeDirEntry(e), Write(8, ext[..Min(Strlen(ext), 3)]))
            == EncodeDirEntry(e.(ext := PaddedName(ext, 3)))
  {
    var a := Splice(EncodeDirEntry(e), Write(8, ext[..Min(Strlen(ext), 3)]));
    var b := EncodeDirEntry(e.(ext := PaddedName(ext, 3)));
    forall i | 8 <= i < 11
      ensures a[i] == b[i]
    {
      assert b[i] == b[8..11][i - 8];
      if i - 8 >= Min(Strlen(ext), 3) {
        assert a[i] == EncodeDirEntry(e)[8..11][i - 8];
      }
    }
    assert a == b;
  }

  /**
   * `fat32_write_dir_entry_dir`: writes, as record `index` of the directory
   * in `cluster`, the record of subdirectory `name` starting at `firstCluster`.
   */
  method WriteDirectoryRecord(image: array<byte>, g: Geometry, cluster: nat, index: nat,
                              name: seq<byte>, firstCluster: u32) returns (ok: bool)
    requires cluster >= 2
    modifies image
    ensures var w := DirectoryWrite(g, cluster, index, name, firstCluster);
            && ok == (w.End() <= image.Length)
            && image[..] == if ok then Splice(old(image[..]), w) else old(image[..])
  {
    var template := RecordTemplate(AttrDirectory, firstCluster, 0);
    var bytes := EncodeDirEntry(template);
    var entry := new byte[DirEntrySize](i requires 0 <= i < DirEntrySize => bytes[i]);
    assert entry[..] == bytes;
    CopyName(entry, 0, name, 8);
    NameIntoRecord(template, name);
    ok := PWrite(image, Write(RecordOffset(g, cluster, index), entry[..]));
  }

  /**
   * `fat32_write_dir_entry_file`: writes, as record `index` of the directory
   * in `cluster`, the record of file `name`.`ext` of `size` bytes starting at
   * `firstCluster`.
   */
  method WriteFileRecord(image: array<byte>, g: Geometry, cluster: nat, index: nat,
                         name: seq<byte>, ext: seq<byte>, firstCluster: u32, size: u32) returns (ok: bool)
    requires cluster >= 2
    modifies image
    ensures var w := FileWrite(g, cluster, index, name, ext, firstCluster, size);
            && ok == (w.End() <= image.Length)
            && image[..] == if ok then Splice(old(image[..]), w) else old(image[..])
  {
    var template := RecordTemplate(0, firstCluster, size);
    var bytes := EncodeDirEntry(template);
    var entry := new byte[DirEntrySize](i requires 0 <= i < DirEntrySize => bytes[i]);
    assert entry[..] == bytes;
    CopyName(entry, 0, name, 8);
    NameIntoRecord(template, name);
    CopyName(entry, 8, ext, 3);
    ExtIntoRecord(template.(name := PaddedName(name, 8)), ext);
    ok := PWrite(image, Write(RecordOffset(g, cluster, index), entry[..]));
  }

  /**
   * The layout the formatter relies on for a partition of at most 2^32 bytes
   * ending within the first 4 GiB of the image: the FAT has fewer entries
   * than there are valid cluster numbers, every offset it computes fits in 32
   * bits, and the reserved sectors, both FATs and the three directory
   * clusters come before the end of the partition.
   */
  lemma LayoutBounds(firstSector: nat, numSectors: nat)
    requires (firstSector + numSectors) * SectorSize <= TwoTo32
    requires ComputeGeometry(firstSector, numSectors, SectorsPerCluster).Success?
    ensures var g := ComputeGeometry(firstSector, numSectors, SectorsPerCluster).value;
            && g.totalSectors < TwoTo32
            && g.FatEntries() <= ClusterLimit
            && ClusterOffset(g, KernelCluster) < (g.firstSector + g.totalSectors) * SectorSize <= TwoTo32
  {
    var g := ComputeGeometry(firstSector, numSectors, SectorsPerCluster).value;
    assert (g.sectorsPerFat - 2) * 128 < g.numClusters;
    assert g.numClusters * 2 <= numSectors;
  }

  /**
   * The precondition the formatter needs of the kernel and does not check:
   * once the size and geometry checks pass, the kernel is not empty (an empty
   * one makes the chain loop bound `kernel_clusters - 1` wrap around) and its
   * chain, ending at entry `4 + kernel_clusters`, lies within the FAT buffer.
   */
  ghost predicate KernelFitsFat(firstSector: nat, numSectors: nat, kernelSize: nat)
  {
    var geometry := ComputeGeometry(firstSector, numSectors, SectorsPerCluster);
    kernelSize <= MaxKernelSize && geometry.Success? ==>
      var kc := KernelClusters(kernelSize, geometry.value.BytesPerCluster());
      1 <= kc && KernelCluster + kc <= geometry.value.FatEntries()
  }

  /** The boot sector at sector 0, FSInfo at sector 1 and the backup boot sector at sector 6. */
  function BootRegionWrites(g: Geometry, volumeId: u32): (ws: seq<Write>)
    requires ValidGeometry(g) && g.totalSectors < TwoTo32
  {
    var boot := EncodeBootSector(FormatterBootSector(g, volumeId));
    [ SectorWrite(g, 0, boot),
      SectorWrite(g, FsInfoSectorNumber, FsInfoSector()),
      SectorWrite(g, BackupBootSectorNumber, boot) ]
  }

  /** The serialised FAT of a kernel of `kernelClusters` clusters. */
  function FatImage(g: Geometry, kernelClusters: nat): (r: seq<byte>)
    requires g.FatEntries() < TwoTo32
    ensures |r| == g.sectorsPerFat * SectorSize
  {
    FatBytes(FatTable(g.FatEntries(), kernelClusters))
  }

  /** The same table as both FAT copies, one right after the other behind the reserved sectors. */
  function FatCopyWrites(g: Geometry, kernelClusters: nat): (ws: seq<Write>)
    requires g.FatEntries() < TwoTo32
  {
    var fat := FatImage(g, kernelClusters);
    [ SectorWrite(g, ReservedSectors, fat),
      SectorWrite(g, ReservedSectors + g.sectorsPerFat, fat) ]
  }

  /** The root directory (cluster 2): `EFI`, starting at cluster 3. */
  function RootDirWrites(g: Geometry): (ws: seq<Write>)
  {
    [ DirectoryWrite(g, RootDirCluster, 0, EfiName, EfiDirCluster as u32) ]
  }

  /** The `EFI` directory (cluster 3): `.` (itself), `..` (the root, recorded as 0) and `BOOT`. */
  function EfiDirWrites(g: Geometry): (ws: seq<Write>)
  {
    [ DirectoryWrite(g, EfiDirCluster, 0, SelfName, EfiDirCluster as u32),
      DirectoryWrite(g, EfiDirCluster, 1, ParentName, 0),
      DirectoryWrite(g, EfiDirCluster, 2, BootName, BootDirCluster as u32) ]
  }

  /** The `BOOT` directory (cluster 4): `.`, `..` (`EFI`) and the kernel file `BOOTX64.EFI`. */
  function BootDirWrites(g: Geometry, kernelSize: u32): (ws: seq<Write>)
  {
    [ DirectoryWrite(g, BootDirCluster, 0, SelfName, BootDirCluster as u32),
      DirectoryWrite(g, BootDirCluster, 1, ParentName, EfiDirCluster as u32),
      FileWrite(g, BootDirCluster, 2, KernelName, KernelExt, KernelCluster as u32, kernelSize) ]
  }

  /** The kernel's bytes from the start of cluster 5 on. */
  function KernelWrite(g: Geometry, kernel: seq<byte>): Write
  {
    Write(ClusterOffset(g, KernelCluster), kernel)
  }

  /** Everything the formatter writes, in the order it writes it. */
  function EfiWrites(g: Geometry, kernel: seq<byte>, volumeId: u32): (ws: seq<Write>)
    requires ValidGeometry(g) && g.totalSectors < TwoTo32 && g.FatEntries() < TwoTo32
    requires |kernel| <= MaxKernelSize
  {
    BootRegionWrites(g, volumeId)
    + FatCopyWrites(g, KernelClusters(|kernel|, g.BytesPerCluster()))
    + RootDirWrites(g) + EfiDirWrites(g) + BootDirWrites(g, |kernel|)
    + [KernelWrite(g, kernel)]
  }

  /** The formatter's boot-region writes: the boot sector, FSInfo and the backup boot sector. */
  method WriteBootRegion(image: array<byte>, g: Geometry, volumeId: u32) returns (ok: bool)
    requires ValidGeometry(g) && g.totalSectors < TwoTo32
    modifies image
    ensures ok == AllFit(image.Length, BootRegionWrites(g, volumeId))
    ensures ok ==> image[..] == ApplyWrites(old(image[..]), BootRegionWrites(g, volumeId))
    ensures !ok ==> Stopped(old(image[..]), BootRegionWrites(g, volumeId), image[..])
  {
    var boot := EncodeBootSector(FormatterBootSector(g, volumeId));
    ApplyThree(image[..], SectorWrite(g, 0, boot), SectorWrite(g, FsInfoSectorNumber, FsInfoSector()),
               SectorWrite(g, BackupBootSectorNumber, boot));
    StopThree(image[..], SectorWrite(g, 0, boot), SectorWrite(g, FsInfoSectorNumber, FsInfoSector()),
              SectorWrite(g, BackupBootSectorNumber, boot));
    ok := WriteSectors(image, g, 0, 1, boot);
    if !ok { return; }
    ok := WriteSectors(image, g, FsInfoSectorNumber, 1, FsInfoSector());
    if !ok { return; }
    ok := WriteSectors(image, g, BackupBootSectorNumber, 1, boot);
  }

  /** The formatter's FAT writes: the FAT is built and written as both copies. */
  method WriteFatCopies(image: array<byte>, g: Geometry, kernelClusters: nat) returns (ok: bool)
    requires 1 <= kernelClusters && KernelCluster + kernelClusters <= g.FatEntries() < TwoTo32
    modifies image
    ensures ok == AllFit(image.Length, FatCopyWrites(g, kernelClusters))
    ensures ok ==> image[..] == ApplyWrites(old(image[..]), FatCopyWrites(g, kernelClusters))
    ensures !ok ==> Stopped(old(image[..]), FatCopyWrites(g, kernelClusters), image[..])
  {
    var fat := BuildFat(g.sectorsPerFat, kernelClusters);
    ApplyTwo(image[..], SectorWrite(g, ReservedSectors, FatBytes(fat)),
             SectorWrite(g, ReservedSectors + g.sectorsPerFat, FatBytes(fat)));
    StopTwo(image[..], SectorWrite(g, ReservedSectors, FatBytes(fat)),
            SectorWrite(g, ReservedSectors + g.sectorsPerFat, FatBytes(fat)));
    ok := WriteSectors(image, g, ReservedSectors, g.sectorsPerFat, FatBytes(fat));
    if !ok { return; }
    ok := WriteSectors(image, g, ReservedSectors + g.sectorsPerFat, g.sectorsPerFat, FatBytes(fat));
  }

  /** The formatter's root-directory write: the `EFI` record. */
  method WriteRootDir(image: array<byte>, g: Geometry) returns (ok: bool)
    modifies image
    ensures ok == AllFit(image.Length, RootDirWrites(g))
    ensures ok ==> image[..] == ApplyWrites(old(image[..]), RootDirWrites(g))
    ensures !ok ==> Stopped(old(image[..]), RootDirWrites(g), image[..])
  {
    ApplyOne(image[..], DirectoryWrite(g, RootDirCluster, 0, EfiName, EfiDirCluster as u32));
    StopOne(image[..], DirectoryWrite(g, RootDirCluster, 0, EfiName, EfiDirCluster as u32));
    ok := WriteDirectoryRecord(image, g, RootDirCluster, 0, EfiName, EfiDirCluster as u32);
  }

  /** The formatter's writes of the `EFI` directory. */
  method WriteEfiDir(image: array<byte>, g: Geometry) returns (ok: bool)
    modifies image
    ensures ok == AllFit(image.Length, EfiDirWrites(g))
    ensures ok ==> image[..] == ApplyWrites(old(image[..]), EfiDirWrites(g))
    ensures !ok ==> Stopped(old(image[..]), EfiDirWrites(g), image[..])
  {
    ApplyThree(image[..], DirectoryWrite(g, EfiDirCluster, 0, SelfName, EfiDirCluster as u32),
               DirectoryWrite(g, EfiDirCluster, 1, ParentName, 0),
               DirectoryWrite(g, EfiDirCluster, 2, BootName, BootDirCluster as u32));
    StopThree(image[..], DirectoryWrite(g, EfiDirCluster, 0, SelfName, EfiDirCluster as u32),
              DirectoryWrite(g, EfiDirCluster, 1, ParentName, 0),
              DirectoryWrite(g, EfiDirCluster, 2, BootName, BootDirCluster as u32));
    ok := WriteDirectoryRecord(image, g, EfiDirCluster, 0, SelfName, EfiDirCluster as u32);
    if !ok { return; }
    ok := WriteDirectoryRecord(image, g, EfiDirCluster, 1, ParentName, 0);
    if !ok { return; }
    ok := WriteDirectoryRecord(image, g, EfiDirCluster, 2, BootName, BootDirCluster as u32);
  }

  /** The formatter's writes of the `BOOT` directory. */
  method WriteBootDir(image: array<byte>, g: Geometry, kernelSize: u32) returns (ok: bool)
    modifies image
    ensures ok == AllFit(image.Length, BootDirWrites(g, kernelSize))
    ensures ok ==> image[..] == ApplyWrites(old(image[..]), BootDirWrites(g, kernelSize))
    ensures !ok ==> Stopped(old(image[..]), BootDirWrites(g, kernelSize), image[..])
  {
    ApplyThree(image[..], DirectoryWrite(g, BootDirCluster, 0, SelfName, BootDirCluster as u32),
               DirectoryWrite(g, BootDirCluster, 1, ParentName, EfiDirCluster as u32),
               FileWrite(g, BootDirCluster, 2, KernelName, KernelExt, KernelCluster as u32, kernelSize));
    StopThree(image[..], DirectoryWrite(g, BootDirCluster, 0, SelfName, BootDirCluster as u32),
              DirectoryWrite(g, BootDirCluster, 1, ParentName, EfiDirCluster as u32),
              FileWrite(g, BootDirCluster, 2, KernelName, KernelExt, KernelCluster as u32, kernelSize));
    ok := WriteDirectoryRecord(image, g, BootDirCluster, 0, SelfName, BootDirCluster as u32);
    if !ok { return; }
    ok := WriteDirectoryRecord(image, g, BootDirCluster, 1, ParentName, EfiDirCluster as u32);
    if !ok { return; }
    ok := WriteFileRecord(image, g, BootDirCluster, 2, KernelName, KernelExt, KernelCluster as u32, kernelSize);
  }

  /**
   * Every write of the formatter in order, stopping at the
   * first that does not fit, with every earlier write made.
   */
  method WriteAll(image: array<byte>, g: Geometry, kernel: seq<byte>, volumeId: u32) returns (ok: bool)
    requires ValidGeometry(g) && g.totalSectors < TwoTo32 && g.FatEntries() < TwoTo32
    requires |kernel| <= MaxKernelSize
    requires var kc := KernelClusters(|kernel|, g.BytesPerCluster()); 1 <= kc && KernelCluster + kc <= g.FatEntries()
    modifies image
    ensures ok == AllFit(image.Length, EfiWrites(g, kernel, volumeId))
    ensures ok ==> image[..] == ApplyWrites(old(image[..]), EfiWrites(g, kernel, volumeId))
    ensures !ok ==> Stopped(old(image[..]), EfiWrites(g, kernel, volumeId), image[..])
  {
    var kernelClusters := KernelClusters(|kernel|, g.BytesPerCluster());
    ghost var s := image[..];
    ghost var a, b, c, d, e, f := BootRegionWrites(g, volumeId), FatCopyWrites(g, kernelClusters), RootDirWrites(g),
                                  EfiDirWrites(g), BootDirWrites(g, |kernel|), [KernelWrite(g, kernel)];
    ApplyGroups(s, a, b, c, d, e, f);
    ok := WriteBootRegion(image, g, volumeId);
    if !ok {
      StoppedConcat(s, a, b, image[..]);
      StoppedTail(s, a + b, c, d, e, f, image[..]);
      return;
    }
    ok := WriteFatCopies(image, g, kernelClusters);
    if !ok {
      StoppedAfter(s, a, b, image[..]);
      StoppedTail(s, a + b, c, d, e, f, image[..]);
      return;
    }
    ApplyConcat(s, a, b);
    ok := WriteRootDir(image, g);
    if !ok {
      StoppedAfter(s, a + b, c, image[..]);
      StoppedConcat(s, a + b + c, d, image[..]);
      StoppedConcat(s, a + b + c + d, e, image[..]);
      StoppedConcat(s, a + b + c + d + e, f, image[..]);
      return;
    }
    ApplyConcat(s, a + b, c);
    ok := WriteEfiDir(image, g);
    if !ok {
      StoppedAfter(s, a + b + c, d, image[..]);
      StoppedConcat(s, a + b + c + d, e, image[..]);
      StoppedConcat(s, a + b + c + d + e, f, image[..]);
      return;
    }
    ApplyConcat(s, a + b + c, d);
    ok := WriteBootDir(image, g, |kernel|);
    if !ok {
      StoppedAfter(s, a + b + c + d, e, image[..]);
      StoppedConcat(s, a + b + c + d + e, f, image[..]);
      return;
    }
    ApplyConcat(s, a + b + c + d, e);
    ApplyOne(image[..], KernelWrite(g, kernel));
    StopOne(image[..], KernelWrite(g, kernel));
    ok := PWrite(image, KernelWrite(g, kernel));
    if !ok {
      StoppedAfter(s, a + b + c + d + e, f, image[..]);
    }
  }

  /**
   * `fat32_make_efi`: formats the partition of `numSectors` sectors at sector
   * `firstSector` of the image and stores `kernel` as `/EFI/BOOT/BOOTX64.EFI`.
   * A kernel of more than 0xFFFFFFFF bytes, fewer than 65525 clusters or a
   * cluster over 32 KiB is refused before anything is written. Otherwise the
   * writes of `EfiWrites` are made in order, stopping at the first that does
   * not fit the image; the image then holds every write before it.
   */
  method MakeEfi(image: array<byte>, firstSector: u32, numSectors: u32, kernel: seq<byte>, volumeId: u32)
    returns (r: Outcome<FormatError>)
    requires (firstSector + numSectors) * SectorSize <= TwoTo32
    requires KernelFitsFat(firstSector, numSectors, |kernel|)
    modifies image
    ensures |kernel| > MaxKernelSize ==> r == Fail(KernelTooBig(|kernel|)) && image[..] == old(image[..])
    ensures var geometry := ComputeGeometry(firstSector, numSectors, SectorsPerCluster);
            |kernel| <= MaxKernelSize && geometry.Failure? ==>
              r == Fail(geometry.error) && image[..] == old(image[..])
    ensures var geometry := ComputeGeometry(firstSector, numSectors, SectorsPerCluster);
            |kernel| <= MaxKernelSize && geometry.Success? ==>
              var ws := EfiWrites(geometry.value, kernel, volumeId);
              && (r.Pass? <==> AllFit(image.Length, ws))
              && (r.Pass? ==> image[..] == ApplyWrites(old(image[..]), ws))
              && (r.Fail? ==> r.error == WriteFailed && Stopped(old(image[..]), ws, image[..]))
  {
    if |kernel| > MaxKernelSize {
      return Fail(KernelTooBig(|kernel|));
    }
    var geometry := ComputeGeometry(firstSector, numSectors, SectorsPerCluster);
    if geometry.Failure? {
      return Fail(geometry.error);
    }
    var g := geometry.value;
    LayoutBounds(firstSector, numSectors);
    var ok := WriteAll(image, g, kernel, volumeId);
    if !ok { return Fail(WriteFailed); }
    return Pass;
  }

  /**
   * Nothing compares the kernel with the room left in the partition: only
   * its chain must fit in the FAT, whose entries count the reserved sectors
   * and FATs as clusters too. A 131050-sector partition at sector 2048 takes
   * a kernel of 66560000 bytes, and the kernel's last byte lands past the
   * partition's end.
   */
  lemma KernelPastPartition()
    ensures KernelFitsFat(2048, 131050, 66560000)
    ensures ComputeGeometry(2048, 131050, SectorsPerCluster).Success?
    ensures var g := ComputeGeometry(2048, 131050, SectorsPerCluster).value;
            ClusterOffset(g, KernelCluster) + 66560000 > (g.firstSector + g.totalSectors) * SectorSize
  {
    var g := ComputeGeometry(2048, 131050, SectorsPerCluster).value;
    assert g.sectorsPerFat == AlignUp(512, 2) == 512;
    assert KernelClusters(66560000, g.BytesPerCluster()) == 65000;
  }
}
