/**
 * The fixed-layout FAT32 records the formatter writes: the boot sector with
 * its BIOS parameter block (section 3 of the Microsoft FAT32 File System
 * Specification), the FSInfo sector (section 5) and 32-byte short-name
 * directory records (section 6). Each record is serialised field by field,
 * little-endian, at the offsets those sections fix; a decoder reads the
 * fields back from the same offsets.
 */
module Fat32Records {
  import opened Bytes
  import opened Fat32Geometry

  /** The boot sector, field for field (`bpb_t`). */
  datatype BootSector = BootSector(
    jmpBoot: seq<byte>,          // 3 bytes at 0
    oemName: seq<byte>,          // 8 bytes at 3
    bytesPerSector: u16,         // 11
    sectorsPerCluster: byte,     // 13
    reservedSectors: u16,        // 14
    numFats: byte,               // 16
    rootEntryCount: u16,         // 17
    totalSectors16: u16,         // 19
    media: byte,                 // 21
    fatSize16: u16,              // 22
    sectorsPerTrack: u16,        // 24
    numHeads: u16,               // 26
    hiddenSectors: u32,          // 28
    totalSectors32: u32,         // 32
    fatSize32: u32,              // 36
    extFlags: u16,               // 40
    fsVersion: u16,              // 42
    rootCluster: u32,            // 44
    fsInfoSector: u16,           // 48
    backupBootSector: u16,       // 50
    reserved: seq<byte>,         // 12 bytes at 52
    driveNumber: byte,           // 64
    reserved1: byte,             // 65
    bootSignature: byte,         // 66
    volumeId: u32,               // 67
    volumeLabel: seq<byte>,      // 11 bytes at 71
    fsType: seq<byte>,           // 8 bytes at 82
    bootCode: seq<byte>,         // 420 bytes at 90
    signature: u16)              // 510

  ghost predicate WellFormedBootSector(b: BootSector)
  {
    |b.jmpBoot| == 3 && |b.oemName| == 8 && |b.reserved| == 12 && |b.volumeLabel| == 11
    && |b.fsType| == 8 && |b.bootCode| == 420
  }

  /** Bytes 0 to 35: the BIOS parameter block common to all FAT types. */
  function EncodeCommonBpb(b: BootSector): (r: seq<byte>)
    requires WellFormedBootSector(b)
    ensures |r| == 36
    ensures r[0..3] == b.jmpBoot && r[3..11] == b.oemName
    ensures r[11..13] == LE16(b.bytesPerSector) && r[13] == b.sectorsPerCluster
    ensures r[14..16] == LE16(b.reservedSectors) && r[16] == b.numFats
    ensures r[17..19] == LE16(b.rootEntryCount) && r[19..21] == LE16(b.totalSectors16)
    ensures r[21] == b.media && r[22..24] == LE16(b.fatSize16)
    ensures r[24..26] == LE16(b.sectorsPerTrack) && r[26..28] == LE16(b.numHeads)
    ensures r[28..32] == LE32(b.hiddenSectors) && r[32..36] == LE32(b.totalSectors32)
  {
    b.jmpBoot + b.oemName + LE16(b.bytesPerSector) + [b.sectorsPerCluster] + LE16(b.reservedSectors)
    + [b.numFats] + LE16(b.rootEntryCount) + LE16(b.totalSectors16) + [b.media] + LE16(b.fatSize16)
    + LE16(b.sectorsPerTrack) + LE16(b.numHeads) + LE32(b.hiddenSectors) + LE32(b.totalSectors32)
  }

  /** Bytes 36 to 89: the FAT32 extension of the parameter block. */
  function EncodeFat32Bpb(b: BootSector): (r: seq<byte>)
    requires WellFormedBootSector(b)
    ensures |r| == 54
    ensures r[0..4] == LE32(b.fatSize32) && r[4..6] == LE16(b.extFlags) && r[6..8] == LE16(b.fsVersion)
    ensures r[8..12] == LE32(b.rootCluster) && r[12..14] == LE16(b.fsInfoSector)
    ensures r[14..16] == LE16(b.backupBootSector) && r[16..28] == b.reserved
    ensures r[28] == b.driveNumber && r[29] == b.reserved1 && r[30] == b.bootSignature
    ensures r[31..35] == LE32(b.volumeId) && r[35..46] == b.volumeLabel && r[46..54] == b.fsType
  {
    LE32(b.fatSize32) + LE16(b.extFlags) + LE16(b.fsVersion) + LE32(b.rootCluster)
    + LE16(b.fsInfoSector) + LE16(b.backupBootSector) + b.reserved + [b.driveNumber] + [b.reserved1]
    + [b.bootSignature] + LE32(b.volumeId) + b.volumeLabel + b.fsType
  }

  /** The 512 bytes of the boot sector. */
  function EncodeBootSector(b: BootSector): (r: seq<byte>)
    requires WellFormedBootSector(b)
    ensures |r| == SectorSize
    ensures r[0..36] == EncodeCommonBpb(b) && r[36..90] == EncodeFat32Bpb(b)
    ensures r[90..510] == b.bootCode && r[510..512] == LE16(b.signature)
  {
    EncodeCommonBpb(b) + EncodeFat32Bpb(b) + b.bootCode + LE16(b.signature)
  }

  /** Reads every field back from its offset in a 512-byte sector. */
  function DecodeBootSector(s: seq<byte>): (b: BootSector)
    requires |s| == SectorSize
    ensures WellFormedBootSector(b)
  {
    BootSector(
      s[0..3], s[3..11], ReadLE16(s[11..13]), s[13], ReadLE16(s[14..16]), s[16], ReadLE16(s[17..19]),
      ReadLE16(s[19..21]), s[21], ReadLE16(s[22..24]), ReadLE16(s[24..26]), ReadLE16(s[26..28]),
      ReadLE32(s[28..32]), ReadLE32(s[32..36]), ReadLE32(s[36..40]), ReadLE16(s[40..42]),
      ReadLE16(s[42..44]), ReadLE32(s[44..48]), ReadLE16(s[48..50]), ReadLE16(s[50..52]), s[52..64],
      s[64], s[65], s[66], ReadLE32(s[67..71]), s[71..82], s[82..90], s[90..510], ReadLE16(s[510..512]))
  }

  /** Every field of a boot sector is read back from the offset it was written at. */
  lemma BootSectorRoundTrip(b: BootSector)
    requires WellFormedBootSector(b)
    ensures DecodeBootSector(EncodeBootSector(b)) == b
  {
    var s := EncodeBootSector(b);
    var c := EncodeCommonBpb(b);
    var e := EncodeFat32Bpb(b);
    forall i, j | 0 <= i <= j <= 36 ensures s[i..j] == c[i..j] {
      SliceOfSlice(s, 0, 36, i, j);
    }
    forall i, j | 36 <= i <= j <= 90 ensures s[i..j] == e[i - 36..j - 36] {
      SliceOfSlice(s, 36, 90, i, j);
    }
    assert s[13] == c[13] && s[16] == c[16] && s[21] == c[21];
    assert s[64] == e[28] && s[65] == e[29] && s[66] == e[30];
    LE16Value(b.bytesPerSector); LE16Value(b.reservedSectors); LE16Value(b.rootEntryCount);
    LE16Value(b.totalSectors16); LE16Value(b.fatSize16); LE16Value(b.sectorsPerTrack);
    LE16Value(b.numHeads); LE32Value(b.hiddenSectors); LE32Value(b.totalSectors32);
    LE32Value(b.fatSize32); LE16Value(b.extFlags); LE16Value(b.fsVersion); LE32Value(b.rootCluster);
    LE16Value(b.fsInfoSector); LE16Value(b.backupBootSector); LE32Value(b.volumeId);
    LE16Value(b.signature);
  }

  /** The boot sector the formatter builds for geometry `g` and volume serial `volumeId`. */
  function FormatterBootSector(g: Geometry, volumeId: u32): (b: BootSector)
    requires ValidGeometry(g) && g.totalSectors < TwoTo32
    ensures WellFormedBootSector(b)
  {
    BootSector(
      jmpBoot := [0xEB, 0xFE, 0x90],
      oemName := Ascii("EFIBOOT "),
      bytesPerSector := SectorSize,
      sectorsPerCluster := g.sectorsPerCluster,
      reservedSectors := ReservedSectors,
      numFats := FatCount,
      rootEntryCount := 0,
      totalSectors16 := 0,
      media := 0xF8,
      fatSize16 := 0,
      sectorsPerTrack := 63,
      numHeads := 64,
      hiddenSectors := 0,
      totalSectors32 := g.totalSectors,
      fatSize32 := g.sectorsPerFat,
      extFlags := 0,
      fsVersion := 0,
      rootCluster := RootCluster,
      fsInfoSector := FsInfoSectorNumber,
      backupBootSector := BackupBootSectorNumber,
      reserved := Zeros(12),
      driveNumber := 0x80,
      reserved1 := 0,
      bootSignature := 0x29,
      volumeId := volumeId,
      volumeLabel := Ascii("Volume 0   "),
      fsType := Ascii("FAT32   "),
      bootCode := Zeros(420),
      signature := 0xAA55)
  }

  /**
   * Reading the formatter's boot sector back yields a FAT32 parameter block
   * that describes `g`: 512-byte sectors, 32 reserved sectors, two FATs of
   * `g.sectorsPerFat` sectors, the root directory in cluster 2, FSInfo in
   * sector 1, the backup boot sector in sector 6, and signature 0xAA55.
   */
  lemma BootSectorDescribesGeometry(g: Geometry, volumeId: u32)
    requires ValidGeometry(g) && g.totalSectors < TwoTo32
    ensures var b := DecodeBootSector(EncodeBootSector(FormatterBootSector(g, volumeId)));
            && b.bytesPerSector == 512 && b.sectorsPerCluster == g.sectorsPerCluster
            && b.reservedSectors == 32 && b.numFats == 2 && b.rootEntryCount == 0
            && b.totalSectors16 == 0 && b.fatSize16 == 0
            && b.totalSectors32 == g.totalSectors && b.fatSize32 == g.sectorsPerFat
            && b.rootCluster == 2 && b.fsInfoSector == 1 && b.backupBootSector == 6
            && b.bootSignature == 0x29 && b.volumeId == volumeId && b.signature == 0xAA55
  {
    BootSectorRoundTrip(FormatterBootSector(g, volumeId));
  }

  /**
   * The FSInfo sector (`fs_info_t`): lead signature "RRaA", structure
   * signature "rrAa", free-cluster count and next-free hint both 0xFFFFFFFF
   * ("unknown"), trail signature 00 00 55 AA; every other byte is zero.
   */
  function FsInfoSector(): (r: seq<byte>)
    ensures |r| == SectorSize
    ensures r[0..4] == Ascii("RRaA") && r[484..488] == Ascii("rrAa")
    ensures FromLittleEndian(r[488..492]) == 0xFFFF_FFFF
    ensures FromLittleEndian(r[492..496]) == 0xFFFF_FFFF
    ensures r[508..512] == [0x00, 0x00, 0x55, 0xAA]
    ensures forall i :: 4 <= i < 484 || 496 <= i < 508 ==> r[i] == 0
  {
    var unknown := LE32(0xFFFF_FFFF);
    FromLittleEndianInverse(0xFFFF_FFFF, 4);
    SectorLayout(Ascii("RRaA"), Zeros(480), Ascii("rrAa"), unknown, unknown, Zeros(12), [0x00, 0x00, 0x55, 0xAA]);
    Ascii("RRaA") + Zeros(480) + Ascii("rrAa") + unknown + unknown + Zeros(12) + [0x00, 0x00, 0x55, 0xAA]
  }

  /** The offsets of the parts of an FSInfo sector, whatever their contents. */
  lemma SectorLayout(lead: seq<byte>, pad: seq<byte>, sig: seq<byte>, free: seq<byte>, next: seq<byte>,
                     pad2: seq<byte>, trail: seq<byte>)
    requires |lead| == 4 && |pad| == 480 && |sig| == 4 && |free| == 4 && |next| == 4 && |pad2| == 12 && |trail| == 4
    ensures var r := lead + pad + sig + free + next + pad2 + trail;
            && |r| == 512 && r[0..4] == lead && r[484..488] == sig && r[488..492] == free && r[492..496] == next
            && r[508..512] == trail
            && (forall i :: 4 <= i < 484 ==> r[i] == pad[i - 4])
            && (forall i :: 496 <= i < 508 ==> r[i] == pad2[i - 496])
  {
  }

  /** Attribute byte of a directory (`ATTR_DIRECTORY`); files carry 0. */
  const AttrDirectory: byte := 0x10

  /** A 32-byte short-name directory record (`dirent_t`). */
  datatype DirEntry = DirEntry(
    name: seq<byte>,           // 8 bytes at 0
    ext: seq<byte>,            // 3 bytes at 8
    attributes: byte,          // 11
    ntReserved: byte,          // 12
    createTimeTenths: byte,    // 13
    createTime: u16,           // 14
    createDate: u16,           // 16
    lastAccessDate: u16,       // 18
    firstClusterHi: u16,       // 20
    modifiedTime: u16,         // 22
    modifiedDate: u16,         // 24
    firstClusterLow: u16,      // 26
    size: u32)                 // 28
  {
    /** The cluster the record points at, reassembled from its two halves. */
    function FirstCluster(): nat { firstClusterHi * 0x1_0000 + firstClusterLow }
  }

  ghost predicate WellFormedDirEntry(e: DirEntry)
  {
    |e.name| == 8 && |e.ext| == 3
  }

  function EncodeDirEntry(e: DirEntry): (r: seq<byte>)
    requires WellFormedDirEntry(e)
    ensures |r| == 32
  {
    e.name + (e.ext + ([e.attributes, e.ntReserved, e.createTimeTenths] + LE16(e.createTime)
    + LE16(e.createDate) + LE16(e.lastAccessDate) + LE16(e.firstClusterHi) + LE16(e.modifiedTime)
    + LE16(e.modifiedDate) + LE16(e.firstClusterLow) + LE32(e.size)))
  }

  /** Where each field of a record sits in its 32 bytes. */
  lemma DirEntryFields(e: DirEntry)
    requires WellFormedDirEntry(e)
    ensures var r := EncodeDirEntry(e);
            && r[0..8] == e.name && r[8..11] == e.ext
            && r[11] == e.attributes && r[12] == e.ntReserved && r[13] == e.createTimeTenths
            && r[14..16] == LE16(e.createTime) && r[16..18] == LE16(e.createDate)
            && r[18..20] == LE16(e.lastAccessDate) && r[20..22] == LE16(e.firstClusterHi)
            && r[22..24] == LE16(e.modifiedTime) && r[24..26] == LE16(e.modifiedDate)
            && r[26..28] == LE16(e.firstClusterLow) && r[28..32] == LE32(e.size)
  {
    RecordLayout(e.name, e.ext, [e.attributes, e.ntReserved, e.createTimeTenths],
                 LE16(e.createTime), LE16(e.createDate), LE16(e.lastAccessDate), LE16(e.firstClusterHi),
                 LE16(e.modifiedTime), LE16(e.modifiedDate), LE16(e.firstClusterLow), LE32(e.size));
  }

  /** The offsets of the parts of a record, whatever their contents. */
  lemma RecordLayout(name: seq<byte>, ext: seq<byte>, flags: seq<byte>, t0: seq<byte>, t1: seq<byte>,
                     t2: seq<byte>, t3: seq<byte>, t4: seq<byte>, t5: seq<byte>, t6: seq<byte>, size: seq<byte>)
    requires |name| == 8 && |ext| == 3 && |flags| == 3 && |size| == 4
    requires |t0| == 2 && |t1| == 2 && |t2| == 2 && |t3| == 2 && |t4| == 2 && |t5| == 2 && |t6| == 2
    ensures var r := name + (ext + (flags + t0 + t1 + t2 + t3 + t4 + t5 + t6 + size));
            && r[0..8] == name && r[8..11] == ext && r[11..14] == flags
            && r[14..16] == t0 && r[16..18] == t1 && r[18..20] == t2 && r[20..22] == t3
            && r[22..24] == t4 && r[24..26] == t5 && r[26..28] == t6 && r[28..32] == size
  {
  }

  function DecodeDirEntry(s: seq<byte>): (e: DirEntry)
    requires |s| == 32
    ensures WellFormedDirEntry(e)
  {
    DirEntry(s[0..8], s[8..11], s[11], s[12], s[13], ReadLE16(s[14..16]), ReadLE16(s[16..18]),
             ReadLE16(s[18..20]), ReadLE16(s[20..22]), ReadLE16(s[22..24]), ReadLE16(s[24..26]),
             ReadLE16(s[26..28]), ReadLE32(s[28..32]))
  }

  /** Every field of a directory record is read back from the offset it was written at. */
  lemma DirEntryRoundTrip(e: DirEntry)
    requires WellFormedDirEntry(e)
    ensures DecodeDirEntry(EncodeDirEntry(e)) == e
  {
    DirEntryFields(e);
    LE16Value(e.createTime); LE16Value(e.createDate); LE16Value(e.lastAccessDate);
    LE16Value(e.firstClusterHi); LE16Value(e.modifiedTime); LE16Value(e.modifiedDate);
    LE16Value(e.firstClusterLow); LE32Value(e.size);
  }

  /**
   * An 8.3 name field: the first `min(strlen(src), width)` bytes of `src`,
   * the rest of the `width` bytes left as spaces.
   */
  function PaddedName(src: seq<byte>, width: nat): (r: seq<byte>)
    ensures |r| == width
    ensures forall i :: 0 <= i < width ==> r[i] == if i < Strlen(src) then src[i] else 0x20
  {
    var n := Min(Strlen(src), width);
    src[..n] + Spaces(width - n)
  }

  /** The blank record the formatter starts from before copying the name in. */
  function RecordTemplate(attributes: byte, firstCluster: u32, size: u32): (e: DirEntry)
    ensures WellFormedDirEntry(e)
  {
    DirEntry(Spaces(8), Spaces(3), attributes, 0, 0, 0, 0, 0,
             firstCluster / 0x1_0000, 0, 0, firstCluster % 0x1_0000, size)
  }

  /** The record of a subdirectory named `name` whose first cluster is `firstCluster`. */
  function DirectoryRecord(name: seq<byte>, firstCluster: u32): (e: DirEntry)
    ensures WellFormedDirEntry(e)
    ensures e.name == PaddedName(name, 8) && e.ext == Spaces(3)
    ensures e.attributes == AttrDirectory && e.size == 0
    ensures e.firstClusterHi == firstCluster / 0x1_0000 && e.firstClusterLow == firstCluster % 0x1_0000
  {
    RecordTemplate(AttrDirectory, firstCluster, 0).(name := PaddedName(name, 8))
  }

  /** The record of a file `name`.`ext` of `size` bytes whose first cluster is `firstCluster`. */
  function FileRecord(name: seq<byte>, ext: seq<byte>, firstCluster: u32, size: u32): (e: DirEntry)
    ensures WellFormedDirEntry(e)
    ensures e.name == PaddedName(name, 8) && e.ext == PaddedName(ext, 3)
    ensures e.attributes == 0 && e.size == size
    ensures e.firstClusterHi == firstCluster / 0x1_0000 && e.firstClusterLow == firstCluster % 0x1_0000
  {
    RecordTemplate(0, firstCluster, size).(name := PaddedName(name, 8), ext := PaddedName(ext, 3))
  }

  /** The two 16-bit halves of a record put back together give the cluster it was made with. */
  lemma RecordsPointAt(name: seq<byte>, ext: seq<byte>, firstCluster: u32, size: u32)
    ensures DirectoryRecord(name, firstCluster).FirstCluster() == firstCluster
    ensures FileRecord(name, ext, firstCluster, size).FirstCluster() == firstCluster
  {
  }
}
