/**
 * Writing the GUID partition table of the disk image: the protective MBR,
 * the primary header and entry array at the start of the device, and the
 * backup entry array and backup header at its end (UEFI Specification,
 * section 5.3.1). The table holds one partition, the EFI system partition
 * spanning the FAT32 volume.
 */
module Gpt {
  import opened Bytes
  import opened Wrappers
  import opened Crc32
  import opened ImageSink
  import opened GptRecords
  import opened GptTable

  /** The name given to the EFI system partition. */
  const EspName: seq<byte> := Ascii("EFI SYSTEM PARTITION")

  /** Which of the three writes to the device failed. */
  datatype GptError = TableWriteFailed | BackupHeaderWriteFailed | BackupEntriesWriteFailed

  /** The position, among the three writes of `TableWrites`, of the write an error reports. */
  function WriteIndex(e: GptError): (k: nat)
    ensures k < 3
  {
    match e
    case TableWriteFailed => 0
    case BackupHeaderWriteFailed => 1
    case BackupEntriesWriteFailed => 2
  }

  /**
   * What the block arithmetic needs: room for the backup table (so the
   * block numbers `size - 1` and `size - 33` do not wrap around) and byte
   * offsets that fit in 32 bits.
   */
  ghost predicate DeviceFits(size: nat)
  {
    GptSizeInSectors <= size && size * 512 <= TwoTo32
  }

  /** The header fields set before the checksums, for a device of `size` blocks. */
  function HeaderFields(size: u32, first: u32, last: u32, volumeUuid: seq<byte>): (h: Header)
    requires 1 <= size && |volumeUuid| == 16
    ensures WellFormedHeader(h)
  {
    ZeroHeader.(magic := Signature, version := Revision, headerSize := HeaderSize as u32,
                headerLba := 1, backupLba := size - 1, firstLba := first, lastLba := last,
                volumeUuid := volumeUuid, entriesLba := 2, entriesCount := EntryCount as u32,
                entriesSize := EntrySize as u32)
  }

  /**
   * The entry array after the EFI system partition has been added to a
   * zeroed table whose last usable block is `last`; when the partition is
   * refused the array stays empty, since the refusal is not acted on.
   */
  function PartitionEntries(first: u32, last: u32, uniqUuid: seq<byte>): (es: seq<Entry>)
    requires |uniqUuid| == 16
    ensures |es| == EntryCount && AllWellFormed(es)
  {
    match AddPartition(last, EmptyEntries(), first, last, EspName, EfiPartitionType, uniqUuid)
      case Success(es) => es
      case Failure(_) => EmptyEntries()
  }

  /** The primary header as written: the fields above with both checksums up to date. */
  function PrimaryHeader(size: u32, first: u32, last: u32, volumeUuid: seq<byte>, uniqUuid: seq<byte>): (h: Header)
    requires 1 <= size && |volumeUuid| == 16 && |uniqUuid| == 16
    ensures WellFormedHeader(h)
  {
    Checksummed(HeaderFields(size, first, last, volumeUuid), PartitionEntries(first, last, uniqUuid))
  }

  /**
   * The backup of `primary` for a device of `size` blocks: the same header
   * placed in the last block, naming block 1 as its backup, with the
   * checksums recomputed.
   */
  function BackupHeader(size: u32, primary: Header, es: seq<Entry>): (h: Header)
    requires 1 <= size && WellFormedHeader(primary) && AllWellFormed(es)
    ensures WellFormedHeader(h)
  {
    Checksummed(primary.(headerLba := size - 1, backupLba := 1), es)
  }

  /** The 512 bytes of the protective MBR block of a device of `size` blocks. */
  function MbrBlock(size: u32): (r: seq<byte>)
    requires 1 <= size
    ensures |r| == BlockSize
  {
    WithProtectiveRecord(Zeros(BlockSize), size - 1)
  }

  /** Byte offset of the last block of a device of `size` blocks, where the backup header goes. */
  function BackupHeaderOffset(size: u32): (n: nat)
    requires GptSizeInSectors <= size
    ensures n + BlockSize == size * 512
  {
    (size - 1) * 512
  }

  /** Byte offset of the 32 blocks before the last, where the backup entry array goes. */
  function BackupEntriesOffset(size: u32): (n: nat)
    requires GptSizeInSectors <= size
    ensures n + 0x4000 == BackupHeaderOffset(size)
    ensures GptSizeInSectors + 34 <= size ==> TableSize <= n
  {
    (size - GptSizeInSectors) * 512
  }

  /**
   * The three writes that put a table on a device of `size` blocks, in
   * order: the whole table at byte 0, the backup header into the last
   * block, and the entry array into the 32 blocks before it.
   */
  function TableWrites(size: u32, mbr: seq<byte>, primary: Header, es: seq<Entry>): seq<Write>
    requires GptSizeInSectors <= size && |mbr| == BlockSize && WellFormedHeader(primary)
    requires |es| == EntryCount && AllWellFormed(es)
  {
    [Write(0, TableBytes(mbr, primary, es)),
     Write(BackupHeaderOffset(size), EncodeHeader(BackupHeader(size, primary, es))),
     Write(BackupEntriesOffset(size), EncodeEntries(es))]
  }

  /** The writes for the table holding the EFI system partition from block `first` to block `last`. */
  function GptWrites(size: u32, first: u32, last: u32, volumeUuid: seq<byte>, uniqUuid: seq<byte>): seq<Write>
    requires GptSizeInSectors <= size && |volumeUuid| == 16 && |uniqUuid| == 16
  {
    TableWrites(size, MbrBlock(size), PrimaryHeader(size, first, last, volumeUuid, uniqUuid),
                PartitionEntries(first, last, uniqUuid))
  }

  /**
   * The table as it stands before the first write: a zeroed table with the
   * protective MBR filled in, the header fields set, the EFI system
   * partition added (a refusal is not acted on) and the checksums brought
   * up to date.
   */
  method BuildTable(size: u32, first: u32, last: u32, volumeUuid: seq<byte>, uniqUuid: seq<byte>)
    returns (table: PartitionTable)
    requires DeviceFits(size) && |volumeUuid| == 16 && |uniqUuid| == 16
    ensures fresh(table) && fresh(table.mbr) && fresh(table.entries) && table.Valid()
    ensures table.mbr[..] == MbrBlock(size)
    ensures table.header == PrimaryHeader(size, first, last, volumeUuid, uniqUuid)
    ensures table.entries[..] == PartitionEntries(first, last, uniqUuid)
  {
    table := new PartitionTable();
    assert table.entries[..] == EmptyEntries();
    InitMbr(table.mbr, size - 1);
    assert table.mbr[..] == MbrBlock(size);
    table.header := table.header.(
      magic := Signature, version := Revision, headerSize := HeaderSize as u32,
      headerLba := 1, backupLba := size - 1, firstLba := first, lastLba := last,
      volumeUuid := volumeUuid, entriesLba := 2, entriesCount := EntryCount as u32,
      entriesSize := EntrySize as u32);
    ghost var fields := HeaderFields(size, first, last, volumeUuid);
    assert table.header == fields;
    var _ := table.AddPtn(first, last, EspName, EfiPartitionType, uniqUuid);
    ghost var es := PartitionEntries(first, last, uniqUuid);
    assert table.entries[..] == es;
    table.UpdateCrc32();
    assert table.header == Checksummed(fields, es);
  }

  /**
   * Writes `table` to a device of `size` blocks: the whole table at the
   * start, then, after turning the header into the backup header, that
   * header into the last block and the entry array into the 32 blocks
   * before it. It stops at the first write that does not fit, and the
   * error names that write; it succeeds exactly when all three fit, and
   * then the image is the old one with the three writes applied in order.
   * The table keeps its MBR and entries; its header becomes the backup
   * header once the first write is made.
   */
  method WriteTable(image: array<byte>, table: PartitionTable, size: u32) returns (r: Outcome<GptError>)
    requires table.Valid() && GptSizeInSectors <= size && image != table.mbr
    modifies image, table
    ensures var ws := TableWrites(size, old(table.mbr[..]), old(table.header), old(table.entries[..]));
            && (r.Pass? <==> AllFit(image.Length, ws))
            && (r.Pass? ==> image[..] == ApplyWrites(old(image[..]), ws))
            && (r.Fail? ==> StoppedAt(old(image[..]), ws, WriteIndex(r.error), image[..]))
    ensures table.Valid() && table.mbr == old(table.mbr) && table.entries == old(table.entries)
    ensures table.mbr[..] == old(table.mbr[..]) && table.entries[..] == old(table.entries[..])
    ensures table.header == if r == Fail(TableWriteFailed) then old(table.header)
                            else BackupHeader(size, old(table.header), old(table.entries[..]))
  {
    ghost var ws := TableWrites(size, table.mbr[..], table.header, table.entries[..]);
    ghost var s := image[..];
    ApplyThree(s, ws[0], ws[1], ws[2]);
    StopThree(s, ws[0], ws[1], ws[2]);
    assert ws == [ws[0], ws[1], ws[2]];

    var tableWrite := Write(0, table.Image());
    assert tableWrite == ws[0];
    var ok := PWrite(image, tableWrite);
    if !ok {
      return Fail(TableWriteFailed);
    }
    table.header := table.header.(headerLba := size - 1, backupLba := 1);
    table.UpdateCrc32();
    var headerWrite := Write((size - 1) * 512, EncodeHeader(table.header));
    assert headerWrite == ws[1];
    ok := PWrite(image, headerWrite);
    if !ok {
      return Fail(BackupHeaderWriteFailed);
    }
    var entriesWrite := Write((size - GptSizeInSectors) * 512, EncodeEntries(table.entries[..]));
    assert entriesWrite == ws[2];
    ok := PWrite(image, entriesWrite);
    if !ok {
      return Fail(BackupEntriesWriteFailed);
    }
    assert image[..] == Splice(Splice(Splice(s, ws[0]), ws[1]), ws[2]);
    return Pass;
  }

  /**
   * Builds the table for a device of `size` blocks whose EFI system
   * partition runs from block `first` to block `last`, and writes it. The
   * GUIDs come in as parameters. It succeeds exactly when all three writes
   * fit the image, and then the image is the old one with the three writes
   * applied in order; otherwise it stops at the first write that does not
   * fit, and the error names that write.
   */
  method GptWriteEfi(image: array<byte>, size: u32, first: u32, last: u32, volumeUuid: seq<byte>, uniqUuid: seq<byte>)
    returns (r: Outcome<GptError>)
    requires DeviceFits(size) && |volumeUuid| == 16 && |uniqUuid| == 16
    modifies image
    ensures var ws := GptWrites(size, first, last, volumeUuid, uniqUuid);
            && (r.Pass? <==> AllFit(image.Length, ws))
            && (r.Pass? ==> image[..] == ApplyWrites(old(image[..]), ws))
            && (r.Fail? ==> StoppedAt(old(image[..]), ws, WriteIndex(r.error), image[..]))
  {
    var table := BuildTable(size, first, last, volumeUuid, uniqUuid);
    r := WriteTable(image, table, size);
  }

  /**
   * The primary header describes the device: signature "EFI PART",
   * revision 1.0, a 92-byte header in block 1 whose backup is in the last
   * block, the partition's block range as the usable range, 128 entries of
   * 128 bytes from block 2, the disk GUID given, and checksums a reader
   * accepts.
   */
  lemma PrimaryHeaderFields(size: u32, first: u32, last: u32, volumeUuid: seq<byte>, uniqUuid: seq<byte>)
    requires 1 <= size && |volumeUuid| == 16 && |uniqUuid| == 16
    ensures var h := PrimaryHeader(size, first, last, volumeUuid, uniqUuid);
            && h.magic == Signature && h.version == 0x0001_0000 && h.headerSize == 92 && h.reserved == 0
            && h.headerLba == 1 && h.backupLba == size - 1
            && h.firstLba == first && h.lastLba == last && h.volumeUuid == volumeUuid
            && h.entriesLba == 2 && h.entriesCount == 128 && h.entriesSize == 128
            && ChecksumsValid(h, PartitionEntries(first, last, uniqUuid))
  {
    ChecksummedValid(HeaderFields(size, first, last, volumeUuid), PartitionEntries(first, last, uniqUuid));
  }

  /**
   * A backup header is its primary with its own block and backup block
   * swapped and the header checksum recomputed; the entry-array checksum is
   * the primary's, and a reader accepts both checksums.
   */
  lemma BackupHeaderSwapped(size: u32, primary: Header, es: seq<Entry>)
    requires 1 <= size && WellFormedHeader(primary) && AllWellFormed(es)
    requires primary.headerLba == 1 && primary.backupLba == size - 1 && ChecksumsValid(primary, es)
    ensures var b := BackupHeader(size, primary, es);
            && b == primary.(headerLba := primary.backupLba, backupLba := primary.headerLba, crc32 := b.crc32)
            && ChecksumsValid(b, es)
  {
    ChecksummedValid(primary.(headerLba := size - 1, backupLba := 1), es);
  }

  /**
   * When the partition starts past the table, entry 0 is the EFI system
   * partition with the given unique GUID and block range, named "EFI SYSTEM
   * PARTITION", and every other entry is empty; otherwise every entry is
   * empty.
   */
  lemma PartitionEntriesLayout(first: u32, last: u32, uniqUuid: seq<byte>)
    requires |uniqUuid| == 16
    ensures var es := PartitionEntries(first, last, uniqUuid);
            && (forall j :: 1 <= j < EntryCount ==> es[j] == EmptyEntry)
            && (first < FirstUsableLba ==> es[0] == EmptyEntry)
            && (first >= FirstUsableLba ==>
                 && es[0].typeUuid == EfiPartitionType && es[0].uniqUuid == uniqUuid
                 && es[0].firstLba == first && es[0].lastLba == last && es[0].attributes == 0
                 && ReadName(es[0].name) == EspName)
  {
    if first >= FirstUsableLba {
      AddToEmpty(last, first, last, EspName, EfiPartitionType, uniqUuid);
      EspNameText();
      NameReadsBack(EspName);
    }
  }

  /** The partition name is 20 7-bit characters with no NUL among them. */
  lemma EspNameText()
    ensures Strlen(EspName) == |EspName| == 20 < NameLength
    ensures forall i :: 0 <= i < |EspName| ==> 0 < EspName[i] < 0x80
    ensures EspName[..Strlen(EspName)] == EspName
  {
    StrlenOfText(EspName);
  }

  /** A string with no NUL byte has its whole length as its C length. */
  lemma {:induction false} StrlenOfText(s: seq<byte>)
    requires forall i :: 0 <= i < |s| ==> s[i] != 0
    ensures Strlen(s) == |s|
  {
    if s != [] {
      StrlenOfText(s[1..]);
    }
  }

  /**
   * The protective MBR block holds one partition record, of type 0xEE,
   * starting at block 1 and covering the rest of the device, and the boot
   * signature; every other byte is zero.
   */
  lemma MbrBlockFields(size: u32)
    requires 1 <= size
    ensures var r := MbrBlock(size);
            && r[0x1C2] == 0xEE
            && ReadLE32(r[0x1C6..0x1CA]) == 1 && ReadLE32(r[0x1CA..0x1CE]) == size - 1
            && r[0x1FE] == 0x55 && r[0x1FF] == 0xAA
            && (forall i :: 0 <= i < 0x1BE || 0x1CE <= i < 0x1FE ==> r[i] == 0)
  {
    var r := MbrBlock(size);
    var record := ProtectiveRecord(size - 1);
    ProtectiveRecordFields(size - 1);
    assert r[0x1C2] == record[4];
    assert r[0x1C6..0x1CA] == record[8..12];
    assert r[0x1CA..0x1CE] == record[12..16];
  }

  /** The parts of a table, read back from bytes that start with it. */
  lemma TableIn(x: seq<byte>, mbr: seq<byte>, primary: Header, es: seq<Entry>)
    requires |mbr| == BlockSize && WellFormedHeader(primary) && |es| == EntryCount && AllWellFormed(es)
    requires TableSize <= |x| && x[..TableSize] == TableBytes(mbr, primary, es)
    ensures x[..BlockSize] == mbr
    ensures DecodeHeader(x[BlockSize..BlockSize + HeaderSize]) == primary
    ensures DecodeEntries(x[0x400..0x4400]) == es
  {
    var t := TableBytes(mbr, primary, es);
    TableBytesLayout(mbr, primary, es);
    assert x[..BlockSize] == t[..BlockSize];
    assert x[BlockSize..BlockSize + HeaderSize] == t[BlockSize..BlockSize + HeaderSize];
    assert x[0x400..0x4400] == t[2 * BlockSize..];
    HeaderRoundTrip(primary);
    EntriesRoundTrip(es);
  }

  /**
   * A table written at the start of a device, a header into its last block
   * and an entry array into the 32 blocks before that all fit and can each
   * be read back, as long as the table and the entry array do not overlap.
   */
  lemma LayoutReadsBack(s: seq<byte>, table: seq<byte>, header: seq<byte>, entries: seq<byte>,
                        entriesAt: nat, headerAt: nat)
    requires |table| == TableSize && |header| == HeaderSize
    requires TableSize <= entriesAt && entriesAt + |entries| == headerAt && headerAt + BlockSize <= |s|
    ensures AllFit(|s|, [Write(0, table), Write(headerAt, header), Write(entriesAt, entries)])
    ensures var r := ApplyWrites(s, [Write(0, table), Write(headerAt, header), Write(entriesAt, entries)]);
            && |r| == |s|
            && r[..TableSize] == table
            && r[headerAt..headerAt + HeaderSize] == header
            && r[entriesAt..headerAt] == entries
  {
    var w0, w1, w2 := Write(0, table), Write(headerAt, header), Write(entriesAt, entries);
    ReadBackThree(s, w0, w1, w2);
    var r := ApplyWrites(s, [w0, w1, w2]);
    assert r[..TableSize] == r[w0.offset..w0.End()];
  }

  /**
   * After the three writes of a table to an image of `size` blocks, large
   * enough that the table at the start and the backup entry array do not
   * overlap, the writes all fit and the image holds, unchanged, the table
   * in its first 34 blocks, the encoded entry array in the 32 blocks before
   * the last, and the encoded backup header at the start of the last block.
   */
  lemma TableReadsBack(s: seq<byte>, size: u32, mbr: seq<byte>, primary: Header, es: seq<Entry>)
    requires GptSizeInSectors + 34 <= size && size * 512 <= |s|
    requires |mbr| == BlockSize && WellFormedHeader(primary) && |es| == EntryCount && AllWellFormed(es)
    ensures AllFit(|s|, TableWrites(size, mbr, primary, es))
    ensures var r := ApplyWrites(s, TableWrites(size, mbr, primary, es));
            var headerAt := BackupHeaderOffset(size);
            var entriesAt := BackupEntriesOffset(size);
            && |r| == |s|
            && r[..TableSize] == TableBytes(mbr, primary, es)
            && r[entriesAt..headerAt] == EncodeEntries(es)
            && r[headerAt..headerAt + HeaderSize] == EncodeHeader(BackupHeader(size, primary, es))
  {
    LayoutReadsBack(s, TableBytes(mbr, primary, es), EncodeHeader(BackupHeader(size, primary, es)),
                    EncodeEntries(es), BackupEntriesOffset(size), BackupHeaderOffset(size));
  }
}
