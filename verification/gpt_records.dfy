/**
 * The on-disk records of a GUID partition table (UEFI Specification,
 * sections 5.2.3 and 5.3): the protective MBR's partition record, the
 * 92-byte GPT header and the 128-byte partition entries. Each record is
 * serialised field by field, little-endian, at the offsets those sections
 * fix; a decoder reads the fields back from the same offsets. The header
 * and entry-array checksums are CRC-32 (ISO 3309) values.
 */
module GptRecords {
  import opened Bytes
  import opened Crc32

  /** The logical block size the table is laid out in. */
  const BlockSize: nat := 512
  /** Number of partition entries and the size of each one. */
  const EntryCount: nat := 128
  const EntrySize: nat := 128
  /** UTF-16 code units in a partition name. */
  const NameLength: nat := 36
  /** Size of the packed header. */
  const HeaderSize: nat := 92
  /** One header block plus 32 blocks of entries (`GPT_SIZE_IN_SECTORS`). */
  const GptSizeInSectors: nat := 33
  /** The first block a partition may use: MBR, header and 32 blocks of entries come before it. */
  const FirstUsableLba: nat := 34
  /** Header revision 1.0. */
  const Revision: u32 := 0x0001_0000
  /** The header signature "EFI PART". */
  const Signature: seq<byte> := Ascii("EFI PART")
  /** The EFI System Partition type GUID C12A7328-F81F-11D2-BA4B-00A0C93EC93B, in its on-disk byte order. */
  const EfiPartitionType: seq<byte> :=
    [0x28, 0x73, 0x2a, 0xc1, 0x1f, 0xf8, 0xd2, 0x11, 0xba, 0x4b, 0x00, 0xa0, 0xc9, 0x3e, 0xc9, 0x3b]

  // ---------------------------------------------------------------- protective MBR

  /**
   * The one partition record of the protective MBR, at offset 0x1BE: not
   * bootable, placeholder CHS addresses, type 0xEE, starting at block 1 and
   * `blocks` blocks long.
   */
  function ProtectiveRecord(blocks: u32): (r: seq<byte>)
    ensures |r| == 16
  {
    [0x00, 0x00, 0x01, 0x00, 0xEE, 0xFE, 0xFF, 0xFF, 0x01, 0x00, 0x00, 0x00] + LE32(blocks)
  }

  /** The partition record reads back as a type-0xEE partition from block 1 spanning `blocks` blocks. */
  lemma ProtectiveRecordFields(blocks: u32)
    ensures var r := ProtectiveRecord(blocks);
            && r[0] == 0x00 && r[4] == 0xEE
            && ReadLE32(r[8..12]) == 1 && ReadLE32(r[12..16]) == blocks
  {
    var r := ProtectiveRecord(blocks);
    assert r[12..16] == LE32(blocks);
    LE32Value(blocks);
    LE32Value(1);
    assert r[8..12] == LE32(1) by {
      assert LittleEndian(1, 4) == [1, 0, 0, 0];
    }
  }

  /**
   * A 512-byte block with the protective partition record at 0x1BE and the
   * boot signature 0x55 0xAA at 0x1FE; every other byte is that of `s`.
   */
  function WithProtectiveRecord(s: seq<byte>, blocks: u32): (r: seq<byte>)
    requires |s| == BlockSize
    ensures |r| == BlockSize
    ensures r[0x1BE..0x1CE] == ProtectiveRecord(blocks) && r[0x1FE] == 0x55 && r[0x1FF] == 0xAA
    ensures forall i :: 0 <= i < 0x1BE || 0x1CE <= i < 0x1FE ==> r[i] == s[i]
  {
    s[..0x1BE] + ProtectiveRecord(blocks) + s[0x1CE..0x1FE] + [0x55, 0xAA]
  }

  // ---------------------------------------------------------------- header

  /** The GPT header, field for field (`struct efi_header`). */
  datatype Header = Header(
    magic: seq<byte>,         // 8 bytes at 0
    version: u32,             // 8
    headerSize: u32,          // 12
    crc32: u32,               // 16
    reserved: u32,            // 20
    headerLba: u64,           // 24
    backupLba: u64,           // 32
    firstLba: u64,            // 40
    lastLba: u64,             // 48
    volumeUuid: seq<byte>,    // 16 bytes at 56
    entriesLba: u64,          // 72
    entriesCount: u32,        // 80
    entriesSize: u32,         // 84
    entriesCrc32: u32)        // 88

  ghost predicate WellFormedHeader(h: Header)
  {
    |h.magic| == 8 && |h.volumeUuid| == 16
  }

  /** The all-zero header of a zero-initialised table. */
  const ZeroHeader: Header := Header(Zeros(8), 0, 0, 0, 0, 0, 0, 0, 0, Zeros(16), 0, 0, 0, 0)

  /** Bytes 0 to 23: signature, revision, size, checksum and the reserved word. */
  function EncodeHeaderLead(h: Header): (r: seq<byte>)
    requires WellFormedHeader(h)
    ensures |r| == 24
  {
    h.magic + LE32(h.version) + LE32(h.headerSize) + LE32(h.crc32) + LE32(h.reserved)
  }

  /** Bytes 24 to 91: the block addresses, disk GUID and entry-array description. */
  function EncodeHeaderBody(h: Header): (r: seq<byte>)
    requires WellFormedHeader(h)
    ensures |r| == 68
  {
    LE64(h.headerLba) + LE64(h.backupLba) + LE64(h.firstLba) + LE64(h.lastLba) + h.volumeUuid
    + LE64(h.entriesLba) + LE32(h.entriesCount) + LE32(h.entriesSize) + LE32(h.entriesCrc32)
  }

  /** The 92 bytes of the packed header. */
  function EncodeHeader(h: Header): (r: seq<byte>)
    requires WellFormedHeader(h)
    ensures |r| == HeaderSize
  {
    EncodeHeaderLead(h) + EncodeHeaderBody(h)
  }

  /** Where each field sits in the first 24 bytes. */
  lemma HeaderLeadFields(h: Header)
    requires WellFormedHeader(h)
    ensures var r := EncodeHeaderLead(h);
            && r[0..8] == h.magic && r[8..12] == LE32(h.version) && r[12..16] == LE32(h.headerSize)
            && r[16..20] == LE32(h.crc32) && r[20..24] == LE32(h.reserved)
  {
  }

  /** Where each field sits in bytes 24 to 91, counted from byte 24. */
  lemma HeaderBodyFields(h: Header)
    requires WellFormedHeader(h)
    ensures var r := EncodeHeaderBody(h);
            && r[0..8] == LE64(h.headerLba) && r[8..16] == LE64(h.backupLba)
            && r[16..24] == LE64(h.firstLba) && r[24..32] == LE64(h.lastLba)
            && r[32..48] == h.volumeUuid && r[48..56] == LE64(h.entriesLba)
            && r[56..60] == LE32(h.entriesCount) && r[60..64] == LE32(h.entriesSize)
            && r[64..68] == LE32(h.entriesCrc32)
  {
  }

  /** Reads every header field back from its offset. */
  function DecodeHeader(s: seq<byte>): (h: Header)
    requires |s| == HeaderSize
    ensures WellFormedHeader(h)
  {
    Header(
      s[0..8], ReadLE32(s[8..12]), ReadLE32(s[12..16]), ReadLE32(s[16..20]), ReadLE32(s[20..24]),
      ReadLE64(s[24..32]), ReadLE64(s[32..40]), ReadLE64(s[40..48]), ReadLE64(s[48..56]),
      s[56..72], ReadLE64(s[72..80]), ReadLE32(s[80..84]), ReadLE32(s[84..88]), ReadLE32(s[88..92]))
  }

  /** Every header field is read back from the offset it was written at. */
  lemma HeaderRoundTrip(h: Header)
    requires WellFormedHeader(h)
    ensures DecodeHeader(EncodeHeader(h)) == h
  {
    var s := EncodeHeader(h);
    var a := EncodeHeaderLead(h);
    var b := EncodeHeaderBody(h);
    HeaderLeadFields(h);
    HeaderBodyFields(h);
    forall i, j | 0 <= i <= j <= 24 ensures s[i..j] == a[i..j] {
      SliceOfSlice(s, 0, 24, i, j);
    }
    forall i, j | 24 <= i <= j <= 92 ensures s[i..j] == b[i - 24..j - 24] {
      SliceOfSlice(s, 24, 92, i, j);
    }
    LE32Value(h.version); LE32Value(h.headerSize); LE32Value(h.crc32); LE32Value(h.reserved);
    LE64Value(h.headerLba); LE64Value(h.backupLba); LE64Value(h.firstLba); LE64Value(h.lastLba);
    LE64Value(h.entriesLba); LE32Value(h.entriesCount); LE32Value(h.entriesSize); LE32Value(h.entriesCrc32);
  }

  // ---------------------------------------------------------------- entries

  /** A partition entry, field for field (`struct efi_entry`). */
  datatype Entry = Entry(
    typeUuid: seq<byte>,      // 16 bytes at 0
    uniqUuid: seq<byte>,      // 16 bytes at 16
    firstLba: u64,            // 32
    lastLba: u64,             // 40
    attributes: u64,          // 48
    name: seq<u16>)           // 36 UTF-16 units at 56

  ghost predicate WellFormedEntry(e: Entry)
  {
    |e.typeUuid| == 16 && |e.uniqUuid| == 16 && |e.name| == NameLength
  }

  ghost predicate AllWellFormed(es: seq<Entry>)
  {
    forall i :: 0 <= i < |es| ==> WellFormedEntry(es[i])
  }

  /** The all-zero name of an unused entry. */
  function EmptyName(): (units: seq<u16>)
    ensures |units| == NameLength && forall i :: 0 <= i < NameLength ==> units[i] == 0
  {
    seq(NameLength, _ => 0)
  }

  /** The all-zero entry of a zero-initialised table. */
  const EmptyEntry: Entry := Entry(Zeros(16), Zeros(16), 0, 0, 0, EmptyName())

  /** The entry array of a zero-initialised table. */
  function EmptyEntries(): (es: seq<Entry>)
    ensures |es| == EntryCount && AllWellFormed(es)
    ensures forall i :: 0 <= i < EntryCount ==> es[i] == EmptyEntry
  {
    seq(EntryCount, _ => EmptyEntry)
  }

  /** A slot is free when the first byte of its type GUID is zero. */
  predicate IsFree(e: Entry)
    requires |e.typeUuid| == 16
  {
    e.typeUuid[0] == 0
  }

  /** A name as bytes: each 16-bit unit little-endian, in order. */
  function NameBytes(units: seq<u16>): (r: seq<byte>)
    ensures |r| == 2 * |units|
    decreases |units|
  {
    if units == [] then [] else NameBytes(units[..|units| - 1]) + LE16(units[|units| - 1])
  }

  /** Unit `i` of a name sits, little-endian, at bytes `2 * i` and `2 * i + 1`. */
  lemma {:induction false} NameBytesAt(units: seq<u16>, i: nat)
    requires i < |units|
    ensures NameBytes(units)[2 * i..2 * i + 2] == LE16(units[i])
    decreases |units|
  {
    var front := NameBytes(units[..|units| - 1]);
    if i < |units| - 1 {
      NameBytesAt(units[..|units| - 1], i);
      assert NameBytes(units)[2 * i..2 * i + 2] == front[2 * i..2 * i + 2];
    }
  }

  /** The units read back from the bytes of a name, two bytes to a unit. */
  function DecodeName(s: seq<byte>): (units: seq<u16>)
    requires |s| % 2 == 0
    ensures |units| == |s| / 2
    ensures forall i :: 0 <= i < |units| ==> LE16(units[i]) == s[2 * i..2 * i + 2]
  {
    seq(|s| / 2, i requires 0 <= i < |s| / 2 => ReadLE16(s[2 * i..2 * i + 2]))
  }

  /** Serialising a name and reading it back gives the name. */
  lemma NameRoundTrip(units: seq<u16>)
    ensures DecodeName(NameBytes(units)) == units
  {
    var d := DecodeName(NameBytes(units));
    forall i | 0 <= i < |units| ensures d[i] == units[i] {
      NameBytesAt(units, i);
      assert LE16(d[i]) == LE16(units[i]);
      LE16Value(d[i]);
      LE16Value(units[i]);
    }
  }

  /** The 128 bytes of an entry. */
  function EncodeEntry(e: Entry): (r: seq<byte>)
    requires WellFormedEntry(e)
    ensures |r| == EntrySize
    ensures r[0..16] == e.typeUuid && r[16..32] == e.uniqUuid
    ensures r[32..40] == LE64(e.firstLba) && r[40..48] == LE64(e.lastLba)
    ensures r[48..56] == LE64(e.attributes) && r[56..128] == NameBytes(e.name)
  {
    var fixed := e.typeUuid + e.uniqUuid + LE64(e.firstLba) + LE64(e.lastLba) + LE64(e.attributes);
    assert |fixed| == 56;
    fixed + NameBytes(e.name)
  }

  /** Reads every entry field back from its offset. */
  function DecodeEntry(s: seq<byte>): (e: Entry)
    requires |s| == EntrySize
    ensures WellFormedEntry(e)
  {
    Entry(s[0..16], s[16..32], ReadLE64(s[32..40]), ReadLE64(s[40..48]), ReadLE64(s[48..56]),
          DecodeName(s[56..128]))
  }

  /** Every entry field is read back from the offset it was written at. */
  lemma EntryRoundTrip(e: Entry)
    requires WellFormedEntry(e)
    ensures DecodeEntry(EncodeEntry(e)) == e
  {
    NameRoundTrip(e.name);
    LE64Value(e.firstLba); LE64Value(e.lastLba); LE64Value(e.attributes);
  }

  /** The entry array as bytes: each entry 128 bytes, in order. */
  function EncodeEntries(es: seq<Entry>): (r: seq<byte>)
    requires AllWellFormed(es)
    ensures |r| == 128 * |es|
    decreases |es|
  {
    if es == [] then [] else EncodeEntries(es[..|es| - 1]) + EncodeEntry(es[|es| - 1])
  }

  /** Entry `i` sits at bytes `128 * i` to `128 * i + 127` of the array. */
  lemma {:induction false} EncodeEntriesAt(es: seq<Entry>, i: nat)
    requires AllWellFormed(es) && i < |es|
    ensures EncodeEntries(es)[128 * i..128 * i + 128] == EncodeEntry(es[i])
    decreases |es|
  {
    var front := EncodeEntries(es[..|es| - 1]);
    if i < |es| - 1 {
      EncodeEntriesAt(es[..|es| - 1], i);
      assert EncodeEntries(es)[128 * i..128 * i + 128]
             == front[128 * i..128 * i + 128];
    }
  }

  /** The entries read back from the bytes of an entry array. */
  function DecodeEntries(s: seq<byte>): (es: seq<Entry>)
    requires |s| % 128 == 0
    ensures |es| == |s| / 128
    ensures forall i :: 0 <= i < |es| ==> es[i] == DecodeEntry(s[128 * i..128 * i + 128])
  {
    seq(|s| / 128, i requires 0 <= i < |s| / 128 =>
      DecodeEntry(s[128 * i..128 * i + 128]))
  }

  /** Serialising an entry array and reading it back gives the array. */
  lemma EntriesRoundTrip(es: seq<Entry>)
    requires AllWellFormed(es)
    ensures DecodeEntries(EncodeEntries(es)) == es
  {
    var d := DecodeEntries(EncodeEntries(es));
    forall i | 0 <= i < |es| ensures d[i] == es[i] {
      EncodeEntriesAt(es, i);
      EntryRoundTrip(es[i]);
    }
  }

  // ---------------------------------------------------------------- checksums

  /**
   * What a reader checks (section 5.3.2 of the UEFI Specification): the entry-array
   * checksum is the CRC-32 of the serialised entries, and the header checksum
   * is the CRC-32 of the header with its own checksum field zeroed.
   */
  ghost predicate ChecksumsValid(h: Header, es: seq<Entry>)
    requires WellFormedHeader(h) && AllWellFormed(es)
  {
    && h.entriesCrc32 == Crc32Value(EncodeEntries(es))
    && h.crc32 == Crc32Value(EncodeHeader(h.(crc32 := 0)))
  }

  /**
   * The header with both checksums brought up to date for entries `es`:
   * only the two checksum fields change.
   */
  function Checksummed(h: Header, es: seq<Entry>): (r: Header)
    requires WellFormedHeader(h) && AllWellFormed(es)
    ensures WellFormedHeader(r)
    ensures r == h.(entriesCrc32 := r.entriesCrc32, crc32 := r.crc32)
  {
    var withEntries := h.(entriesCrc32 := Crc32Value(EncodeEntries(es)));
    withEntries.(crc32 := Crc32Value(EncodeHeader(withEntries.(crc32 := 0))))
  }

  /** The checksummed header passes a reader's check. */
  lemma ChecksummedValid(h: Header, es: seq<Entry>)
    requires WellFormedHeader(h) && AllWellFormed(es)
    ensures ChecksumsValid(Checksummed(h, es), es)
  {
    var r := Checksummed(h, es);
    assert r.(crc32 := 0) == h.(entriesCrc32 := r.entriesCrc32, crc32 := 0);
  }

  /**
   * The checksummed header is the only header that agrees with `h` outside
   * the two checksum fields and passes a reader's check.
   */
  lemma ChecksummedUnique(h: Header, es: seq<Entry>, other: Header)
    requires WellFormedHeader(h) && AllWellFormed(es)
    requires other == h.(entriesCrc32 := other.entriesCrc32, crc32 := other.crc32)
    ensures ChecksumsValid(other, es) <==> other == Checksummed(h, es)
  {
    var r := Checksummed(h, es);
    ChecksummedValid(h, es);
    if ChecksumsValid(other, es) {
      assert other.(crc32 := 0) == r.(crc32 := 0);
    }
  }

  /** Bringing the checksums up to date a second time changes nothing. */
  lemma ChecksummedIdempotent(h: Header, es: seq<Entry>)
    requires WellFormedHeader(h) && AllWellFormed(es)
    ensures Checksummed(Checksummed(h, es), es) == Checksummed(h, es)
  {
    var r := Checksummed(h, es);
    ChecksummedUnique(r, es, r);
    ChecksummedUnique(h, es, Checksummed(r, es));
  }
}
