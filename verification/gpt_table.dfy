/**
 * The in-memory partition table the builder fills before writing it out
 * (`struct ptable`): the protective MBR block, the header, and the array of
 * 128 partition entries. Filling the MBR, adding a partition and bringing
 * the checksums up to date change it in place.
 */
module GptTable {
  import opened Bytes
  import opened Wrappers
  import opened Crc32
  import opened ImageSink
  import opened GptRecords

  /**
   * Writes the protective partition record and the boot signature into a
   * 512-byte MBR block, leaving every other byte as it was: the twelve fixed
   * bytes of the record, then the block count little-endian, then 0x55 0xAA.
   */
  method InitMbr(mbr: array<byte>, blocks: u32)
    requires mbr.Length == BlockSize
    modifies mbr
    ensures mbr[..] == WithProtectiveRecord(old(mbr[..]), blocks)
  {
    var lead := Write(0x1BE, [0x00, 0x00, 0x01, 0x00, 0xEE, 0xFE, 0xFF, 0xFF, 0x01, 0x00, 0x00, 0x00]);
    var count := Write(0x1CA, LE32(blocks));
    var signature := Write(0x1FE, [0x55, 0xAA]);
    var _ := PWrite(mbr, lead);
    var _ := PWrite(mbr, count);
    var _ := PWrite(mbr, signature);
    ghost var s := old(mbr[..]);
    assert mbr[..] == Splice(Splice(Splice(s, lead), count), signature);
    assert mbr[..] == WithProtectiveRecord(s, blocks);
  }

  /** Why adding a partition failed. */
  datatype PtnError = OverlapsTable | DoesNotFit | TableFull

  /** The first free slot of `es`, if there is one. */
  function FirstFree(es: seq<Entry>): (k: Option<nat>)
    requires AllWellFormed(es)
    ensures k.Some? ==> k.value < |es| && IsFree(es[k.value])
    ensures k.Some? ==> forall j :: 0 <= j < k.value ==> !IsFree(es[j])
    ensures k.None? <==> forall j :: 0 <= j < |es| ==> !IsFree(es[j])
    decreases |es|
  {
    if es == [] then None
    else if IsFree(es[0]) then Some(0)
    else match FirstFree(es[1..])
      case None => None
      case Some(k) => Some(k + 1)
  }

  /**
   * The 16-bit unit a name character becomes: `char` is signed, so a byte
   * from 0x80 up is sign-extended before it is narrowed to 16 bits. The low
   * byte of the unit is the character and the high byte repeats its sign bit.
   */
  function CharUnit(c: byte): (u: u16)
    ensures u % 0x100 == c
    ensures u / 0x100 == if c >= 0x80 then 0xFF else 0
  {
    if c < 0x80 then c else c + 0xFF00
  }

  /** How many characters of the C string `name` fit into an entry's name. */
  function CopiedLength(name: seq<byte>): (n: nat)
    ensures n <= NameLength && n <= |name|
    ensures n == NameLength || n == |name| || name[n] == 0
    ensures forall i :: 0 <= i < n ==> name[i] != 0
  {
    Min(NameLength, Strlen(name))
  }

  /**
   * An entry's name after the characters of `name` have been copied over
   * it one unit per character; units past the copied part keep their value.
   */
  function CopyName(units: seq<u16>, name: seq<byte>): (r: seq<u16>)
    requires |units| == NameLength
    ensures |r| == NameLength
    ensures forall i :: 0 <= i < CopiedLength(name) ==> r[i] == CharUnit(name[i])
    ensures forall i :: CopiedLength(name) <= i < NameLength ==> r[i] == units[i]
  {
    var n := CopiedLength(name);
    seq(n, i requires 0 <= i < n => CharUnit(name[i])) + units[n..]
  }

  /** Slot `e` after it has been given a partition. */
  function Filled(e: Entry, first: u64, last: u64, name: seq<byte>, typeUuid: seq<byte>, uniqUuid: seq<byte>): (r: Entry)
    requires WellFormedEntry(e) && |typeUuid| == 16 && |uniqUuid| == 16
    ensures WellFormedEntry(r)
  {
    e.(typeUuid := typeUuid, uniqUuid := uniqUuid, firstLba := first, lastLba := last,
       name := CopyName(e.name, name))
  }

  /**
   * The entries after adding a partition from `first` to `last` to a table
   * whose last usable block is `lastLba`: refused when it would overlap the
   * table itself, run past the last usable block, or find no free slot;
   * otherwise the first free slot is filled and no other slot changes.
   */
  function AddPartition(lastLba: u64, es: seq<Entry>, first: u64, last: u64, name: seq<byte>,
                        typeUuid: seq<byte>, uniqUuid: seq<byte>): (r: Result<seq<Entry>, PtnError>)
    requires AllWellFormed(es) && |typeUuid| == 16 && |uniqUuid| == 16
    ensures r == Failure(OverlapsTable) <==> first < FirstUsableLba
    ensures r == Failure(DoesNotFit) <==> first >= FirstUsableLba && last > lastLba
    ensures r == Failure(TableFull) <==> first >= FirstUsableLba && last <= lastLba && FirstFree(es).None?
    ensures r.Success? ==>
      var k := FirstFree(es).value;
      && |r.value| == |es| && AllWellFormed(r.value)
      && (forall j :: 0 <= j < |es| && j != k ==> r.value[j] == es[j])
      && r.value[k] == Filled(es[k], first, last, name, typeUuid, uniqUuid)
  {
    if first < FirstUsableLba then Failure(OverlapsTable)
    else if last > lastLba then Failure(DoesNotFit)
    else match FirstFree(es)
      case None => Failure(TableFull)
      case Some(k) => Success(es[k := Filled(es[k], first, last, name, typeUuid, uniqUuid)])
  }

  /**
   * A filled slot holds the type, unique GUID and block range it was given,
   * keeps its attributes, and is no longer free when the type GUID does not
   * start with a zero byte.
   */
  lemma FilledFields(e: Entry, first: u64, last: u64, name: seq<byte>, typeUuid: seq<byte>, uniqUuid: seq<byte>)
    requires WellFormedEntry(e) && |typeUuid| == 16 && |uniqUuid| == 16
    ensures var r := Filled(e, first, last, name, typeUuid, uniqUuid);
            && r.typeUuid == typeUuid && r.uniqUuid == uniqUuid
            && r.firstLba == first && r.lastLba == last && r.attributes == e.attributes
            && (IsFree(r) <==> typeUuid[0] == 0)
  {
  }

  /**
   * The units of an entry's name up to the first zero unit, read back as
   * 7-bit characters.
   */
  function ReadName(units: seq<u16>): (s: seq<byte>)
    ensures |s| <= |units|
    decreases |units|
  {
    if units == [] || units[0] == 0 || units[0] >= 0x80 then [] else [units[0]] + ReadName(units[1..])
  }

  /**
   * A 7-bit name shorter than the name field, copied over an all-zero name,
   * reads back as itself.
   */
  lemma {:induction false} NameReadsBack(name: seq<byte>)
    requires Strlen(name) < NameLength
    requires forall i :: 0 <= i < Strlen(name) ==> name[i] < 0x80
    ensures ReadName(CopyName(EmptyName(), name)) == name[..Strlen(name)]
  {
    var units := CopyName(EmptyName(), name);
    ReadNameFrom(units, name, 0);
  }

  lemma {:induction false} ReadNameFrom(units: seq<u16>, name: seq<byte>, i: nat)
    requires Strlen(name) < NameLength && i <= Strlen(name)
    requires forall j :: 0 <= j < Strlen(name) ==> name[j] < 0x80
    requires units == CopyName(EmptyName(), name)
    ensures ReadName(units[i..]) == name[i..Strlen(name)]
    decreases Strlen(name) - i
  {
    var n := Strlen(name);
    if i == n {
      assert units[i] == 0;
    } else {
      assert units[i] == name[i];
      ReadNameFrom(units, name, i + 1);
      assert units[i..][1..] == units[i + 1..];
      assert name[i..n] == [name[i]] + name[i + 1..n];
    }
  }

  /** Size of the whole table: MBR block, header block and 32 blocks of entries. */
  const TableSize: nat := 0x4400

  /**
   * The bytes of a table: the MBR block, the header block (the header, then
   * zero padding to the end of the block), and the entry array.
   */
  function TableBytes(mbr: seq<byte>, h: Header, es: seq<Entry>): (r: seq<byte>)
    requires |mbr| == BlockSize && WellFormedHeader(h) && |es| == EntryCount && AllWellFormed(es)
    ensures |r| == TableSize
  {
    var entries := EncodeEntries(es);
    assert |entries| == 128 * EntryCount;
    mbr + EncodeHeader(h) + Zeros(BlockSize - HeaderSize) + entries
  }

  /**
   * Where the parts sit in the table's bytes: the MBR block in block 0, the
   * header at the start of block 1 followed by zeros, and the entry array
   * from block 2.
   */
  lemma TableBytesLayout(mbr: seq<byte>, h: Header, es: seq<Entry>)
    requires |mbr| == BlockSize && WellFormedHeader(h) && |es| == EntryCount && AllWellFormed(es)
    ensures var r := TableBytes(mbr, h, es);
            && r[..BlockSize] == mbr
            && r[BlockSize..BlockSize + HeaderSize] == EncodeHeader(h)
            && r[BlockSize + HeaderSize..2 * BlockSize] == Zeros(BlockSize - HeaderSize)
            && r[2 * BlockSize..] == EncodeEntries(es)
  {
    var header, pad, entries := EncodeHeader(h), Zeros(BlockSize - HeaderSize), EncodeEntries(es);
    var r := mbr + header + pad + entries;
    assert r == TableBytes(mbr, h, es);
    ConcatParts(mbr, header, pad, entries);
  }

  /**
   * Adding a partition to an empty table that has room for it fills slot 0
   * and leaves every other slot empty.
   */
  lemma AddToEmpty(lastLba: u64, first: u64, last: u64, name: seq<byte>, typeUuid: seq<byte>, uniqUuid: seq<byte>)
    requires |typeUuid| == 16 && |uniqUuid| == 16
    requires FirstUsableLba <= first && last <= lastLba
    ensures AddPartition(lastLba, EmptyEntries(), first, last, name, typeUuid, uniqUuid)
            == Success(EmptyEntries()[0 := Filled(EmptyEntry, first, last, name, typeUuid, uniqUuid)])
  {
    var empty := EmptyEntries();
    assert IsFree(empty[0]);
    assert FirstFree(empty) == Some(0);
  }

  /** The in-memory table: protective MBR block, header, and entry array. */
  class PartitionTable {
    var mbr: array<byte>
    var header: Header
    var entries: array<Entry>

    ghost predicate Valid()
      reads this, entries
    {
      && mbr.Length == BlockSize && WellFormedHeader(header)
      && entries.Length == EntryCount && AllWellFormed(entries[..])
    }

    /** A zero-initialised table. */
    constructor()
      ensures Valid() && fresh(mbr) && fresh(entries)
      ensures mbr[..] == Zeros(BlockSize) && header == ZeroHeader && entries[..] == EmptyEntries()
    {
      mbr := new byte[BlockSize](_ => 0);
      header := ZeroHeader;
      entries := new Entry[EntryCount](_ => EmptyEntry);
    }

    /** The table as it is laid out in memory and on disk. */
    function Image(): (r: seq<byte>)
      requires Valid()
      reads this, mbr, entries
    {
      TableBytes(mbr[..], header, entries[..])
    }

    /**
     * Adds a partition in the first free slot, as `AddPartition` describes:
     * on failure no entry changes; the header never changes.
     */
    method AddPtn(first: u64, last: u64, name: seq<byte>, typeUuid: seq<byte>, uniqUuid: seq<byte>)
      returns (r: Outcome<PtnError>)
      requires Valid() && |typeUuid| == 16 && |uniqUuid| == 16
      modifies entries
      ensures Valid()
      ensures match AddPartition(header.lastLba, old(entries[..]), first, last, name, typeUuid, uniqUuid)
        case Success(es) => r == Pass && entries[..] == es
        case Failure(e) => r == Fail(e) && entries[..] == old(entries[..])
    {
      if first < FirstUsableLba {
        return Fail(OverlapsTable);
      }
      if last > header.lastLba {
        return Fail(DoesNotFit);
      }
      var n := 0;
      while n < EntryCount
        invariant n <= EntryCount
        invariant forall j :: 0 <= j < n ==> !IsFree(entries[j])
      {
        if !IsFree(entries[n]) {
          n := n + 1;
          continue;
        }
        var e := entries[n];
        var units := e.name;
        var i := 0;
        while i < NameLength && i < |name| && name[i] != 0
          invariant i <= NameLength && i <= Strlen(name)
          invariant |units| == NameLength
          invariant forall j :: 0 <= j < i ==> units[j] == CharUnit(name[j])
          invariant forall j :: i <= j < NameLength ==> units[j] == e.name[j]
        {
          units := units[i := CharUnit(name[i])];
          i := i + 1;
        }
        assert units == CopyName(e.name, name);
        entries[n] := e.(typeUuid := typeUuid, uniqUuid := uniqUuid, firstLba := first, lastLba := last,
                         name := units);
        return Pass;
      }
      return Fail(TableFull);
    }

    /**
     * Brings both checksums up to date: the entry-array checksum first, then
     * the header checksum over the header with its checksum field zeroed.
     */
    method UpdateCrc32()
      requires Valid()
      modifies this
      ensures Valid() && mbr == old(mbr) && entries == old(entries)
      ensures header == Checksummed(old(header), entries[..])
    {
      header := header.(entriesCrc32 := Crc32Value(EncodeEntries(entries[..])));
      header := header.(crc32 := 0);
      header := header.(crc32 := Crc32Value(EncodeHeader(header)));
    }
  }
}
