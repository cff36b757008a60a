# efimaker: FAT32 EFI system partition and GUID partition table, modelled in Dafny

efimaker builds a bootable UEFI disk image. It has two parts:

- `fat32_make_efi` formats a FAT32 volume inside the image and stores a kernel in it as `/EFI/BOOT/BOOTX64.EFI`.
- `gpt_write_efi` writes a GUID partition table that declares that volume as the EFI system partition. It writes a protective MBR, a primary header and entry array, and a backup entry array and backup header at the end of the device.

The model covers both parts. Each on-disk record (the boot sector with its BIOS parameter block, FSInfo, directory records, the FAT, the GPT header and entries) is a datatype. It is serialised field by field, little-endian, at the offsets fixed by the Microsoft FAT32 File System Specification and by section 5.3 of the UEFI Specification. A decoder reads the fields back.

The image is an `array<byte>`. A positioned write (`pwrite`) is `ImageSink.PWrite`. It splices bytes in at an offset, or fails and changes nothing when they would not fit. Each writing routine is a method whose postcondition does three things. It says the routine succeeds exactly when all of its writes fit. On success, it says the image is the old image with a list of writes applied in order (`ApplyWrites`). On failure, it says the routine stopped at the first write that does not fit, with every earlier write made (`ImageSink.Stopped`). Lemmas then show what a reader finds in an image after those writes.

The in-memory partition table (`struct ptable`) is a class, `GptTable.PartitionTable`, whose methods `InitMbr`, `AddPtn` and `UpdateCrc32` change it in place. The FAT is built in a zeroed array by a loop, as the source does. CRC-32 is a specification function, reflected polynomial 0xEDB88320, with its standard check value proved.

Files:

- `bytes.dfy`: integer widths, little-endian coding, `strlen`
- `crc32.dfy`: CRC-32
- `image_sink.dfy`: writes to the image
- `fat32_geometry.dfy`: cluster counts, FAT size and offsets
- `fat32_records.dfy`: the boot sector, FSInfo and directory records
- `fat32_table.dfy`: the FAT and its chains
- `fat32.dfy`: the formatter's writes
- `fat32_image.dfy`: what the formatted image holds
- `gpt_records.dfy`: the MBR record, the GPT header and entries, and the checksums
- `gpt_table.dfy`: the in-memory table
- `gpt.dfy`: building and writing the table

The model follows the code, including where it departs from the UEFI Specification or leaves a case unchecked:

- A partition slot counts as free when the first byte of its type GUID is zero (`src/gpt.c:143`). Section 5.3.3 of the UEFI Specification marks an unused entry by an all-zero type GUID.
- The backup header keeps `entries_lba = 2`, as the code leaves it (`src/gpt.c:207-208`). Section 5.3.2 of the UEFI Specification wants it to point at the backup entry array.
- `fat32_make_efi` checks the kernel's size (`src/fat32.c:159`) and the cluster count (`src/fat32.c:174-178`), but not whether the kernel fits the room left in the partition. A kernel that does not is written past the partition's end (`Fat32.KernelPastPartition`).
- `gpt_write_efi` ignores a refusal from `add_ptn` (`src/gpt.c:196`) and goes on to write a table with no partition in it. The model does the same (`Gpt.PartitionEntriesLayout`).
- An empty kernel is not refused. The chain loop bound `kernel_clusters - 1` then wraps around (`src/fat32.c:234`), so the model requires a non-empty kernel (see `Fat32.MakeEfi` under "Left out").

## Model

| member | source | states |
|---|---|---|
| Fat32Geometry.ClusterOffset | src/fat32.c:85-89 | Cluster 2 begins right after the second FAT. Every cluster offset is a whole number of sectors. |
| Fat32Geometry.ClusterStride | src/fat32.c:85-89 | Consecutive clusters are exactly one cluster size apart, and no cluster begins before cluster 2. |
| Fat32.LayoutBounds | src/fat32.c:85-89 | The partition must lie within the first 2^32 bytes. Given that, the sector count fits 32 bits, the FAT stays below the reserved cluster numbers, and cluster 5 starts before the end of the partition, which is at most 2^32. |
| Fat32.WriteSectors | src/fat32.c:92-99 | Succeeds exactly when the sectors fit the image. On success they are spliced in at `(first_sector + sector) * 512`; otherwise nothing changes. |
| ImageSink.PWrite | src/fat32.c:95-98 | A positioned write succeeds exactly when the bytes fit the image. On success they are spliced in; otherwise the image is unchanged. |
| Fat32.CopyName | src/fat32.c:102-109 | Copies the first `min(strlen(src), maxlen)` bytes to the field with no terminator. Every other byte of the destination is kept. |
| Fat32Records.PaddedName | src/fat32.c:102-109 | An 8.3 field: each byte is the source's byte before its first NUL, else a space. |
| Fat32.NameIntoRecord | src/fat32.c:115-123 | Copying a name over the blank name field of an encoded record gives the encoding of the record with the padded name. |
| Fat32.ExtIntoRecord | src/fat32.c:144-145 | The same for the 3-byte extension field at offset 8. |
| Fat32Records.DirectoryRecord | src/fat32.c:115-123 | A subdirectory record has the padded name, a blank extension, attribute 0x10 and size 0. Its cluster is split into high and low 16-bit halves. |
| Fat32Records.FileRecord | src/fat32.c:137-145 | A file record has the padded name and extension, attribute 0, the given size, and the cluster split into halves. |
| Fat32Records.RecordsPointAt | src/fat32.c:119-120 | Putting a record's two 16-bit cluster halves back together gives the cluster it was made with. |
| Fat32.WriteDirectoryRecord | src/fat32.c:111-130 | Succeeds exactly when the record fits. On success the encoded subdirectory record is at `cluster_offset + 32 * index`; otherwise nothing changes. |
| Fat32.WriteFileRecord | src/fat32.c:132-152 | The same for a file record, with both name and extension copied in. |
| Fat32Records.DirEntryFields | src/fat32.c:59-73 | Each field of the packed 32-byte record is at its fixed offset, little-endian. |
| Fat32Records.DirEntryRoundTrip | src/fat32.c:59-73 | Decoding an encoded directory record gives back the record. |
| Fat32Records.EncodeCommonBpb | src/fat32.c:11-26 | The first 36 bytes of the boot sector hold each common parameter-block field at its offset. |
| Fat32Records.BootSectorRoundTrip | src/fat32.c:11-46 | Decoding an encoded boot sector gives back every field. |
| Fat32Records.BootSectorDescribesGeometry | src/fat32.c:192-213 | The formatter's boot sector reads back with: 512-byte sectors, 32 reserved sectors, two FATs of the computed size, the recorded sector count, root cluster 2, FSInfo in sector 1, backup in sector 6, signature 0x29, the volume id, and 0xAA55. |
| Fat32Records.FsInfoSector | src/fat32.c:215-221 | The FSInfo sector is 512 bytes: "RRaA" at 0, "rrAa" at 484, free count and next-free hint both 0xFFFFFFFF, the trail 00 00 55 AA, and zeros everywhere else. |
| Fat32Geometry.AlignUp | src/fat32.c:188 | The result is the least multiple of `p` that is at least `x`. |
| Fat32Geometry.ComputeGeometry | src/fat32.c:174-188 | Refuses fewer than 65525 clusters (counted as the whole partition's sectors over the cluster size), or clusters over 32 KiB, with the matching error; both directions are stated. Otherwise the geometry is valid, the sector count is rounded down to whole clusters, and the FAT has one entry per cluster while being the smallest whole number of clusters that does. |
| Fat32Geometry.AcceptedBelowFat32 | src/fat32.c:174-178 | A 131050-sector partition passes the cluster check with two-sector clusters, yet its data region holds only 64997 clusters, below the 65525 that section 3.5 of the Microsoft FAT32 File System Specification requires. |
| Fat32Geometry.GeometryArithmetic | src/fat32.c:174-188 | The same rounding bounds, proved for each power-of-two cluster size. |
| Fat32Geometry.KernelClusters | src/fat32.c:190 | The ceiling of size over cluster size: enough clusters, no spare one, and zero only for an empty kernel. |
| Fat32Table.FatTable | src/fat32.c:227-237 | Every entry of the table is `FatEntry` of its index. |
| Fat32Table.BuildFat | src/fat32.c:227-237 | The zeroed buffer, after the fixed entries, the chain loop and the end mark, equals `FatTable`. |
| Fat32Table.KernelChainFrom | src/fat32.c:234-237 | Following the FAT from kernel cluster `5 + j` visits the remaining clusters in order and ends at the end mark. |
| Fat32Table.FatTableLayout | src/fat32.c:227-237 | Entries 0 and 1 are reserved. Each directory is a one-cluster chain. The kernel chain covers clusters 5 to `4 + kc` in order. Every later entry is free. |
| Fat32Table.FatBytes | src/fat32.c:239-240 | Entry `i` sits at bytes `4i..4i+4`, little-endian. |
| Fat32Table.FatBytesRoundTrip | src/fat32.c:239-240 | Reading entry `i` back from the serialised table gives entry `i`. |
| Fat32Table.DecodeFatBytes | src/fat32.c:239-240 | Decoding the serialised table gives the whole table back. |
| Fat32Image.FatImageDecodes | src/fat32.c:239-240 | The FAT bytes the formatter writes decode to its table. |
| Fat32.WriteBootRegion | src/fat32.c:223-225 | Succeeds exactly when the three sector writes fit. On success the image is the old one with boot sector, FSInfo and backup boot sector written in that order. On failure it stopped at the first of them that does not fit, with the earlier ones made. |
| Fat32.WriteFatCopies | src/fat32.c:227-240 | Succeeds exactly when both FAT copies fit. On success both are written, one after the other. On failure it stopped at the first copy that does not fit. |
| Fat32.WriteRootDir | src/fat32.c:243 | Succeeds exactly when the root directory's `EFI` record fits; on success it is written, and on failure the image is unchanged. |
| Fat32.WriteEfiDir | src/fat32.c:246-248 | The same for `.`, `..` and `BOOT` in cluster 3; on failure it stopped at the first record that does not fit, with the earlier ones made. |
| Fat32.WriteBootDir | src/fat32.c:251-253 | The same for `.`, `..` and `BOOTX64.EFI` in cluster 4, with the same failure case. |
| Fat32.WriteAll | src/fat32.c:223-258 | It succeeds exactly when all thirteen writes fit, and then the image is the old one with them applied in order. On failure it stopped at the first write that does not fit, with every earlier write made. |
| Fat32.MakeEfi | src/fat32.c:155-258 | A kernel over 0xFFFFFFFF bytes, too few clusters or too large a cluster is refused with its error, and the image is untouched. Otherwise it succeeds exactly when every write fits, and then the image has them applied in order. A failure is a write failure, and the image holds every write before the first that does not fit. |
| Fat32.KernelPastPartition | src/fat32.c:255-258 | A 131050-sector partition at sector 2048 accepts a kernel of 66560000 bytes, whose chain fits the FAT, yet the kernel's last byte lies past the partition's end. |
| Fat32Image.BootRegionLayout | src/fat32.c:223-225 | Sectors 0, 1 and 6 are written in increasing order and end before the first FAT. |
| Fat32Image.FatCopyLayout | src/fat32.c:239-240 | The two FAT copies hold the same bytes and sit back to back; the second ends where cluster 2 begins. |
| Fat32Image.DirectoryLayout | src/fat32.c:242-253 | The directories lie in clusters 2, 3 and 4, each in order inside its own cluster, before cluster 5. |
| Fat32Image.EfiWritesInOrder | src/fat32.c:223-258 | All thirteen writes are in increasing order, so none overwrites another. |
| Fat32Image.BootRegionWritten | src/fat32.c:223-225 | In the formatted image, sectors 0 and 6 decode to the formatter's boot sector and sector 1 is the FSInfo sector. |
| Fat32Image.FatCopiesWritten | src/fat32.c:239-240 | In the formatted image, both FAT copies are the formatter's FAT bytes. |
| Fat32Image.RootDirWritten | src/fat32.c:243 | The root directory's first record decodes to `EFI` at cluster 3. |
| Fat32Image.EfiDirWritten | src/fat32.c:246-248 | The `EFI` directory's records decode to `.` (cluster 3), `..` (cluster 0) and `BOOT` (cluster 4). |
| Fat32Image.BootDirWritten | src/fat32.c:251-253 | The `BOOT` directory's records decode to `.` (cluster 4), `..` (cluster 3), and `BOOTX64.EFI` with the kernel's size at cluster 5. |
| Fat32Image.KernelWritten | src/fat32.c:255-258 | The kernel's bytes are found unchanged from the start of cluster 5. |
| ImageSink.ReadBackInOrder | src/fat32.c:223-258 | When writes are in increasing order, each one can be read back from the final image. |
| ImageSink.StoppedUnfit | src/fat32.c:223-258 | A run of writes that stopped did not fit as a whole. |
| ImageSink.StopOne | src/fat32.c:243 | A single write that does not fit stops the run before it, with the image unchanged. |
| ImageSink.StopTwo | src/fat32.c:239-240 | Two writes stop at the first that does not fit, with the earlier one made. |
| ImageSink.StopThree | src/gpt.c:202-221 | Three writes stop at the first that does not fit, with the earlier ones made. |
| ImageSink.StoppedConcat | src/fat32.c:223-258 | A run that stops within one group stops at the same write when more groups follow. |
| ImageSink.StoppedAfter | src/fat32.c:223-258 | A run that makes all of one group and then stops within the next stops within the two together, at the matching position. |
| ImageSink.StoppedTail | src/fat32.c:223-258 | A run that stops within one group stops at the same write when four more groups follow. |
| ImageSink.ReadBackThree | src/gpt.c:202-221 | Three non-overlapping writes all fit and each can be read back after all three. |
| GptRecords.ProtectiveRecordFields | src/gpt.c:103-118 | The MBR partition record has type 0xEE, starts at block 1 and spans the given block count. |
| GptRecords.WithProtectiveRecord | src/gpt.c:100-122 | The block holds the protective record at 0x1BE and 0x55 0xAA at 0x1FE. Every other byte is kept. |
| GptTable.InitMbr | src/gpt.c:100-122 | The MBR array afterwards equals `WithProtectiveRecord` of its old contents. |
| Gpt.MbrBlockFields | src/gpt.c:182 | The protective MBR of a device of `size` blocks declares type 0xEE from block 1 over `size - 1` blocks, carries the boot signature, and is zero elsewhere. |
| GptTable.FirstFree | src/gpt.c:142-144 | Returns the first slot whose type GUID starts with a zero byte, or none exactly when no slot is free. |
| GptTable.CharUnit | src/gpt.c:149-150 | A name byte becomes a 16-bit unit through signed `char`: bytes below 0x80 keep their value, and higher ones are sign-extended. |
| GptTable.CopiedLength | src/gpt.c:149 | At most 36 characters are copied, stopping at the first NUL. |
| GptTable.CopyName | src/gpt.c:149-150 | The copied units are the converted characters; units past them keep their value. |
| GptTable.AddPartition | src/gpt.c:125-155 | Each refusal holds if and only if its condition holds: start before block 34, end past the last usable block, or no free slot. On success only the first free slot changes, and it is filled with the given values. |
| GptTable.FilledFields | src/gpt.c:145-148 | A filled slot holds the given type, unique GUID and block range. It keeps its attributes, and is no longer free unless the type GUID starts with 0. |
| GptTable.NameReadsBack | src/gpt.c:149-150 | A 7-bit name shorter than 36 characters, copied into an empty slot, reads back as itself. |
| GptTable.AddToEmpty | src/gpt.c:142-151 | Adding a partition that fits to an empty table fills slot 0. |
| GptTable.PartitionTable.AddPtn | src/gpt.c:125-155 | Changes the entries exactly as `AddPartition` describes and returns its error on refusal; the header never changes. |
| GptTable.PartitionTable.constructor | src/gpt.c:179 | The table starts all zero: zero MBR, zero header, empty entries. |
| GptTable.PartitionTable.UpdateCrc32 | src/gpt.c:157-169 | The header afterwards is `Checksummed` of the old header. |
| GptRecords.Checksummed | src/gpt.c:159-169 | Only the two checksum fields change. |
| GptRecords.ChecksummedValid | src/gpt.c:159-169 | After the update, the entry-array checksum is the CRC-32 of the serialised entries. The header checksum is the CRC-32 of the header with that field zeroed. |
| GptRecords.ChecksummedUnique | src/gpt.c:159-169 | The checksummed header is the only header, equal outside the checksum fields, that a reader accepts. |
| GptRecords.ChecksummedIdempotent | src/gpt.c:207-209 | Updating the checksums twice changes nothing more. |
| Crc32.Streaming | src/gpt.c:157 | Checksumming a buffer in two calls equals checksumming it in one. |
| Crc32.CheckValue | src/gpt.c:157 | The CRC-32 of "123456789" is 0xCBF43926. |
| GptRecords.HeaderRoundTrip | src/gpt.c:41-62 | Decoding the packed 92-byte header gives back every field. |
| GptRecords.EncodeEntry | src/gpt.c:64-71 | Each entry field is at its offset in the 128 bytes, little-endian. |
| GptRecords.NameRoundTrip | src/gpt.c:70 | Decoding a serialised name gives back its units. |
| GptRecords.EntryRoundTrip | src/gpt.c:64-71 | Decoding an encoded entry gives back the entry. |
| GptRecords.EntriesRoundTrip | src/gpt.c:79 | Decoding the serialised entry array gives back the array. |
| GptTable.TableBytesLayout | src/gpt.c:73-80 | The table's bytes are the MBR in block 0, the header at the start of block 1 followed by zeros, and the entries from block 2. |
| Gpt.TableIn | src/gpt.c:73-80 | Bytes that begin with a table decode back to its MBR, header and entries. |
| Gpt.PrimaryHeaderFields | src/gpt.c:182-200 | The primary header has signature "EFI PART" and revision 1.0. It is 92 bytes, sits in block 1, and names the last block as its backup. Its usable range is the partition's, with 128 entries of 128 bytes from block 2, the disk GUID, and checksums a reader accepts. |
| Gpt.PartitionEntriesLayout | src/gpt.c:196-198 | If the partition starts past the table, entry 0 is the EFI system partition with the given GUIDs and range, named "EFI SYSTEM PARTITION", and every other entry is empty. Otherwise all entries are empty. |
| Gpt.EspNameText | src/gpt.c:197 | The partition name is 20 seven-bit characters with no NUL. |
| Gpt.BuildTable | src/gpt.c:179-200 | The table before the first write holds the protective MBR, the primary header and the entries above. |
| Gpt.BackupHeaderSwapped | src/gpt.c:207-209 | The backup header is the primary with its own block and backup block swapped and its checksum recomputed. A reader accepts both checksums. |
| Gpt.BackupHeaderOffset | src/gpt.c:211-212 | The backup header goes in the last block. |
| Gpt.BackupEntriesOffset | src/gpt.h:5 | The backup entry array ends where the backup header's block begins. Once the device has at least 67 blocks, it starts at or after the end of the primary table. |
| Gpt.WriteTable | src/gpt.c:202-221 | It succeeds exactly when all three writes fit, and then the image is the old one with the table, the backup header and the backup entries written in order. On failure it stopped at the write its error names, with the earlier ones made. The table keeps its MBR and entries; its header is unchanged if the first write fails and is the backup header otherwise. |
| Gpt.GptWriteEfi | src/gpt.c:174-224 | The same image outcome, success and failure, for the table this device and partition produce. |
| Gpt.LayoutReadsBack | src/gpt.c:202-221 | A table at 0, an entry array and then a header at the end, with no overlap, all fit and each can be read back. |
| Gpt.TableReadsBack | src/gpt.c:202-221 | On a device of at least 67 blocks, the written image holds the whole table in its first 34 blocks, the entry array in the 32 blocks before the last, and the backup header in the last block. |
| Bytes.LE32Value | src/gpt.c:118 | Reading back the four little-endian bytes of a value gives the value. |

## Left out

- Input and output. A `pwrite` that fails is modelled as a write that does not fit the image. The C code prints a message and exits; the model returns a failure outcome and stops.
- Randomness is left out. The volume serial (`rand()`) and the two GUIDs (`getrandom`) are parameters.
- zlib is a foreign library. Its `crc32` is replaced by the CRC-32 specification function and its standard check value.
- `main` is not part of this model. That covers the image file, `ftruncate`, partition placement at sector 2048, and formatting only when a kernel path is given. `gpt.h` contributes only the constant 33.
- `fat32.h` and `main` declare and pass an `arch` argument that the definition of `fat32_make_efi` in `src/fat32.c` does not take. The model follows `src/fat32.c`, so the kernel is always named `BOOTX64.EFI`; an architecture-dependent name is not modelled.
- Fat32.MakeEfi: its precondition requires the whole partition to end within the first 2^32 bytes of the image. This is more than the code needs. The C offsets are `uint32_t` products `* 512`, and the largest of them, the start of cluster 5, stays below 2^32 for much larger partitions (16773120 sectors at sector 2048, for example). Such larger partitions are not covered by the model.
- Fat32.LayoutBounds: it carries the same 4 GiB precondition as `Fat32.MakeEfi`, for the same reason.
- Fat32.MakeEfi: `KernelFitsFat` requires a non-empty kernel. For an empty one, the C loop bound `kernel_clusters - 1` wraps to 0xFFFFFFFF and writes far past the FAT buffer.
- Fat32.MakeEfi: `KernelFitsFat` also requires the kernel's chain to fit the FAT buffer. The C code does not check this, and a longer chain writes past the end of the buffer. A kernel whose chain fits is still not checked against the room in the data region, which is smaller; `Fat32.KernelPastPartition` shows such a kernel written past the partition's end.
- Fat32Geometry.ComputeGeometry: the 65525-cluster check counts the whole partition, reserved sectors and FATs included, as the code does. Section 3.5 of the Microsoft FAT32 File System Specification counts only data clusters, so partitions of 131050 to 132117 sectors pass with too few data clusters (`Fat32Geometry.AcceptedBelowFat32`).
- Fat32Geometry.AlignUp: it is stated with division, not the C bit mask `& ~(p - 1)`. The two agree for the powers of two it is used with, but that identity is not part of the model.
- Fat32.MakeEfi: the cluster size is fixed at two sectors, as in the source. `ComputeGeometry` is stated for every power-of-two cluster size up to 128 sectors.
- Gpt.GptWriteEfi: its precondition requires at least 33 blocks and byte offsets within 32 bits. For smaller or larger devices the C block and offset arithmetic wraps around.
- Gpt.TableReadsBack: it requires at least 67 blocks. On a device of 33 to 66 blocks the backup entry array overlaps the primary table, and the later write wins.
- Gpt.TableReadsBack: it states the read-back at byte level. Decoding is stated by `Gpt.TableIn`, `GptRecords.HeaderRoundTrip` and `GptRecords.EntriesRoundTrip`.
- The return value of `add_ptn` is ignored by its caller. The model keeps the refusal in `GptTable.PartitionTable.AddPtn` and leaves the entries empty, as the code does.
- The C code copies structures to disk as raw memory on a little-endian host. The model serialises each field explicitly, little-endian, at the offsets of the packed structures.
- `char` is taken to be signed, as on x86-64. This matters only for name bytes from 0x80 up.
