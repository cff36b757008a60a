/**
 * The file allocation table the formatter writes (section 4 of the Microsoft
 * FAT32 File System Specification): two reserved entries, one single-cluster
 * chain for each of the three directories (clusters 2, 3 and 4), and one
 * contiguous chain for the kernel starting at cluster 5. Every other entry is
 * zero, that is, free.
 */
module Fat32Table {
  import opened Bytes
  import opened Wrappers
  import opened Fat32Geometry

  /** Entry 0 holds the media byte 0xF8 in its low bits; the formatter puts the same value in entry 2. */
  const MediaEntry: u32 := 0x0FFF_FFF8
  /** The end-of-chain mark. */
  const EndOfChain: u32 := 0x0FFF_FFFF
  /** Clusters of the root, `EFI` and `BOOT` directories. */
  const RootDirCluster: nat := 2
  const EfiDirCluster: nat := 3
  const BootDirCluster: nat := 4
  /** The kernel's first cluster. */
  const KernelCluster: nat := 5
  /** Cluster numbers stay below 0x0FFFFFF7 (the bad-cluster mark), so a link is never read as an end mark. */
  const ClusterLimit: nat := 0x0FFF_FFF7

  /** Entry `i` of the FAT for a kernel of `kc` clusters, as the formatter fills it. */
  function FatEntry(i: nat, kc: nat): nat
  {
    if i == 0 || i == 2 then MediaEntry
    else if i == 1 || i == 3 || i == 4 then EndOfChain
    else if KernelCluster <= i < KernelCluster + kc - 1 then i + 1
    else if kc > 0 && i == KernelCluster + kc - 1 then EndOfChain
    else 0
  }

  /** The whole table of `entries` entries. */
  function FatTable(entries: nat, kc: nat): (fat: seq<u32>)
    requires entries < TwoTo32
    ensures |fat| == entries
    ensures forall i :: 0 <= i < entries ==> fat[i] == FatEntry(i, kc)
  {
    seq(entries, i requires 0 <= i < entries => FatEntry(i, kc) as u32)
  }

  /**
   * The FAT buffer the formatter allocates zeroed (`calloc`) and then fills:
   * the five fixed entries, the links `i -> i + 1` of the kernel chain in a
   * loop, and the kernel's end-of-chain mark.
   */
  method BuildFat(sectorsPerFat: nat, kernelClusters: nat) returns (fat: seq<u32>)
    requires 1 <= kernelClusters
    requires KernelCluster + kernelClusters <= sectorsPerFat * FatEntriesPerSector < TwoTo32
    ensures fat == FatTable(sectorsPerFat * FatEntriesPerSector, kernelClusters)
  {
    var n := sectorsPerFat * FatEntriesPerSector;
    var a := new u32[n](_ => 0);
    a[0] := MediaEntry;
    a[1] := EndOfChain;
    a[2] := MediaEntry;
    a[3] := EndOfChain;
    a[4] := EndOfChain;
    var i := 0;
    while i < kernelClusters - 1
      invariant 0 <= i <= kernelClusters - 1
      invariant forall j :: 0 <= j < 5 ==> a[j] == FatEntry(j, kernelClusters)
      invariant forall j :: 5 <= j < n ==> a[j] == if j < 5 + i then j + 1 else 0
    {
      a[i + 5] := (i + 6) as u32;
      i := i + 1;
    }
    a[5 + kernelClusters - 1] := EndOfChain;
    fat := a[..];
  }

  /**
   * An entry that ends a chain: the top four bits are reserved, and any value
   * from 0x0FFFFFF8 up in the low 28 bits marks the last cluster of a file.
   */
  predicate IsEndOfChain(v: u32)
  {
    v % 0x1000_0000 >= 0x0FFF_FFF8
  }

  /**
   * The clusters of the chain that starts at cluster `c`, following at most
   * `fuel` links; `None` when the chain reaches a free or reserved entry, runs
   * off the table or is longer than `fuel`.
   */
  function Chain(fat: seq<u32>, c: nat, fuel: nat): Option<seq<nat>>
    decreases fuel
  {
    if c < 2 || c >= |fat| || fuel == 0 then None
    else if IsEndOfChain(fat[c]) then Some([c])
    else match Chain(fat, fat[c] as nat, fuel - 1)
      case None => None
      case Some(rest) => Some([c] + rest)
  }

  /** The tail of the kernel chain from its `j`-th cluster on. */
  lemma {:induction false} KernelChainFrom(entries: nat, kc: nat, j: nat)
    requires 1 <= kc && KernelCluster + kc <= entries <= ClusterLimit && j < kc
    ensures Chain(FatTable(entries, kc), KernelCluster + j, kc - j)
            == Some(seq(kc - j, k => KernelCluster + j + k))
    decreases kc - j
  {
    var fat := FatTable(entries, kc);
    var c := KernelCluster + j;
    if j == kc - 1 {
      assert fat[c] == EndOfChain;
      assert seq(kc - j, k => KernelCluster + j + k) == [c];
    } else {
      assert fat[c] == c + 1 && !IsEndOfChain(fat[c]);
      KernelChainFrom(entries, kc, j + 1);
      assert [c] + seq(kc - j - 1, k => KernelCluster + j + 1 + k) == seq(kc - j, k => KernelCluster + j + k);
    }
  }

  /**
   * What the table means: the two reserved entries, a one-cluster chain for
   * each directory, a chain for the kernel that runs through the `kc`
   * clusters from 5 on in order and ends there, and every later entry free.
   */
  lemma FatTableLayout(entries: nat, kc: nat)
    requires 1 <= kc && KernelCluster + kc <= entries <= ClusterLimit
    ensures var fat := FatTable(entries, kc);
      && fat[0] == MediaEntry && fat[1] == EndOfChain
      && Chain(fat, RootDirCluster, 1) == Some([RootDirCluster])
      && Chain(fat, EfiDirCluster, 1) == Some([EfiDirCluster])
      && Chain(fat, BootDirCluster, 1) == Some([BootDirCluster])
      && Chain(fat, KernelCluster, kc) == Some(seq(kc, k => KernelCluster + k))
      && (forall i :: KernelCluster + kc <= i < entries ==> fat[i] == 0)
  {
    KernelChainFrom(entries, kc, 0);
  }

  /** The table as bytes: each entry four bytes, little-endian, in order. */
  function FatBytes(fat: seq<u32>): (r: seq<byte>)
    ensures |r| == 4 * |fat|
    ensures forall i :: 0 <= i < |fat| ==> r[4 * i..4 * i + 4] == LE32(fat[i])
    decreases |fat|
  {
    if fat == [] then []
    else
      var front := FatBytes(fat[..|fat| - 1]);
      var r := front + LE32(fat[|fat| - 1]);
      assert forall i :: 0 <= i < |fat| - 1 ==> r[4 * i..4 * i + 4] == front[4 * i..4 * i + 4];
      r
  }

  /** Entry `i` read back from the bytes of a table. */
  function ReadFatEntry(bytes: seq<byte>, i: nat): (v: u32)
    requires 4 * i + 4 <= |bytes|
    ensures LE32(v) == bytes[4 * i..4 * i + 4]
  {
    ReadLE32(bytes[4 * i..4 * i + 4])
  }

  /** Reading any entry back from the serialised table gives the entry. */
  lemma FatBytesRoundTrip(fat: seq<u32>, i: nat)
    requires i < |fat|
    ensures ReadFatEntry(FatBytes(fat), i) == fat[i]
  {
    var v := ReadFatEntry(FatBytes(fat), i);
    assert LE32(v) == LE32(fat[i]);
    LE32Value(v);
    LE32Value(fat[i]);
  }

  /** The table read back from its bytes, four bytes to an entry. */
  function DecodeFat(bytes: seq<byte>): (fat: seq<u32>)
    requires |bytes| % 4 == 0
    ensures |fat| == |bytes| / 4
    ensures forall i :: 0 <= i < |fat| ==> fat[i] == ReadFatEntry(bytes, i)
  {
    seq(|bytes| / 4, i requires 0 <= i < |bytes| / 4 => ReadFatEntry(bytes, i))
  }

  /** Serialising a table and reading it back gives the table. */
  lemma DecodeFatBytes(fat: seq<u32>)
    ensures DecodeFat(FatBytes(fat)) == fat
  {
    forall i | 0 <= i < |fat|
      ensures DecodeFat(FatBytes(fat))[i] == fat[i]
    {
      FatBytesRoundTrip(fat, i);
    }
  }
}
