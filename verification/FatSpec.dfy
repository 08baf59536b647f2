/** FAT32 volumes as the Microsoft FAT Specification of August 2005 describes them, in terms of the
    bytes alone: offsets and constants are numerals, parameters are read from the image. */
module FatSpec {
  import opened Bytes

  // ---------------------------------------------------------------- a fresh volume

  /** Sections 3.1 and 3.3: the boot sector. */
  ghost predicate BootSector(img: seq<byte>, n: nat, bps: nat, spc: nat, isFixed: bool) {
    && |img| >= 512
    && Spells(img[3..11], "mkfs.fat") && Spells(img[71..82], "NO NAME    ") && Spells(img[82..90], "FAT32   ")
    && img[0] == 0xeb && img[1] == 0 && img[2] == 0x90 && img[21] == (if isFixed then 0xf8 else 0xf0)
    && img[64] == 0x80 && img[66] == 0x29 && Load(img, 67, 4) == 0xe579_2f15 && Load(img, 510, 2) == 0xaa55
    && Geometry(img, n, bps, spc)
    && Load(img, 17, 2) == 0 && Load(img, 19, 2) == 0 && Load(img, 22, 2) == 0 && Load(img, 24, 2) == 32
    && Load(img, 26, 2) == 8 && Load(img, 28, 4) == 0 && Load(img, 40, 2) == 0 && Load(img, 42, 2) == 0
    && (forall i :: 52 <= i < 64 ==> img[i] == 0) && img[65] == 0 && forall i :: 90 <= i < 510 ==> img[i] == 0
  }

  /** The members a reader needs: eight reserved sectors, two tables, root directory in cluster 2,
      information in sector 1, backup of the boot sector in sector 6. */
  ghost predicate Geometry(img: seq<byte>, n: nat, bps: nat, spc: nat) {
    && |img| >= 512
    && Load(img, 11, 2) == bps && Load(img, 13, 1) == spc && Load(img, 14, 2) == 8 && Load(img, 16, 1) == 2
    && Load(img, 32, 4) == n && Load(img, 44, 4) == 2 && Load(img, 48, 2) == 1 && Load(img, 50, 2) == 6
  }

  /** Section 5: the information sector at `a`. */
  ghost predicate InfoSector(img: seq<byte>, a: nat, free: int, next: nat) {
    && a + 512 <= |img|
    && Load(img, a, 4) == 0x4161_5252 && Load(img, a + 484, 4) == 0x6141_7272 && Load(img, a + 508, 4) == 0xaa55_0000
    && Load(img, a + 488, 4) == free && Load(img, a + 492, 4) == next
  }

  /** Section 4: a table with the media descriptor, the clean flags and a root directory of one cluster. */
  ghost predicate FreshTable(img: seq<byte>, a: nat, size: nat, isFixed: bool) {
    && 12 <= size && a + size <= |img|
    && Load(img, a, 4) == (if isFixed then 0xff_fff8 else 0xff_fff0)
    && Load(img, a + 4, 4) == 0x0c00_0000 && Load(img, a + 8, 4) == 0xffff_ffff
    && Empty(img, a + 12, a + size)
  }

  /** First byte of sector `k`. */
  function At(k: nat, bps: nat): nat { k * bps }

  /** The volume right after formatting: boot sector, the information sector that it names, the copies
      in the sectors that it names, both tables and an empty root directory. */
  ghost predicate FreshVolume(img: seq<byte>, n: nat, bps: nat, spc: nat, isFixed: bool) {
    && BootSector(img, n, bps, spc, isFixed) && |img| == n * bps && spc > 0 && JustEnough(Load(img, 36, 4), n, bps, spc)
    && FreshParts(img, bps, spc, isFixed, Load(img, 36, 4), Load(img, 48, 2), Load(img, 50, 2))
  }

  /** Tables of `t` sectors, information and backup in the sectors given. */
  ghost predicate FreshParts(img: seq<byte>, bps: nat, spc: nat, isFixed: bool, t: nat, info: nat, back: nat) {
    && InfoSector(img, At(info, bps), FirstFree(t, bps), 3)
    && SameSector(img, At(back, bps), 0) && SameSector(img, At(back + 1, bps), At(info, bps))
    && FreshTable(img, At(8, bps), At(t, bps), isFixed) && FreshTable(img, At(8 + t, bps), At(t, bps), isFixed)
    && Empty(img, At(8 + 2 * t, bps), At(8 + 2 * t + spc, bps))
  }

  /** A table of `t` sectors is just as long as needed for an entry for each cluster. */
  predicate JustEnough(t: nat, n: nat, bps: nat, spc: nat)
    requires spc > 0
  {
    (t - 1) * bps < 4 * (n / spc) <= t * bps
  }

  /** The entries of both tables, less the three in use. */
  function FirstFree(t: nat, bps: nat): int { 2 * t * (bps / 4) - 3 }

  ghost predicate SameSector(img: seq<byte>, a: nat, b: nat) {
    a + 512 <= |img| && b + 512 <= |img| && img[a..a + 512] == img[b..b + 512]
  }

  ghost predicate Empty(img: seq<byte>, a: nat, b: nat) { b <= |img| && forall i :: a <= i < b ==> img[i] == 0 }

  /** What formatting may change: four structures of 512 bytes, the tables, the root directory. */
  predicate Written(i: nat, bps: nat, t: nat, spc: nat) {
    || i < 512 || At(1, bps) <= i < At(1, bps) + 512 || At(6, bps) <= i < At(6, bps) + 512
    || At(7, bps) <= i < At(7, bps) + 512 || At(8, bps) <= i < At(8 + 2 * t + spc, bps)
  }

  // ---------------------------------------------------------------- reading files

  /** First sector of the data region (section 3.5). */
  function FirstData(img: seq<byte>): nat
    requires |img| >= 512
  {
    Load(img, 14, 2) + Load(img, 16, 1) * Load(img, 36, 4)
  }

  /** First sector of a cluster. */
  function SectorOf(img: seq<byte>, c: nat): nat
    requires |img| >= 512 && c >= 2
  {
    (c - 2) * Load(img, 13, 1) + FirstData(img)
  }

  /** Bytes in a cluster. */
  function ClusterSize(img: seq<byte>): nat
    requires |img| >= 512
  {
    Load(img, 11, 2) * Load(img, 13, 1)
  }

  /** The low 28 bits of a table entry. */
  function Link(img: seq<byte>, c: nat): nat
    requires |img| >= 512
  {
    var a := Load(img, 14, 2) * Load(img, 11, 2) + 4 * c;
    if a + 4 <= |img| then Load(img, a, 4) % 0x1000_0000 else 0
  }

  /** The `k`-th cluster of the chain that starts at `c`. */
  function Nth(img: seq<byte>, c: nat, k: nat): nat
    requires |img| >= 512
  {
    if k == 0 then c else Link(img, Nth(img, c, k - 1))
  }

  /** Where entry `i` of the root directory starts. */
  function EntryAt(img: seq<byte>, i: nat): nat
    requires |img| >= 512
  {
    var root := Load(img, 44, 4);
    (if root >= 2 then At(SectorOf(img, root), Load(img, 11, 2)) else 0) + 32 * i
  }

  /** First cluster and size that entry `i` records. */
  function Start(img: seq<byte>, i: nat): nat
    requires |img| >= 512 && EntryAt(img, i) + 32 <= |img|
  {
    Load(img, EntryAt(img, i) + 20, 2) * 0x1_0000 + Load(img, EntryAt(img, i) + 26, 2)
  }

  function FileSize(img: seq<byte>, i: nat): nat
    requires |img| >= 512 && EntryAt(img, i) + 32 <= |img|
  {
    Load(img, EntryAt(img, i) + 28, 4)
  }

  /** Section 6: name, attributes, and the moment 21 February 1995, 08:30:25 as creation, access and
      write time. */
  ghost predicate Listed(img: seq<byte>, i: nat, name: seq<byte>, attr: byte) {
    && |img| >= 512 && |name| == 11
    && var a := EntryAt(img, i);
       && a + 32 <= |img|
       && img[a..a + 11] == name && img[a + 11] == attr
       && img[a + 12] == 0 && img[a + 13] == 42
       && Load(img, a + 14, 2) == Load(img, a + 22, 2) == 8 * 0x800 + 30 * 0x20 + 12
       && Load(img, a + 16, 2) == Load(img, a + 18, 2) == Load(img, a + 24, 2) == 15 * 0x200 + 2 * 0x20 + 21
  }

  /** Clusters that `size` bytes need; an empty file has one too. */
  function Needed(img: seq<byte>, size: nat): nat
    requires |img| >= 512 && ClusterSize(img) > 0
  {
    if size == 0 then 1 else (size + ClusterSize(img) - 1) / ClusterSize(img)
  }

  /** Byte `k` of the chain from `c` on. */
  ghost predicate ByteIs(img: seq<byte>, c: nat, k: nat, b: byte) {
    && |img| >= 512 && ClusterSize(img) > 0
    && var m, j := ClusterSize(img), k / ClusterSize(img);
       && Nth(img, c, j) >= 2
       && var a := At(SectorOf(img, Nth(img, c, j)), Load(img, 11, 2)) + k % m;
          a < |img| && img[a] == b
  }

  /** The chain of entry `i` has just the clusters needed and then an end mark; its bytes are the file's and,
      from the end of a file that is not empty to the end of its last cluster, zeros. */
  ghost predicate Holds(img: seq<byte>, i: nat, data: seq<byte>) {
    && |img| >= 512 && EntryAt(img, i) + 32 <= |img| && FileSize(img, i) == |data| && ClusterSize(img) > 0
    && var c, n, m := Start(img, i), Needed(img, |data|), ClusterSize(img);
       && (forall j: nat :: j < n ==> 2 <= Nth(img, c, j) < 0x0fff_fff8) && Nth(img, c, n) >= 0x0fff_fff8
       && (forall k: nat :: k < |data| ==> ByteIs(img, c, k, data[k]))
       && (forall k: nat :: |data| <= k && data != [] && k < n * m ==> ByteIs(img, c, k, 0))
  }

  /** Whole clusters in the data region, and the number that the information sector gives as the next free one. */
  function Clusters(img: seq<byte>): int
    requires |img| >= 512 && Load(img, 13, 1) > 0
  {
    (Load(img, 32, 4) - FirstData(img)) / Load(img, 13, 1)
  }

  function NextFree(img: seq<byte>): nat
    requires |img| >= 512 && Load(img, 11, 2) + 512 <= |img|
  {
    Load(img, Load(img, 11, 2) + 492, 4)
  }

  function FreeCount(img: seq<byte>): nat
    requires |img| >= 512 && Load(img, 11, 2) + 512 <= |img|
  {
    Load(img, Load(img, 11, 2) + 488, 4)
  }

  /** An entry of the root directory whose name starts with a zero byte. */
  ghost predicate FreeEntry(img: seq<byte>) {
    && |img| >= 512
    && exists i: nat :: 32 * (i + 1) <= ClusterSize(img) && EntryAt(img, i) < |img| && img[EntryAt(img, i)] == 0
  }

  /** What `FAT32Copyin` needs to store `size` bytes. */
  ghost predicate Fits(img: seq<byte>, size: nat) {
    && |img| >= 512 && Load(img, 13, 1) > 0 && Load(img, 11, 2) + 512 <= |img|
    && FreeEntry(img) && NextFree(img) < Clusters(img) && size <= ClusterSize(img) * (Clusters(img) - NextFree(img))
  }

  /** When its assertions fail. */
  ghost predicate Fails(img: seq<byte>, size: nat, readable: bool) {
    && |img| >= 512 && Load(img, 13, 1) > 0 && Load(img, 11, 2) + 512 <= |img|
    && (|| NextFree(img) > Clusters(img)
        || (NextFree(img) == Clusters(img) && size == 0 && FreeEntry(img) && readable))
  }

  /** Files lie one behind the other from cluster 3 on. */
  ghost predicate Placed(img: seq<byte>, i: nat) {
    && |img| >= 512 && ClusterSize(img) > 0 && EntryAt(img, i) + 32 <= |img|
    && Start(img, i) == if i == 0 then 3 else Start(img, i - 1) + Needed(img, FileSize(img, i - 1))
  }
}
