/** What a FAT32 image holds, byte by byte, after formatting and any number of copies. */
module FatImage {
  import opened Bytes
  import opened FatLayout

  const EOC: nat := 0xffff_ffff
  const DIRENT: nat := 32
  const NAME: nat := 11  // size of the name field
  const INFO: nat := 512  // size of the boot and information structures

  /** A file in the root directory: first cluster, name, attributes, contents. */
  datatype File = File(start: nat, name: seq<byte>, attr: byte, data: seq<byte>)

  datatype Volume = Volume(l: Layout, media: byte, files: seq<File>)

  // ---------------------------------------------------------------- cluster accounting

  /** Whole clusters needed for `k` bytes. */
  function Ceil(l: Layout, k: nat): nat { if Bpc(l) == 0 then 0 else CDiv(k, Bpc(l)) }

  /** Clusters in a file's chain: an empty file still gets one. */
  function Clusters(l: Layout, f: File): nat { if f.data == [] then 1 else Ceil(l, |f.data|) }

  /** What a copy leaves in a file's clusters: the contents, and zeros to the end of the last one. */
  function Padded(l: Layout, f: File): (s: seq<byte>)
    ensures |f.data| <= |s| && s[..|f.data|] == f.data
  {
    var n := Ceil(l, |f.data|) * Bpc(l);
    f.data + Zeros(if n >= |f.data| then n - |f.data| else 0)
  }

  function NextFree(l: Layout, files: seq<File>): (c: nat)
    ensures c >= 3
  {
    if files == [] then 3 else NextFree(l, files[..|files| - 1]) + Clusters(l, files[|files| - 1])
  }

  /** Clusters subtracted from the free count so far. */
  function Charged(l: Layout, files: seq<File>): nat {
    if files == [] then 0 else Charged(l, files[..|files| - 1]) + Ceil(l, |files[|files| - 1].data|)
  }

  /** What `createFAT32` records as free: entries of both tables, less three. */
  function InitialFree(l: Layout): int { 2 * l.fatSec * (l.bps / 4) - 3 }

  function FreeCount(v: Volume): int { InitialFree(v.l) - Charged(v.l, v.files) }

  ghost predicate FileOk(l: Layout, f: File) {
    |f.name| == NAME && f.name[0] != 0 && |f.data| < U32
  }

  /** Files occupy consecutive runs from cluster 3 on, all below the maximum. */
  ghost predicate Shape(v: Volume) {
    && Formatted(v.l)
    && (forall i :: 0 <= i < |v.files| ==> FileOk(v.l, v.files[i]) && v.files[i].start == NextFree(v.l, v.files[..i]))
    && (v.files == [] || NextFree(v.l, v.files) <= MaxCluster(v.l))
    && DIRENT * |v.files| <= Bpc(v.l)
  }

  // ---------------------------------------------------------------- structures

  function BpbFields(l: Layout, media: byte): seq<Field> {
    [Field(0, [0xeb, 0, 0x90]), Field(3, [0x6d, 0x6b, 0x66, 0x73, 0x2e, 0x66, 0x61, 0x74]),
     Field(11, LE(l.bps, 2)), Field(13, LE(l.spc, 1)), Field(14, LE(RESERVED, 2)), Field(16, LE(2, 1)),
     Field(17, LE(0, 2)), Field(19, LE(0, 2)), Field(21, [media]), Field(24, LE(32, 2)), Field(26, LE(8, 2)),
     Field(28, LE(0, 4)), Field(32, LE(l.n, 4)), Field(36, LE(l.fatSec, 4)), Field(40, LE(0, 2)), Field(42, LE(0, 2)),
     Field(44, LE(2, 4)), Field(48, LE(1, 2)), Field(50, LE(6, 2)), Field(64, [0x80]), Field(66, [0x29]),
     Field(67, LE(0xe5792f15, 4)), Field(71, [0x4e, 0x4f, 0x20, 0x4e, 0x41, 0x4d, 0x45, 0x20, 0x20, 0x20, 0x20]),
     Field(82, [0x46, 0x41, 0x54, 0x33, 0x32, 0x20, 0x20, 0x20]), Field(510, [0x55]), Field(511, [0xaa])]
  }

  lemma BpbPacked(l: Layout, media: byte)
    ensures Packed(BpbFields(l, media), INFO)
  {
    hide LE;
    Adjacent(BpbFields(l, media), INFO);
  }

  ghost function BpbBytes(l: Layout, media: byte): (s: seq<byte>)
    ensures |s| == INFO
  {
    BpbPacked(l, media);
    PutFields(Zeros(INFO), 0, BpbFields(l, media), INFO)
  }

  /** Members behind the name. Date and time stamps are fixed: 21 February 1995, 08:30:25. */
  function DirFields(f: File): seq<Field> {
    [Field(11, [f.attr]), Field(12, [0]), Field(13, [42]), Field(14, LE(17356, 2)),
     Field(16, LE(7765, 2)),
     Field(18, LE(7765, 2)), Field(20, LE(f.start / 0x1_0000, 2)), Field(22, LE(17356, 2)), Field(24, LE(7765, 2)),
     Field(26, LE(f.start % 0x1_0000, 2)), Field(28, LE(|f.data|, 4))]
  }

  lemma DirPacked(f: File)
    ensures Packed(DirFields(f), DIRENT)
  {
    hide LE;
    Adjacent(DirFields(f), DIRENT);
  }

  /** The entry: the name field, then the members behind it. */
  ghost function DirBytes(f: File): (s: seq<byte>)
    requires |f.name| == NAME
    ensures |s| == DIRENT
  {
    DirPacked(f);
    PutFields(f.name + Zeros(DIRENT - NAME), 0, DirFields(f), DIRENT)
  }

  // ---------------------------------------------------------------- the image

  /** Entry `c` of the first table. */
  function Entry(img: seq<byte>, l: Layout, c: nat): nat
    requires Fat0(l) + 4 * c + 4 <= |img|
  {
    Load(img, Fat0(l) + 4 * c, 4)
  }

  /** The inequalities between regions that the rest relies on. */
  ghost predicate Sized(img: seq<byte>, l: Layout) {
    && 512 <= l.bps && Fat0(l) == 8 * l.bps && Fat0(l) < Fat1(l) < Data(l) && Data(l) == Fat1(l) + FatBytes(l)
    && Fat1(l) == Fat0(l) + FatBytes(l) && 12 <= FatBytes(l)
    && 4 * MaxCluster(l) <= FatBytes(l) && l.bps <= Bpc(l) && Data(l) + Bpc(l) <= |img| < U32
  }

  ghost predicate Boot(img: seq<byte>, v: Volume)
    requires Sized(img, v.l)
  {
    img[0..INFO] == BpbBytes(v.l, v.media)
  }

  ghost predicate Info(img: seq<byte>, v: Volume)
    requires Sized(img, v.l)
  {
    var a := v.l.bps;
    && Load(img, a, 4) == 0x41615252 && Load(img, a + 484, 4) == 0x61417272 && Load(img, a + 508, 4) == 0xaa550000
    && Load(img, a + 488, 4) == FreeCount(v) && Load(img, a + 492, 4) == NextFree(v.l, v.files)
  }

  ghost predicate Backup(img: seq<byte>, l: Layout)
    requires Sized(img, l)
  {
    img[6 * l.bps..6 * l.bps + INFO] == img[0..INFO] && img[7 * l.bps..7 * l.bps + INFO] == img[l.bps..l.bps + INFO]
  }

  ghost predicate Mirrored(img: seq<byte>, l: Layout)
    requires Sized(img, l)
  {
    img[Fat0(l)..Fat1(l)] == img[Fat1(l)..Data(l)]
  }

  /** Clusters `s` to `s + n - 1` are linked in order and end in the end mark. */
  ghost predicate Run(img: seq<byte>, l: Layout, s: nat, n: nat)
    requires Sized(img, l) && s + n <= MaxCluster(l)
  {
    forall c :: s <= c < s + n ==> Entry(img, l, c) == if c == s + n - 1 then EOC else c + 1
  }

  ghost predicate Tables(img: seq<byte>, v: Volume)
    requires Sized(img, v.l) && Shape(v)
  {
    && Mirrored(img, v.l)
    && Entry(img, v.l, 0) == 0xffff00 + v.media as nat && Entry(img, v.l, 1) == 0x0c00_0000 && Entry(img, v.l, 2) == EOC
    && (forall i :: 0 <= i < |v.files| ==> FileRun(img, v, i))
    && (forall c :: NextFree(v.l, v.files) <= c < MaxCluster(v.l) ==> Entry(img, v.l, c) == 0)
  }

  ghost predicate FileRun(img: seq<byte>, v: Volume, i: nat)
    requires Sized(img, v.l) && Shape(v) && i < |v.files|
  {
    FileBounds(v, i);
    Run(img, v.l, v.files[i].start, Clusters(v.l, v.files[i]))
  }

  ghost predicate Dir(img: seq<byte>, v: Volume)
    requires Sized(img, v.l) && Shape(v)
  {
    && (forall i :: 0 <= i < |v.files| ==> DirAt(img, v, i))
    && (forall i: nat :: |v.files| <= i && DIRENT * (i + 1) <= Bpc(v.l) ==> SlotFree(img, v.l, i))
  }

  /** A name starting with a zero byte marks an unused directory entry. */
  ghost predicate SlotFree(img: seq<byte>, l: Layout, i: nat)
    requires Sized(img, l) && DIRENT * (i + 1) <= Bpc(l)
  {
    img[Data(l) + DIRENT * i] == 0
  }

  ghost predicate DirAt(img: seq<byte>, v: Volume, i: nat)
    requires Sized(img, v.l) && Shape(v) && i < |v.files|
  {
    var a := Data(v.l) + DIRENT * i;
    img[a..a + DIRENT] == DirBytes(v.files[i])
  }

  ghost predicate Contents(img: seq<byte>, v: Volume)
    requires Sized(img, v.l) && Shape(v) && |img| == Size(v.l)
  {
    forall i :: 0 <= i < |v.files| ==> FileAt(img, v, i)
  }

  ghost predicate FileAt(img: seq<byte>, v: Volume, i: nat)
    requires Sized(img, v.l) && Shape(v) && |img| == Size(v.l) && i < |v.files|
  {
    FileBounds(v, i);
    var a, s := ClusterAt(v.l, v.files[i].start), Padded(v.l, v.files[i]);
    img[a..a + |s|] == s
  }

  /** What reading the files relies on. */
  ghost predicate Files(img: seq<byte>, v: Volume) {
    && Shape(v) && |img| == Size(v.l) && Sized(img, v.l) && Boot(img, v) && Tables(img, v)
    && Contents(img, v)
    && forall i :: 0 <= i < |v.files| ==> DirAt(img, v, i)
  }

  /** All but the backup sectors. */
  ghost predicate Core(img: seq<byte>, v: Volume) {
    && Shape(v) && |img| == Size(v.l) && Sized(img, v.l)
    && Boot(img, v) && Info(img, v) && Tables(img, v) && Dir(img, v) && Contents(img, v)
  }

  ghost predicate Inv(img: seq<byte>, v: Volume) { Core(img, v) && Backup(img, v.l) }

  // ---------------------------------------------------------------- bounds

  lemma FitsSized(img: seq<byte>, l: Layout)
    requires Formatted(l) && |img| == Size(l)
    ensures Sized(img, l)
  {
    Regions(l);
    TableCovers(l);
  }

  lemma CeilIs(l: Layout, k: nat)
    requires Bpc(l) > 0
    ensures k <= Ceil(l, k) * Bpc(l) < k + Bpc(l)
    ensures k > 0 ==> Ceil(l, k) > 0
  {
  }

  lemma {:induction false} NextFreeMonotone(l: Layout, files: seq<File>, i: nat)
    requires i <= |files|
    ensures NextFree(l, files[..i]) <= NextFree(l, files)
    ensures i < |files| ==> NextFree(l, files[..i]) + Clusters(l, files[i]) <= NextFree(l, files)
    decreases |files|
  {
    hide Clusters;
    var n := |files| - 1;
    if i <= n {
      if i < n {
        NextFreeMonotone(l, files[..n], i);
        assert files[..n][..i] == files[..i];
      }
    } else {
      assert files[..i] == files;
    }
  }

  lemma ClustersHold(l: Layout, f: File)
    requires Bpc(l) > 0
    ensures Clusters(l, f) >= 1 && |f.data| <= |Padded(l, f)| <= Clusters(l, f) * Bpc(l)
    ensures |Padded(l, f)| == Ceil(l, |f.data|) * Bpc(l)
  {
    CeilNone(l);
    hide Bpc, Ceil;
    CeilIs(l, |f.data|);
  }

  lemma CeilNone(l: Layout)
    ensures Ceil(l, 0) == 0
  {
  }

  /** A file's clusters lie between 3 and the next free one, its bytes inside them. */
  lemma FileBounds(v: Volume, i: nat)
    requires Shape(v) && i < |v.files|
    ensures var f := v.files[i];
            var n := Clusters(v.l, f);
            && 3 <= f.start && n >= 1 && f.start + n <= NextFree(v.l, v.files) <= MaxCluster(v.l)
            && Data(v.l) + Bpc(v.l) <= ClusterAt(v.l, f.start)
            && |f.data| <= |Padded(v.l, f)| && ClusterAt(v.l, f.start) + |Padded(v.l, f)| <= ClusterAt(v.l, f.start + n)
            && ClusterAt(v.l, f.start + n) <= ClusterAt(v.l, NextFree(v.l, v.files)) <= Size(v.l)
  {
    hide MaxCluster, Bpc, Size, Data, Formatted, Clusters, NextFree, Padded;
    Regions(v.l);
    NextFreeMonotone(v.l, v.files, i);
    var f := v.files[i];
    ClustersHold(v.l, f);
    var n := Clusters(v.l, f);
    ClusterSteps(v.l, 2, 3);
    ClusterSteps(v.l, 3, f.start);
    ClusterSteps(v.l, f.start, f.start + n);
    ClusterSteps(v.l, f.start + n, NextFree(v.l, v.files));
    ClusterEnd(v.l, NextFree(v.l, v.files));
  }

  /** Runs of different files are disjoint. */
  lemma FilesApart(v: Volume, i: nat, j: nat)
    requires Shape(v) && i < j < |v.files|
    ensures v.files[i].start + Clusters(v.l, v.files[i]) <= v.files[j].start
  {
    NextFreeMonotone(v.l, v.files[..j], i);
    assert v.files[..j][..i] == v.files[..i];
  }
}
