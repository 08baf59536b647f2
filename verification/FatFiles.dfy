/** The files of a volume as a reader of the FAT specification finds them. */
module FatFiles {
  import opened Bytes
  import opened FatLayout
  import opened FatImage
  import opened FatBoot
  import opened FatCopy
  import opened FatSteps
  import Spec = FatSpec

  // ---------------------------------------------------------------- directory entries and contents

  /** First cluster and size recorded in directory entry `i`. */
  function DirStart(img: seq<byte>, l: Layout, i: nat): nat
    requires Data(l) + DIRENT * (i + 1) <= |img|
  {
    var a := Data(l) + DIRENT * i;
    Load(img, a + 20, 2) * 0x1_0000 + Load(img, a + 26, 2)
  }

  function DirSize(img: seq<byte>, l: Layout, i: nat): nat
    requires Data(l) + DIRENT * (i + 1) <= |img|
  {
    Load(img, Data(l) + DIRENT * i + 28, 4)
  }

  lemma DirSlices(f: File)
    requires |f.name| == NAME
    ensures var e := DirBytes(f);
            && e[20..22] == LE(f.start / 0x1_0000, 2) && e[26..28] == LE(f.start % 0x1_0000, 2)
               && e[28..32] == LE(|f.data|, 4)
  {
    hide LE, PutFields, Packed;
    DirPacked(f);
    var z, fs := f.name + Zeros(DIRENT - NAME), DirFields(f);
    FieldKept(z, 0, fs, DIRENT, 6);
    FieldKept(z, 0, fs, DIRENT, 9);
    FieldKept(z, 0, fs, DIRENT, 10);
  }

  lemma EntryRead(img: seq<byte>, l: Layout, i: nat, f: File)
    requires |f.name| == NAME && |f.data| < U32 && f.start < U32 && Data(l) + DIRENT * (i + 1) <= |img|
    requires img[Data(l) + DIRENT * i..Data(l) + DIRENT * i + DIRENT] == DirBytes(f)
    ensures DirStart(img, l, i) == f.start && DirSize(img, l, i) == |f.data|
  {
    hide LE, FromLE, Pow256, DirBytes, Data;
    var a := Data(l) + DIRENT * i;
    DirSlices(f);
    SubSlice(img, a, a + DIRENT, a + 20, a + 22);
    SubSlice(img, a, a + DIRENT, a + 26, a + 28);
    SubSlice(img, a, a + DIRENT, a + 28, a + 32);
    Widths();
    DecodeEncode(f.start / 0x1_0000, 2);
    DecodeEncode(f.start % 0x1_0000, 2);
    DecodeEncode(|f.data|, 4);
  }

  lemma DirRead(img: seq<byte>, v: Volume, i: nat)
    requires Files(img, v) && i < |v.files|
    ensures Data(v.l) + DIRENT * (i + 1) <= |img|
    ensures DirStart(img, v.l, i) == v.files[i].start && DirSize(img, v.l, i) == |v.files[i].data|
  {
    hide MaxCluster, Bpc, Size, Formatted, FatBytes, Fat0, Fat1, Data, ClusterAt, Contents, Tables, Boot, Info,
         DirBytes, NextFree, DirStart, DirSize;
    FileBounds(v, i);
    Positive(v);
    assert DirAt(img, v, i) && FileOk(v.l, v.files[i]);
    EntryRead(img, v.l, i, v.files[i]);
  }

  lemma FileThere(img: seq<byte>, v: Volume, i: nat)
    requires Files(img, v) && i < |v.files|
    ensures var f := v.files[i];
            && f.start + Clusters(v.l, f) <= MaxCluster(v.l) && Run(img, v.l, f.start, Clusters(v.l, f))
            && ClusterAt(v.l, f.start) + |Padded(v.l, f)| <= |img|
            && img[ClusterAt(v.l, f.start)..ClusterAt(v.l, f.start) + |Padded(v.l, f)|] == Padded(v.l, f)
            && img[ClusterAt(v.l, f.start)..ClusterAt(v.l, f.start) + |f.data|] == f.data
  {
    hide MaxCluster, Bpc, Size, Formatted, FatBytes, Fat0, Fat1, Data, ClusterAt, Boot, Info, Dir, Clusters, Entry,
         Run, NextFree, Padded;
    FileBounds(v, i);
    assert FileRun(img, v, i) && FileAt(img, v, i);
    var a, f := ClusterAt(v.l, v.files[i].start), v.files[i];
    SubSlice(img, a, a + |Padded(v.l, f)|, a, a + |f.data|);
  }

  // ---------------------------------------------------------------- addresses

  /** The members of the boot sector lead to the regions of the layout. */
  lemma Params(img: seq<byte>, v: Volume)
    requires Files(img, v)
    ensures Spec.Geometry(img, v.l.n, v.l.bps, v.l.spc) && Load(img, 36, 4) == v.l.fatSec
    ensures Spec.ClusterSize(img) == Bpc(v.l) > 0 && v.l.bps >= 512
  {
    hide Tables, Contents, DirBytes, BpbBytes, MaxCluster, Data, Fat0, Fat1, FatBytes, FromLE, NextFree;
    Geometry(img, v.l, v.media);
    Regions(v.l);
  }

  lemma Addressed(img: seq<byte>, l: Layout, c: nat)
    requires Spec.Geometry(img, l.n, l.bps, l.spc) && Load(img, 36, 4) == l.fatSec && c >= 2
    ensures Spec.SectorOf(img, c) == SectorOf(l, c)
    ensures Spec.At(Spec.SectorOf(img, c), Load(img, 11, 2)) == ClusterAt(l, c)
  {
    hide Load;
    SectorBytes(l, c);
  }

  lemma EntryPlace(img: seq<byte>, l: Layout, i: nat)
    requires Spec.Geometry(img, l.n, l.bps, l.spc) && Load(img, 36, 4) == l.fatSec
    ensures Spec.EntryAt(img, i) == Data(l) + 32 * i
  {
    hide Load, Data, Spec.SectorOf, Spec.At;
    Addressed(img, l, 2);
  }

  lemma LinkIs(img: seq<byte>, l: Layout, c: nat)
    requires Spec.Geometry(img, l.n, l.bps, l.spc) && Sized(img, l) && c < MaxCluster(l)
    ensures Spec.Link(img, c) == Entry(img, l, c) % 0x1000_0000
  {
    hide Load, MaxCluster, Bpc, Data, Fat1, FatBytes;
  }

  // ---------------------------------------------------------------- chains

  lemma {:induction false} ChainIs(img: seq<byte>, l: Layout, s: nat, n: nat, j: nat)
    requires Spec.Geometry(img, l.n, l.bps, l.spc) && Sized(img, l) && 2 <= s && s + n <= MaxCluster(l) < 0xfff_fff8
    requires Run(img, l, s, n) && j <= n && n >= 1
    ensures Spec.Nth(img, s, j) == if j == n then 0xfff_ffff else s + j
  {
    hide Entry, MaxCluster, Bpc, FatBytes, Fat0, Fat1, Data, Spec.Link, Load;
    if j > 0 {
      ChainIs(img, l, s, n, j - 1);
      LinkIs(img, l, s + j - 1);
      assert Entry(img, l, s + j - 1) == if j == n then EOC else s + j;
    }
  }

  /** Clusters hold at least 512 bytes of less than 4 GiB. */
  lemma FewClusters(l: Layout)
    requires Formatted(l)
    ensures MaxCluster(l) < 0x80_0000
  {
    hide MaxCluster, Bpc, Data, Size, Formatted;
    Regions(l);
    AtLeast(Bpc(l), 512, MaxCluster(l));
  }

  lemma NeededIs(img: seq<byte>, v: Volume, f: File)
    requires Files(img, v)
    ensures Spec.ClusterSize(img) == Bpc(v.l) > 0 && Spec.Needed(img, |f.data|) == Clusters(v.l, f)
  {
    hide Files, Spec.ClusterSize, Bpc;
    Params(img, v);
  }

  // ---------------------------------------------------------------- contents

  lemma ByteAt(img: seq<byte>, v: Volume, c: nat, n: nat, k: nat)
    requires Files(img, v) && 2 <= c && c + n <= MaxCluster(v.l) && n >= 1 && k < n * Bpc(v.l)
    requires Run(img, v.l, c, n) && ClusterAt(v.l, c) + k < |img|
    ensures Spec.ByteIs(img, c, k, img[ClusterAt(v.l, c) + k])
  {
    hide MaxCluster, Bpc, Files, ClusterAt, Run, Load, Spec.Nth, Spec.SectorOf, Spec.At, Spec.ClusterSize, Spec.ByteIs;
    Params(img, v);
    Inside(k, Bpc(v.l), n);
    ClusterFound(img, v, c, n, k / Bpc(v.l));
    ByteFound(img, c, k, c + k / Bpc(v.l), ClusterAt(v.l, c + k / Bpc(v.l)));
  }

  lemma ClusterFound(img: seq<byte>, v: Volume, c: nat, n: nat, j: nat)
    requires Files(img, v) && 2 <= c && c + n <= MaxCluster(v.l) && j < n && Run(img, v.l, c, n)
    ensures |img| >= 512 && Spec.Nth(img, c, j) == c + j
    ensures Spec.At(Spec.SectorOf(img, c + j), Load(img, 11, 2)) == ClusterAt(v.l, c + j)
    ensures ClusterAt(v.l, c + j) == ClusterAt(v.l, c) + j * Bpc(v.l)
  {
    hide MaxCluster, Bpc, ClusterAt, Run, Load, Spec.Nth, Spec.SectorOf, Spec.At, Sized, Size, Boot, Tables,
         Contents, DirAt, Formatted;
    Params(img, v);
    FewClusters(v.l);
    ChainIs(img, v.l, c, n, j);
    Addressed(img, v.l, c + j);
    ClusterSteps(v.l, c, c + j);
  }

  lemma ByteFound(img: seq<byte>, c: nat, k: nat, d: nat, a: nat)
    requires |img| >= 512 && Spec.ClusterSize(img) > 0 && Spec.Nth(img, c, k / Spec.ClusterSize(img)) == d >= 2
    requires Spec.At(Spec.SectorOf(img, d), Load(img, 11, 2)) == a && a + k % Spec.ClusterSize(img) < |img|
    ensures Spec.ByteIs(img, c, k, img[a + k % Spec.ClusterSize(img)])
  {
    hide Load, Spec.Nth, Spec.SectorOf, Spec.At, Spec.ClusterSize;
  }

  lemma Inside(k: nat, m: nat, n: nat)
    requires k < n * m && m > 0
    ensures k / m < n && (k / m) * m + k % m == k
  {
    DivMod(k, m);
    NotBeyond(k / m, n, m);
  }

  lemma NotBeyond(q: nat, n: nat, m: nat)
    requires q * m < n * m
    ensures q < n
  {
    if q >= n { AtLeast(q, n, m); }
  }

  /** Every file is found in the root directory, its chain has the clusters needed, and its bytes and then
      zeros are in them. */
  lemma Held(img: seq<byte>, v: Volume, i: nat)
    requires Files(img, v) && i < |v.files|
    ensures Spec.Holds(img, i, v.files[i].data) && Spec.Start(img, i) == v.files[i].start
  {
    hide MaxCluster, Bpc, Data, ClusterAt, Files, Run, Load, Spec.Nth, Spec.ByteIs, Spec.Start, Spec.FileSize,
         Spec.EntryAt, Clusters, Spec.ClusterSize, Spec.Needed;
    NeededIs(img, v, v.files[i]);
    Recorded(img, v, i);
    Stored(img, v, i);
    WholeChain(img, v, i);
  }

  lemma WholeChain(img: seq<byte>, v: Volume, i: nat)
    requires Files(img, v) && i < |v.files|
    ensures |img| >= 512
    ensures var c, n := v.files[i].start, Clusters(v.l, v.files[i]);
            && (forall j: nat :: j < n ==> 2 <= Spec.Nth(img, c, j) < 0x0fff_fff8)
            && Spec.Nth(img, c, n) >= 0x0fff_fff8
  {
    var l, c, n := v.l, v.files[i].start, Clusters(v.l, v.files[i]);
    hide MaxCluster, Bpc, ClusterAt, Run, Load, Spec.Nth, Clusters, Padded, Sized, Size, Boot, Tables, Contents, DirAt,
         Formatted, NextFree, Data;
    Params(img, v);
    FewClusters(l);
    FileBounds(v, i);
    FileThere(img, v, i);
    forall j: nat | j <= n ensures Spec.Nth(img, c, j) == if j == n then 0xfff_ffff else c + j {
      ChainIs(img, l, c, n, j);
    }
  }

  lemma Recorded(img: seq<byte>, v: Volume, i: nat)
    requires Files(img, v) && i < |v.files|
    ensures |img| >= 512 && Spec.EntryAt(img, i) == Data(v.l) + 32 * i && Spec.EntryAt(img, i) + 32 <= |img|
    ensures Spec.Start(img, i) == v.files[i].start && Spec.FileSize(img, i) == |v.files[i].data|
  {
    hide Files, Data, Load, Spec.EntryAt;
    Params(img, v);
    EntryPlace(img, v.l, i);
    DirRead(img, v, i);
  }

  lemma Stored(img: seq<byte>, v: Volume, i: nat)
    requires Files(img, v) && i < |v.files|
    ensures var f := v.files[i];
            && f.start + Clusters(v.l, f) <= MaxCluster(v.l) && Run(img, v.l, f.start, Clusters(v.l, f))
            && (forall k: nat :: k < |f.data| ==> Spec.ByteIs(img, f.start, k, f.data[k]))
            && forall k: nat :: |f.data| <= k && f.data != [] && k < Clusters(v.l, f) * Bpc(v.l) ==>
                 Spec.ByteIs(img, f.start, k, 0)
  {
    hide MaxCluster, Bpc, FatBytes, Fat0, Fat1, Data, Run, Load, Spec.ByteIs, Clusters, Ceil, ClusterAt, Padded, Boot,
         Tables, Contents, Size, Sized, DirAt, NextFree;
    var f, l := v.files[i], v.l;
    FileThere(img, v, i);
    FileBounds(v, i);
    var s := Padded(l, f);
    PaddedLength(v, i);
    AllBytes(img, v, f.start, Clusters(l, f), s);
    assert forall k: nat :: k < |f.data| ==> s[k] == s[..|f.data|][k];
    forall k: nat | |f.data| <= k && f.data != [] && k < Clusters(l, f) * Bpc(l)
      ensures Spec.ByteIs(img, f.start, k, 0)
    {
      assert k < |s| && s[k] == 0;
    }
  }

  lemma AllBytes(img: seq<byte>, v: Volume, c: nat, n: nat, s: seq<byte>)
    requires Files(img, v) && 2 <= c && c + n <= MaxCluster(v.l) && n >= 1 && |s| <= n * Bpc(v.l)
    requires Run(img, v.l, c, n) && ClusterAt(v.l, c) + |s| <= |img|
             && img[ClusterAt(v.l, c)..ClusterAt(v.l, c) + |s|] == s
    ensures forall k: nat :: k < |s| ==> Spec.ByteIs(img, c, k, s[k])
  {
    hide MaxCluster, Bpc, Files, Run, Spec.ByteIs, ClusterAt;
    var a := ClusterAt(v.l, c);
    forall k: nat | k < |s| ensures Spec.ByteIs(img, c, k, s[k]) {
      assert img[a..a + |s|][k] == img[a + k];
      ByteAt(img, v, c, n, k);
    }
  }

  lemma PaddedLength(v: Volume, i: nat)
    requires Shape(v) && i < |v.files|
    ensures var f := v.files[i];
            && |f.data| <= |Padded(v.l, f)| <= Clusters(v.l, f) * Bpc(v.l)
            && (f.data != [] ==> |Padded(v.l, f)| == Clusters(v.l, f) * Bpc(v.l))
            && forall k :: |f.data| <= k < |Padded(v.l, f)| ==> Padded(v.l, f)[k] == 0
  {
    Regions(v.l);
    hide Bpc, Shape, Ceil;
    ClustersHold(v.l, v.files[i]);
  }

  // ---------------------------------------------------------------- directory entries

  lemma EntryLoads(f: File)
    requires |f.name| == NAME
    ensures var e := DirBytes(f);
            && Load(e, 14, 2) == Load(e, 22, 2) == 17356
            && Load(e, 16, 2) == Load(e, 18, 2) == Load(e, 24, 2) == 7765
  {
    hide LE, FromLE, Pow256, PutFields, Packed;
    DirPacked(f);
    var z, fs := f.name + Zeros(DIRENT - NAME), DirFields(f);
    FieldKept(z, 0, fs, DIRENT, 3);
    FieldKept(z, 0, fs, DIRENT, 4);
    FieldKept(z, 0, fs, DIRENT, 5);
    FieldKept(z, 0, fs, DIRENT, 7);
    FieldKept(z, 0, fs, DIRENT, 8);
    Widths();
    DecodeEncode(17356, 2);
    DecodeEncode(7765, 2);
  }

  lemma EntryBytes(f: File)
    requires |f.name| == NAME
    ensures var e := DirBytes(f);
            e[0..NAME] == f.name && e[11] == f.attr && e[12] == 0 && e[13] == 42
  {
    hide LE, PutFields, Packed;
    DirPacked(f);
    var z, fs := f.name + Zeros(DIRENT - NAME), DirFields(f);
    GapKept(z, 0, fs, DIRENT, 0, NAME);
    FieldKept(z, 0, fs, DIRENT, 0);
    FieldKept(z, 0, fs, DIRENT, 1);
    FieldKept(z, 0, fs, DIRENT, 2);
    var e := DirBytes(f);
    assert e[11] == e[11..12][0] && e[12] == e[12..13][0] && e[13] == e[13..14][0];
  }

  /** A file's entry has its name and attributes and the fixed time. */
  lemma IsListed(img: seq<byte>, v: Volume, i: nat)
    requires Files(img, v) && i < |v.files|
    ensures Spec.Listed(img, i, v.files[i].name, v.files[i].attr)
  {
    hide Data, Load, Spec.EntryAt, DirBytes, Tables, Contents, Boot, Sized, Size, Formatted, NextFree, Bpc, MaxCluster;
    var f, a := v.files[i], Data(v.l) + DIRENT * i;
    Recorded(img, v, i);
    assert DirAt(img, v, i) && FileOk(v.l, f);
    EntryMoved(img, a, f);
  }

  lemma EntryMoved(img: seq<byte>, a: nat, f: File)
    requires |f.name| == NAME && a + DIRENT <= |img| && img[a..a + DIRENT] == DirBytes(f)
    ensures img[a..a + NAME] == f.name && img[a + 11] == f.attr && img[a + 12] == 0 && img[a + 13] == 42
    ensures Load(img, a + 14, 2) == Load(img, a + 22, 2) == 17356
    ensures Load(img, a + 16, 2) == Load(img, a + 18, 2) == Load(img, a + 24, 2) == 7765
  {
    hide DirBytes, FromLE;
    EntryBytes(f);
    EntryLoads(f);
    var e := img[a..a + DIRENT];
    assert img[a + 11] == e[11] && img[a + 12] == e[12] && img[a + 13] == e[13];
    SubSlice(img, a, a + DIRENT, a, a + NAME);
    LoadInside(img, a, a + DIRENT, 14, 2);
    LoadInside(img, a, a + DIRENT, 16, 2);
    LoadInside(img, a, a + DIRENT, 18, 2);
    LoadInside(img, a, a + DIRENT, 22, 2);
    LoadInside(img, a, a + DIRENT, 24, 2);
  }

  /** Files follow each other without gaps, the first in cluster 3. */
  lemma IsPlaced(img: seq<byte>, v: Volume, i: nat)
    requires Files(img, v) && i < |v.files|
    ensures Spec.Placed(img, i)
  {
    hide Files, Spec.EntryAt, Spec.Start, Spec.FileSize, Spec.Needed, Spec.ClusterSize, Bpc;
    Params(img, v);
    Recorded(img, v, i);
    Follows(img, v, i);
    if i > 0 {
      Recorded(img, v, i - 1);
      NeededIs(img, v, v.files[i - 1]);
    }
  }

  lemma Follows(img: seq<byte>, v: Volume, i: nat)
    requires Files(img, v) && i < |v.files|
    ensures v.files[i].start == if i == 0 then 3 else v.files[i - 1].start + Clusters(v.l, v.files[i - 1])
  {
    hide Sized, Boot, Tables, Contents, DirAt, Formatted, Clusters, MaxCluster, Bpc, Size;
    if i > 0 { assert v.files[..i][..i - 1] == v.files[..i - 1]; }
  }

  /** The file as the specification's reader finds it, and the first of its sectors. */
  ghost predicate Found(img: seq<byte>, i: nat, f: File, sector: nat) {
    && Spec.Listed(img, i, f.name, f.attr) && Spec.Holds(img, i, f.data) && Spec.Placed(img, i)
    && Spec.Start(img, i) >= 2 && sector == Spec.SectorOf(img, Spec.Start(img, i))
  }

  lemma IsFound(img: seq<byte>, v: Volume, i: nat)
    requires Files(img, v) && i < |v.files|
    ensures v.files[i].start >= 2 && Found(img, i, v.files[i], SectorOf(v.l, v.files[i].start))
  {
    hide Files, Spec.Listed, Spec.Holds, Spec.Placed, Spec.SectorOf, Spec.Start, SectorOf;
    IsListed(img, v, i);
    Held(img, v, i);
    IsPlaced(img, v, i);
    Params(img, v);
    StartAbove(img, v, i);
    Addressed(img, v.l, v.files[i].start);
  }

  lemma StartAbove(img: seq<byte>, v: Volume, i: nat)
    requires Files(img, v) && i < |v.files|
    ensures v.files[i].start >= 3
  {
  }

  // ---------------------------------------------------------------- deciding on a copy

  /** What the members of the image say about free space. */
  lemma Space(img: seq<byte>, v: Volume)
    requires Inv(img, v)
    ensures Files(img, v) && Load(img, 13, 1) == v.l.spc > 0 && Load(img, 11, 2) == v.l.bps && v.l.bps + 512 <= |img|
    ensures Spec.Clusters(img) == MaxCluster(v.l) && Spec.ClusterSize(img) == Bpc(v.l)
    ensures Spec.NextFree(img) == NextFree(v.l, v.files) && Spec.FreeCount(img) == FreeCount(v)
  {
    hide Tables, Dir, Contents, BpbBytes, Bpc, Data, Fat0, Fat1, FatBytes, FromLE, NextFree, FreeCount, DirAt, Shape;
    InvFiles(img, v);
    Params(img, v);
    LayoutRanges(v.l);
  }

  lemma InvFiles(img: seq<byte>, v: Volume)
    requires Inv(img, v)
    ensures Files(img, v) && Formatted(v.l)
  {
    hide Boot, Info, Tables, Contents, Bpc, MaxCluster, Data, Fat0, Fat1, FatBytes, Formatted;
  }

  /** A directory entry is free exactly if the files do not fill the root directory. */
  lemma Slots(img: seq<byte>, v: Volume)
    requires Inv(img, v)
    ensures Spec.FreeEntry(img) <==> DIRENT * (|v.files| + 1) <= Bpc(v.l)
  {
    hide Inv, Files, Bpc, Spec.EntryAt, Spec.ClusterSize, MaxCluster, FreeCount, Load;
    Space(img, v);
    if i: nat :| 32 * (i + 1) <= Bpc(v.l) && Spec.EntryAt(img, i) < |img| && img[Spec.EntryAt(img, i)] == 0 {
      SlotMeans(img, v, i);
    }
    if DIRENT * (|v.files| + 1) <= Bpc(v.l) { FirstIsFree(img, v); }
  }

  lemma SlotMeans(img: seq<byte>, v: Volume, i: nat)
    requires Inv(img, v) && |img| >= 512 && Spec.EntryAt(img, i) < |img| && img[Spec.EntryAt(img, i)] == 0
    ensures i >= |v.files|
  {
    hide Inv, Data, Spec.EntryAt;
    EntryHere(img, v, i);
    NotUsed(img, v, i);
  }

  lemma FirstIsFree(img: seq<byte>, v: Volume)
    requires Inv(img, v) && DIRENT * (|v.files| + 1) <= Bpc(v.l)
    ensures |img| >= 512 && Spec.EntryAt(img, |v.files|) < |img| && img[Spec.EntryAt(img, |v.files|)] == 0
  {
    hide Inv, Data, Spec.EntryAt, Bpc;
    EntryHere(img, v, |v.files|);
    NextSlot(img, v);
  }

  lemma EntryHere(img: seq<byte>, v: Volume, i: nat)
    requires Inv(img, v)
    ensures |img| >= 512 && Spec.EntryAt(img, i) == Data(v.l) + DIRENT * i
  {
    hide Inv, Files, Data, Load, Spec.EntryAt;
    InvFiles(img, v);
    Params(img, v);
    EntryPlace(img, v.l, i);
  }

  lemma NotUsed(img: seq<byte>, v: Volume, i: nat)
    requires Inv(img, v) && Data(v.l) + DIRENT * i < |img| && img[Data(v.l) + DIRENT * i] == 0
    ensures i >= |v.files|
  {
    hide Boot, Info, Tables, Contents, Dir, Bpc, MaxCluster, Data, Fat1, FatBytes, Shape;
    if i < |v.files| { SlotUsed(img, v, i); }
  }

  lemma NextSlot(img: seq<byte>, v: Volume)
    requires Inv(img, v) && DIRENT * (|v.files| + 1) <= Bpc(v.l)
    ensures Data(v.l) + DIRENT * |v.files| < |img| && img[Data(v.l) + DIRENT * |v.files|] == 0
  {
    hide Boot, Info, Tables, Contents, Bpc, MaxCluster, Data, Fat1, FatBytes, Shape;
    assert SlotFree(img, v.l, |v.files|);
  }

  /** Whether a copy succeeds or aborts can be read off the image. */
  lemma Decision(img: seq<byte>, v: Volume, size: nat, io: Io)
    requires Inv(img, v)
    ensures Succeeds(v, size, io) <==> io.statOk && Spec.Fits(img, size) && io.seekOk && io.got == size
    ensures Aborts(v, size, io) <==> io.statOk && Spec.Fails(img, size, io.seekOk && io.got == 0)
  {
    hide Inv, Files, Load, MaxCluster, Bpc, Spec.Clusters, Spec.ClusterSize, Spec.NextFree, NextFree, Spec.FreeEntry,
         Spec.FreeCount, FreeCount;
    Space(img, v);
    Slots(img, v);
  }

  /** A copy charges the clusters of the contents and moves on behind the chain. */
  lemma Counted(img: seq<byte>, im: seq<byte>, v: Volume, f: File)
    requires Inv(img, v) && Inv(im, Add(v, f))
    ensures |img| >= 512 && Load(img, 11, 2) + 512 <= |img| && Spec.ClusterSize(img) > 0
    ensures |im| >= 512 && Load(im, 11, 2) + 512 <= |im|
    ensures Spec.FreeCount(im)
         == Spec.FreeCount(img) - (|f.data| + Spec.ClusterSize(img) - 1) / Spec.ClusterSize(img)
    ensures Spec.NextFree(im) == Spec.NextFree(img) + Spec.Needed(img, |f.data|)
  {
    hide Inv, Files, Load, MaxCluster, Bpc, Spec.Clusters, Spec.ClusterSize, Spec.NextFree, NextFree, Spec.FreeCount,
         Charged;
    Space(img, v);
    Space(im, Add(v, f));
    Params(img, v);
    AddCounts(v, f);
  }
}
