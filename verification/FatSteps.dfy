/** How formatting and copying change the image, and that they keep its invariant. */
module FatSteps {
  import opened Bytes
  import opened FatLayout
  import opened FatImage

  lemma ByteWithin(s: seq<byte>, t: seq<byte>, lo: nat, hi: nat, a: nat)
    requires |s| == |t| && lo <= a < hi <= |s| && t[lo..hi] == s[lo..hi]
    ensures t[a] == s[a]
  {
  }

  // ---------------------------------------------------------------- changes beyond the last file

  /** Equal in sectors 0 and 1 and from the tables up to `hi`. */
  ghost predicate Agree(img: seq<byte>, im: seq<byte>, l: Layout, hi: nat) {
    && |im| == |img| && 2 * l.bps <= Fat0(l) <= hi <= |img|
    && im[0..2 * l.bps] == img[0..2 * l.bps] && im[Fat0(l)..hi] == img[Fat0(l)..hi]
  }

  /** The backup sectors aside, bytes from the next free cluster on are nobody's. */
  lemma CoreBelow(img: seq<byte>, im: seq<byte>, v: Volume)
    requires Core(img, v) && Agree(img, im, v.l, ClusterAt(v.l, NextFree(v.l, v.files)))
    ensures Core(im, v)
  {
    hide Bpc, Size, MaxCluster, Shape, BpbBytes, DirBytes, ClusterAt, Data, Fat0, Fat1, FatBytes, FromLE, FreeCount,
         NextFree, Info, Tables, Dir, Contents;
    var hi := ClusterAt(v.l, NextFree(v.l, v.files));
    AboveRoot(v);
    Within(img, im, 0, 2 * v.l.bps, 0, INFO);
    InfoSame(img, im, v, hi);
    TablesSame(img, im, v, hi);
    DirSame(img, im, v, hi);
    ContentsSame(img, im, v, hi);
  }

  lemma ContentsSame(img: seq<byte>, im: seq<byte>, v: Volume, hi: nat)
    requires Shape(v) && Sized(img, v.l) && |img| == Size(v.l) && Contents(img, v)
    requires Agree(img, im, v.l, hi) && ClusterAt(v.l, NextFree(v.l, v.files)) <= hi
    ensures Sized(im, v.l) && Contents(im, v)
  {
    hide Bpc, Size, MaxCluster, Shape, ClusterAt, Data, Fat0, Fat1, FatBytes, NextFree, Clusters, Padded;
    forall i | 0 <= i < |v.files| ensures FileAt(im, v, i) {
      FileBounds(v, i);
      assert FileAt(img, v, i);
      var a := ClusterAt(v.l, v.files[i].start);
      Within(img, im, Fat0(v.l), hi, a, a + |Padded(v.l, v.files[i])|);
    }
  }

  lemma AboveRoot(v: Volume)
    requires Shape(v)
    ensures Data(v.l) + Bpc(v.l) <= ClusterAt(v.l, NextFree(v.l, v.files))
    ensures ClusterAt(v.l, NextFree(v.l, v.files)) <= Size(v.l)
  {
    hide Bpc, Size, MaxCluster, Data, Formatted;
    ClusterSteps(v.l, 2, 3);
    if v.files == [] {
      Regions(v.l);
    } else {
      hide NextFree;
      ClusterSteps(v.l, 3, NextFree(v.l, v.files));
      ClusterEnd(v.l, NextFree(v.l, v.files));
    }
  }

  lemma InfoSame(img: seq<byte>, im: seq<byte>, v: Volume, hi: nat)
    requires Sized(img, v.l) && Info(img, v) && Agree(img, im, v.l, hi)
    ensures Sized(im, v.l) && Info(im, v)
  {
    hide Bpc, Size, MaxCluster, Data, Fat0, Fat1, FatBytes, FromLE, FreeCount, NextFree;
    var a := v.l.bps;
    Within(img, im, 0, 2 * a, a, a + 4);
    Within(img, im, 0, 2 * a, a + 484, a + 488);
    Within(img, im, 0, 2 * a, a + 488, a + 492);
    Within(img, im, 0, 2 * a, a + 492, a + 496);
    Within(img, im, 0, 2 * a, a + 508, a + 512);
  }

  lemma TablesSame(img: seq<byte>, im: seq<byte>, v: Volume, hi: nat)
    requires Shape(v) && Sized(img, v.l) && Tables(img, v) && Agree(img, im, v.l, hi) && Data(v.l) <= hi
    ensures Sized(im, v.l) && Tables(im, v)
  {
    var l := v.l;
    hide Bpc, Size, MaxCluster, Data, Fat0, Fat1, FatBytes, NextFree, Clusters, FromLE;
    Within(img, im, Fat0(l), hi, Fat0(l), Fat1(l));
    Within(img, im, Fat0(l), hi, Fat1(l), Data(l));
    forall c: nat | c < MaxCluster(l) || c < 3 ensures Entry(im, l, c) == Entry(img, l, c) {
      Within(img, im, Fat0(l), hi, Fat0(l) + 4 * c, Fat0(l) + 4 * c + 4);
    }
    hide Entry;
    forall i | 0 <= i < |v.files| ensures FileRun(im, v, i) { assert FileRun(img, v, i); FileBounds(v, i); }
  }

  lemma DirSame(img: seq<byte>, im: seq<byte>, v: Volume, hi: nat)
    requires Shape(v) && Sized(img, v.l) && Dir(img, v) && Agree(img, im, v.l, hi) && Data(v.l) + Bpc(v.l) <= hi
    ensures Sized(im, v.l) && Dir(im, v)
  {
    hide Size, MaxCluster, Data, Fat0, Fat1, FatBytes, NextFree, Bpc, DirBytes;
    var d, lo := Data(v.l), Fat0(v.l);
    forall i | 0 <= i < |v.files| ensures DirAt(im, v, i) {
      assert DirAt(img, v, i);
      Within(img, im, lo, hi, d + DIRENT * i, d + DIRENT * i + DIRENT);
    }
    forall i: nat | |v.files| <= i && DIRENT * (i + 1) <= Bpc(v.l) ensures SlotFree(im, v.l, i) {
      assert SlotFree(img, v.l, i);
      ByteWithin(img, im, lo, hi, d + DIRENT * i);
    }
  }

  // ---------------------------------------------------------------- backup sectors

  /** `FAT32SuperFree`: sectors 0 and 1 are copied to 6 and 7. */
  function Synced(img: seq<byte>, bps: nat): (im: seq<byte>)
    requires 8 * bps <= |img|
    ensures |im| == |img|
  {
    var mid := Splice(img, 6 * bps, img[0..bps]);
    Splice(mid, 7 * bps, mid[bps..2 * bps])
  }

  lemma SyncedEffect(img: seq<byte>, bps: nat)
    requires 8 * bps <= |img|
    ensures var im := Synced(img, bps);
            && im[0..6 * bps] == img[0..6 * bps] && im[8 * bps..] == img[8 * bps..]
            && im[6 * bps..7 * bps] == img[0..bps] && im[7 * bps..8 * bps] == img[bps..2 * bps]
  {
    hide Splice;
    var a := img[0..bps];
    var mid := Splice(img, 6 * bps, a);
    var b := mid[bps..2 * bps];
    SpliceApart(img, 6 * bps, a, 0, 6 * bps);
    SpliceApart(mid, 7 * bps, b, 0, 6 * bps);
    SpliceApart(img, 6 * bps, a, 8 * bps, |img|);
    SpliceApart(mid, 7 * bps, b, 8 * bps, |img|);
    SpliceSame(img, 6 * bps, a);
    SpliceApart(mid, 7 * bps, b, 6 * bps, 7 * bps);
    SpliceSame(mid, 7 * bps, b);
    SpliceApart(img, 6 * bps, a, bps, 2 * bps);
  }

  lemma SyncInv(img: seq<byte>, v: Volume)
    requires Core(img, v)
    ensures Inv(Synced(img, v.l.bps), v)
  {
    hide Bpc, Size, MaxCluster, Shape, BpbBytes, DirBytes, ClusterAt, Data, Fat1, FatBytes, FreeCount, NextFree, Info,
         Tables, Dir, Contents, Boot, Synced;
    AboveRoot(v);
    var bps := v.l.bps;
    var im, hi := Synced(img, bps), ClusterAt(v.l, NextFree(v.l, v.files));
    SyncedEffect(img, bps);
    Within(img, im, 0, 6 * bps, 0, 2 * bps);
    Within(img, im, 8 * bps, |img|, 8 * bps, hi);
    CoreBelow(img, im, v);
    SyncedBackup(img, im, v.l);
  }

  lemma SyncedBackup(img: seq<byte>, im: seq<byte>, l: Layout)
    requires Sized(img, l) && |im| == |img| && im[0..6 * l.bps] == img[0..6 * l.bps]
    requires im[6 * l.bps..7 * l.bps] == img[0..l.bps] && im[7 * l.bps..8 * l.bps] == img[l.bps..2 * l.bps]
    ensures Sized(im, l) && Backup(im, l)
  {
    hide Bpc, MaxCluster, Data, Fat1, FatBytes;
    BackupSlices(img, im, l.bps);
  }

  lemma BackupSlices(img: seq<byte>, im: seq<byte>, b: nat)
    requires INFO <= b && 8 * b <= |img| == |im| && im[0..6 * b] == img[0..6 * b]
    requires im[6 * b..7 * b] == img[0..b] && im[7 * b..8 * b] == img[b..2 * b]
    ensures im[6 * b..6 * b + INFO] == im[0..INFO] && im[7 * b..7 * b + INFO] == im[b..b + INFO]
  {
    SubSlice(im, 6 * b, 7 * b, 6 * b, 6 * b + INFO);
    SubSlice(img, 0, b, 0, INFO);
    SubSlice(im, 7 * b, 8 * b, 7 * b, 7 * b + INFO);
    SubSlice(img, b, 2 * b, b, b + INFO);
    Within(img, im, 0, 6 * b, 0, INFO);
    Within(img, im, 0, 6 * b, b, b + INFO);
  }

  // ---------------------------------------------------------------- linking a chain

  /** First table after linking clusters `s` to `s + k - 1` to their successors. */
  ghost predicate LinkedUpTo(img: seq<byte>, im: seq<byte>, l: Layout, s: nat, k: nat) {
    && |im| == |img| && Sized(img, l) && Sized(im, l) && s + k <= MaxCluster(l)
    && im[..Fat0(l)] == img[..Fat0(l)] && im[Data(l)..] == img[Data(l)..] && Mirrored(im, l)
    && forall c: nat :: c < MaxCluster(l) ==> Entry(im, l, c) == if s <= c < s + k then c + 1 else Entry(img, l, c)
  }

  /** The same value in both tables, as `FAT32SuperWriteEntry` stores it. */
  function PutEntry(img: seq<byte>, l: Layout, c: nat, x: nat): (im: seq<byte>)
    requires Fat1(l) + 4 * c + 4 <= |img| && Fat0(l) <= Fat1(l)
    ensures |im| == |img|
  {
    Splice(Splice(img, Fat0(l) + 4 * c, LE(x, 4)), Fat1(l) + 4 * c, LE(x, 4))
  }

  lemma PutEntryEffect(img: seq<byte>, l: Layout, c: nat, x: nat)
    requires Sized(img, l) && Mirrored(img, l) && c < MaxCluster(l) && x < U32
    ensures var im := PutEntry(img, l, c, x);
            && Sized(im, l) && im[..Fat0(l)] == img[..Fat0(l)] && im[Data(l)..] == img[Data(l)..] && Mirrored(im, l)
            && Entry(im, l, c) == x
            && forall d: nat :: d < MaxCluster(l) && d != c ==> Entry(im, l, d) == Entry(img, l, d)
  {
    hide Size, MaxCluster, Data, Fat0, Fat1, Bpc, LE, FromLE, Pow256, Splice;
    var a, b, e := Fat0(l) + 4 * c, Fat1(l) + 4 * c, LE(x, 4);
    var mid := Splice(img, a, e);
    var im := PutEntry(img, l, c, x);
    SpliceApart(img, a, e, 0, Fat0(l));
    SpliceApart(mid, b, e, 0, Fat0(l));
    SpliceApart(img, a, e, Data(l), |img|);
    SpliceApart(mid, b, e, Data(l), |img|);
    SpliceSame(img, a, e);
    SpliceApart(mid, b, e, a, a + 4);
    Widths();
    DecodeEncode(x, 4);
    forall d: nat | d < MaxCluster(l) && d != c ensures Entry(im, l, d) == Entry(img, l, d) {
      OtherEntry(img, l, c, e, d);
    }
    MirrorKept(img, l, c, e);
  }

  lemma OtherEntry(img: seq<byte>, l: Layout, c: nat, e: seq<byte>, d: nat)
    requires Sized(img, l) && c < MaxCluster(l) && d < MaxCluster(l) && d != c && |e| == 4
    ensures var im := Splice(Splice(img, Fat0(l) + 4 * c, e), Fat1(l) + 4 * c, e);
            Sized(im, l) && Entry(im, l, d) == Entry(img, l, d)
  {
    hide Size, MaxCluster, Data, Fat0, Fat1, Bpc, FromLE, Splice;
    var mid, at := Splice(img, Fat0(l) + 4 * c, e), Fat0(l) + 4 * d;
    SpliceApart(img, Fat0(l) + 4 * c, e, at, at + 4);
    SpliceApart(mid, Fat1(l) + 4 * c, e, at, at + 4);
  }

  lemma MirrorKept(img: seq<byte>, l: Layout, c: nat, e: seq<byte>)
    requires Sized(img, l) && Mirrored(img, l) && c < MaxCluster(l) && |e| == 4
    ensures Mirrored(Splice(Splice(img, Fat0(l) + 4 * c, e), Fat1(l) + 4 * c, e), l)
  {
    hide Size, MaxCluster, Data, Fat0, Fat1, Bpc, Splice;
    var a, b := Fat0(l), Fat1(l);
    var mid := Splice(img, a + 4 * c, e);
    var n := FatBytes(l);
    SpliceLocal(img, a, n, 4 * c, e);
    SpliceApart(mid, b + 4 * c, e, a, b);
    SpliceApart(img, a + 4 * c, e, b, b + n);
    SpliceLocal(mid, b, n, 4 * c, e);
  }

  lemma LinkStep(img: seq<byte>, im: seq<byte>, l: Layout, s: nat, k: nat)
    requires LinkedUpTo(img, im, l, s, k) && s + k < MaxCluster(l)
    ensures LinkedUpTo(img, PutEntry(im, l, s + k, s + k + 1), l, s, k + 1)
  {
    hide Size, MaxCluster, Data, Fat0, Fat1, Bpc, Entry, PutEntry, FatBytes;
    PutEntryEffect(im, l, s + k, s + k + 1);
  }

  /** Image after the whole chain of `n` clusters from `s` is linked and closed. */
  ghost predicate Chained(img: seq<byte>, im: seq<byte>, l: Layout, s: nat, n: nat) {
    && |im| == |img| && Sized(img, l) && Sized(im, l) && n >= 1 && s + n <= MaxCluster(l)
    && im[..Fat0(l)] == img[..Fat0(l)] && im[Data(l)..] == img[Data(l)..] && Mirrored(im, l)
    && Run(im, l, s, n)
    && forall c: nat :: c < MaxCluster(l) && !(s <= c < s + n) ==> Entry(im, l, c) == Entry(img, l, c)
  }

  lemma CloseChain(img: seq<byte>, im: seq<byte>, l: Layout, s: nat, k: nat)
    requires LinkedUpTo(img, im, l, s, k) && s + k < MaxCluster(l)
    ensures Chained(img, PutEntry(im, l, s + k, EOC), l, s, k + 1)
  {
    hide Size, MaxCluster, Data, Fat0, Fat1, Bpc, Entry, PutEntry, FatBytes;
    PutEntryEffect(im, l, s + k, EOC);
  }

  // ---------------------------------------------------------------- one more file

  function Add(v: Volume, f: File): Volume { v.(files := v.files + [f]) }

  lemma AddCounts(v: Volume, f: File)
    ensures NextFree(v.l, Add(v, f).files) == NextFree(v.l, v.files) + Clusters(v.l, f)
    ensures Charged(v.l, Add(v, f).files) == Charged(v.l, v.files) + Ceil(v.l, |f.data|)
  {
  }

  /** Room for the file and a free directory slot keep the volume in shape. */
  lemma AddShape(v: Volume, f: File)
    requires Shape(v) && FileOk(v.l, f) && f.start == NextFree(v.l, v.files)
    requires NextFree(v.l, v.files) + Clusters(v.l, f) <= MaxCluster(v.l) && DIRENT * (|v.files| + 1) <= Bpc(v.l)
    ensures Shape(Add(v, f))
  {
    hide MaxCluster, Bpc, NextFree, Formatted;
    AddCounts(v, f);
    var w := Add(v, f);
    forall i | 0 <= i < |w.files| ensures FileOk(w.l, w.files[i]) && w.files[i].start == NextFree(w.l, w.files[..i]) {
      if i < |v.files| { assert w.files[..i] == v.files[..i]; } else { assert w.files[..i] == v.files; }
    }
  }

  /** What a successful copy of `f` leaves, compared with the image before. */
  ghost predicate Copied(img: seq<byte>, im: seq<byte>, v: Volume, f: File)
    requires Shape(v) && Shape(Add(v, f)) && Sized(img, v.l) && |im| == |img| == Size(v.l)
  {
    var l, slot := v.l, Data(v.l) + DIRENT * |v.files|;
    FileBounds(Add(v, f), |v.files|);
    assert Add(v, f).files[|v.files|] == f;
    && im[0..INFO] == img[0..INFO] && Info(im, Add(v, f))
    && Mirrored(im, l) && Run(im, l, f.start, Clusters(l, f))
    && (forall c: nat :: c < MaxCluster(l) && !(f.start <= c < f.start + Clusters(l, f)) ==>
          Entry(im, l, c) == Entry(img, l, c))
    && im[Data(l)..slot] == img[Data(l)..slot] && im[slot..slot + DIRENT] == DirBytes(f)
    && im[slot + DIRENT..ClusterAt(l, f.start)] == img[slot + DIRENT..ClusterAt(l, f.start)]
    && im[ClusterAt(l, f.start)..ClusterAt(l, f.start) + |Padded(l, f)|] == Padded(l, f)
  }

  /** Then all earlier files are as they were and the new one is readable. */
  lemma CopiedCore(img: seq<byte>, im: seq<byte>, v: Volume, f: File)
    requires Core(img, v) && Shape(Add(v, f)) && |im| == |img| && f.start == NextFree(v.l, v.files)
    requires Copied(img, im, v, f)
    ensures Core(im, Add(v, f))
  {
    hide Bpc, Size, MaxCluster, Shape, BpbBytes, DirBytes, ClusterAt, Data, Fat0, Fat1, FatBytes, FreeCount, NextFree,
         Tables, Dir, Contents, Info, Mirrored, Entry, Run;
    CopiedTables(img, im, v, f);
    CopiedDir(img, im, v, f);
    CopiedContents(img, im, v, f);
  }

  lemma CopiedTables(img: seq<byte>, im: seq<byte>, v: Volume, f: File)
    requires Core(img, v) && Shape(Add(v, f)) && |im| == |img| && f.start == NextFree(v.l, v.files)
    requires Copied(img, im, v, f)
    ensures Tables(im, Add(v, f))
  {
    hide Bpc, Size, MaxCluster, DirBytes, ClusterAt, Data, Fat0, Fat1, FatBytes, NextFree, Entry, Info, Dir, Contents,
         Boot, Clusters, Mirrored;
    var w, k := Add(v, f), |v.files|;
    AddCounts(v, f);
    assert w.files[k] == f;
    forall i | 0 <= i < |w.files| ensures FileRun(im, w, i) {
      FileBounds(w, i);
      if i < k { assert FileRun(img, v, i); FileBounds(v, i); }
    }
  }

  lemma CopiedDir(img: seq<byte>, im: seq<byte>, v: Volume, f: File)
    requires Core(img, v) && Shape(Add(v, f)) && |im| == |img| && f.start == NextFree(v.l, v.files)
    requires Copied(img, im, v, f)
    ensures Dir(im, Add(v, f))
  {
    hide Bpc, Size, MaxCluster, DirBytes, ClusterAt, Data, Fat0, Fat1, FatBytes, NextFree, Entry, Info, Tables,
         Contents, Boot, Clusters, Mirrored, Run;
    AboveRoot(v);
    DirGrows(img, im, v, f, ClusterAt(v.l, f.start));
  }

  lemma DirGrows(img: seq<byte>, im: seq<byte>, v: Volume, f: File, hi: nat)
    requires Shape(v) && Shape(Add(v, f)) && Sized(img, v.l) && |im| == |img| && Dir(img, v)
    requires Data(v.l) + Bpc(v.l) <= hi <= |img|
    requires var d, slot := Data(v.l), Data(v.l) + DIRENT * |v.files|;
             im[d..slot] == img[d..slot] && im[slot..slot + DIRENT] == DirBytes(f)
                 && im[slot + DIRENT..hi] == img[slot + DIRENT..hi]
    ensures Sized(im, v.l) && Dir(im, Add(v, f))
  {
    hide Bpc, Size, MaxCluster, DirBytes, ClusterAt, Data, Fat0, Fat1, FatBytes, NextFree, Formatted;
    var w, k, d := Add(v, f), |v.files|, Data(v.l);
    var slot := d + DIRENT * k;
    forall i | 0 <= i < |w.files| ensures DirAt(im, w, i) {
      if i < k {
        assert DirAt(img, v, i);
        Within(img, im, d, slot, d + DIRENT * i, d + DIRENT * i + DIRENT);
      }
    }
    forall i: nat | |w.files| <= i && DIRENT * (i + 1) <= Bpc(v.l) ensures SlotFree(im, v.l, i) {
      assert SlotFree(img, v.l, i);
      ByteWithin(img, im, slot + DIRENT, hi, d + DIRENT * i);
    }
  }

  lemma CopiedContents(img: seq<byte>, im: seq<byte>, v: Volume, f: File)
    requires Core(img, v) && Shape(Add(v, f)) && |im| == |img| && f.start == NextFree(v.l, v.files)
    requires Copied(img, im, v, f)
    ensures Contents(im, Add(v, f))
  {
    hide Bpc, Size, MaxCluster, DirBytes, ClusterAt, Data, Fat0, Fat1, FatBytes, NextFree, Entry, Info, Tables, Dir,
         Boot, Clusters, Mirrored, Run;
    var w, k := Add(v, f), |v.files|;
    var slot, hi := Data(v.l) + DIRENT * k, ClusterAt(v.l, f.start);
    forall i | 0 <= i < |w.files| ensures FileAt(im, w, i) {
      FileBounds(w, i);
      if i < k {
        assert FileAt(img, v, i);
        FileBounds(v, i);
        var a := ClusterAt(v.l, v.files[i].start);
        Within(img, im, slot + DIRENT, hi, a, a + |Padded(v.l, v.files[i])|);
      }
    }
  }

  // ---------------------------------------------------------------- free count

  lemma {:induction false} ChargedBound(l: Layout, files: seq<File>)
    requires Bpc(l) > 0
    ensures Charged(l, files) + 3 <= NextFree(l, files)
    decreases |files|
  {
    hide Bpc, Ceil;
    if files != [] {
      var f := files[|files| - 1];
      ChargedBound(l, files[..|files| - 1]);
      if f.data == [] { CeilNone(l); }
    }
  }

  /** The recorded free count covers the clusters that are really free, so the assertion
      `freeCount >= allocCluster` cannot fail for a file that passed the size check. It is never
      their exact number: it is larger on every volume. */
  lemma FreeBound(v: Volume)
    requires Shape(v)
    ensures MaxCluster(v.l) - NextFree(v.l, v.files) < FreeCount(v) < U32
    ensures FreeCount(v) >= 0
  {
    hide MaxCluster, Bpc, Formatted, InitialFree;
    Regions(v.l);
    ChargedBound(v.l, v.files);
    TableEntries(v.l);
    OneCluster(v.l);
  }

  lemma OneCluster(l: Layout)
    requires Formatted(l)
    ensures MaxCluster(l) >= 1 && InitialFree(l) >= 0 && FatBytes(l) >= 12
  {
    hide FatBytes, InitialFree;
    TableCovers(l);
    EntriesPerTable(l);
    Quotient(l.n - RESERVED - 2 * l.fatSec, l.spc);
  }

  lemma TableEntries(l: Layout)
    requires Formatted(l)
    ensures 2 * MaxCluster(l) - 3 <= InitialFree(l) < U32
  {
    hide FatBytes, InitialFree, MaxCluster, Size, Bpc, Formatted;
    Regions(l);
    EntriesPerTable(l);
  }

  lemma EntriesPerTable(l: Layout)
    requires Formatted(l)
    ensures var entries := l.fatSec * (l.bps / 4);
            FatBytes(l) == 4 * entries && InitialFree(l) == 2 * entries - 3
  {
    var e := l.bps / 4;
    assert l.bps == 4 * e;
    hide Formatted;
    Assoc(l.fatSec, 4, e);
    Assoc(2, l.fatSec, e);
    Assoc(4, l.fatSec, e);
  }
}
