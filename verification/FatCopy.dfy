/** Reading a volume's parameters back and copying files into it (`FAT32SuperInit`, `FAT32Copyin`). */
module FatCopy {
  import opened Bytes
  import opened FatLayout
  import opened FatImage
  import opened FatBoot
  import opened FatNames
  import opened FatSteps

  // ---------------------------------------------------------------- parameters of a formatted volume

  datatype Super = Super(bps: nat, bpc: nat, bytesPerFat: nat, numSector: nat, numReserved: nat, numFat: nat,
                         maxCluster: nat, rootCluster: nat, numTable: nat, numRoot: nat, nextRoot: nat)

  ghost function SuperOf(v: Volume): Super {
    Super(v.l.bps, Bpc(v.l), FatBytes(v.l), v.l.n, RESERVED, 2 * v.l.fatSec, MaxCluster(v.l), 2, 2,
          Bpc(v.l) / DIRENT, |v.files|)
  }

  /** `chain` is what the table at `fat` links from `root` to the end mark. */
  ghost predicate ChainOf(img: seq<byte>, fat: nat, root: nat, chain: seq<nat>) {
    && chain != [] && chain[0] == root
    && (forall i :: 0 <= i < |chain| ==> LinkAt(img, fat, chain, i))
  }

  ghost predicate LinkAt(img: seq<byte>, fat: nat, chain: seq<nat>, i: nat)
    requires i < |chain|
  {
    && chain[i] < EOC && fat + 4 * chain[i] + 4 <= |img|
    && Load(img, fat + 4 * chain[i], 4) == if i == |chain| - 1 then EOC else chain[i + 1]
  }

  /** Counts the clusters of the root directory. */
  method RootChain(buf: array<byte>, fat: nat, root: nat, ghost chain: seq<nat>) returns (count: nat)
    requires ChainOf(buf[..], fat, root, chain)
    ensures count == |chain|
  {
    hide Load;
    count := 1;
    assert LinkAt(buf[..], fat, chain, 0);
    assert forall i :: 0 <= i < |chain| ==> chain[i] < EOC by {
      forall i | 0 <= i < |chain| ensures chain[i] < EOC { assert LinkAt(buf[..], fat, chain, i); }
    }
    var next := Load(buf[..], fat + 4 * root, 4);
    while next != EOC
      invariant 1 <= count <= |chain|
      invariant next == if count == |chain| then EOC else chain[count]
      decreases |chain| - count
    {
      assert LinkAt(buf[..], fat, chain, count);
      next := Load(buf[..], fat + 4 * next, 4);
      count := count + 1;
    }
  }

  /** Index of the first directory entry whose name starts with a zero byte, or `num`. */
  method FirstFreeSlot(buf: array<byte>, data: nat, num: nat) returns (k: nat)
    requires data + DIRENT * num <= buf.Length
    ensures k <= num && (k < num ==> buf[data + DIRENT * k] == 0)
    ensures forall i :: 0 <= i < k ==> buf[data + DIRENT * i] != 0
  {
    for i := 0 to num
      invariant forall j :: 0 <= j < i ==> buf[data + DIRENT * j] != 0
    {
      if buf[data + DIRENT * i] == 0 { return i; }
    }
    return num;
  }

  lemma SlotUsed(img: seq<byte>, v: Volume, i: nat)
    requires Shape(v) && Sized(img, v.l) && Dir(img, v) && i < |v.files|
    ensures Data(v.l) + DIRENT * i < |img| && img[Data(v.l) + DIRENT * i] != 0
  {
    hide MaxCluster, Data, Fat0, Fat1, FatBytes, NextFree, Bpc, DirBytes, Formatted;
    var a := Data(v.l) + DIRENT * i;
    assert DirAt(img, v, i) && FileOk(v.l, v.files[i]);
    NameFirst(v.files[i]);
    assert img[a] == img[a..a + DIRENT][0];
  }

  /** Used entries come first: each starts with the first character of a name. */
  lemma UsedSlots(img: seq<byte>, v: Volume, k: nat)
    requires Shape(v) && Sized(img, v.l) && Dir(img, v)
    requires k <= Bpc(v.l) / DIRENT && (k < Bpc(v.l) / DIRENT ==> img[Data(v.l) + DIRENT * k] == 0)
    requires forall i :: 0 <= i < k ==> img[Data(v.l) + DIRENT * i] != 0
    ensures k == |v.files|
  {
    hide MaxCluster, Data, Fat0, Fat1, FatBytes, NextFree, Bpc, DirBytes, Formatted;
    var d := Data(v.l);
    if k < |v.files| { SlotUsed(img, v, k); }
    if |v.files| < Bpc(v.l) / DIRENT {
      assert DIRENT * (|v.files| + 1) <= Bpc(v.l);
      assert SlotFree(img, v.l, |v.files|);
      assert img[d + DIRENT * |v.files|] == 0;
    }
  }

  lemma NameFirst(f: File)
    requires |f.name| == NAME
    ensures DirBytes(f)[0] == f.name[0]
  {
    hide LE, PutFields, Packed;
    DirPacked(f);
    var z := f.name + Zeros(DIRENT - NAME);
    GapKept(z, 0, DirFields(f), DIRENT, 0, 1);
    assert DirBytes(f)[0..1][0] == DirBytes(f)[0] && z[0..1][0] == z[0];
  }

  method SuperInit(buf: array<byte>, ghost v: Volume) returns (sb: Super)
    requires Core(buf[..], v)
    ensures sb == SuperOf(v)
  {
    hide Load, Formatted, Dir, Contents, Info, Inv, NextFree, Tables, MaxCluster, Bpc, FatBytes, Data, Fat0, Fat1,
         BpbBytes;
    Geometry(buf[..], v.l, v.media);
    var bps, spc := Load(buf[..], 11, 2), Load(buf[..], 13, 1);
    var fatSize, n := Load(buf[..], 36, 4), Load(buf[..], 32, 4);
    var res, tables, root := Load(buf[..], 14, 2), Load(buf[..], 16, 1), Load(buf[..], 44, 4);
    Products(v.l);
    sb := SuperFrom(buf, bps, spc, fatSize, n, res, fatSize * tables, tables, root, v);
  }

  lemma Products(l: Layout)
    ensures l.fatSec * 2 == 2 * l.fatSec
  {
  }

  method SuperFrom(buf: array<byte>, bps: nat, spc: nat, fatSize: nat, n: nat, res: nat, numFat: nat, tables: nat,
                   root: nat, ghost v: Volume) returns (sb: Super)
    requires Core(buf[..], v) && v.l == Layout(bps, spc, n, fatSize)
    requires res == RESERVED && tables == 2 && root == 2 && numFat == 2 * fatSize
    ensures sb == SuperOf(v)
  {
    hide Load, Formatted, Dir, Contents, Info, Boot, Inv, NextFree, Tables, Data, Fat0, Fat1;
    LayoutRanges(v.l);
    RootAlone(buf[..], v);
    var count := RootChain(buf, res * bps, root, [2]);
    var bpc := spc * bps;
    var data := (res + numFat) * bps;
    RootFits(v, data);
    var next := FirstFreeSlot(buf, data, count * bpc / DIRENT);
    UsedSlots(buf[..], v, next);
    sb := Super(bps, bpc, fatSize * bps, n, res, numFat, (n - res - numFat) / spc, root, tables,
                count * bpc / DIRENT, next);
  }

  lemma RootAlone(img: seq<byte>, v: Volume)
    requires Core(img, v)
    ensures ChainOf(img, RESERVED * v.l.bps, 2, [2])
  {
    hide FromLE, Bpc, Formatted, Dir, Contents, Info, Boot, NextFree, MaxCluster;
  }

  lemma RootFits(v: Volume, data: nat)
    requires Shape(v) && data == (RESERVED + 2 * v.l.fatSec) * v.l.bps
    ensures data == Data(v.l) && data + DIRENT * (Bpc(v.l) / DIRENT) <= Size(v.l)
  {
    Regions(v.l);
    var f, b := v.l.fatSec, v.l.bps;
    hide Bpc, Size, MaxCluster, Formatted;
    assert (RESERVED + 2 * f) * b == RESERVED * b + f * b + f * b;
  }

  // ---------------------------------------------------------------- linking clusters

  /** Stores `x` for cluster `c` in every table. */
  method WriteEntry(buf: array<byte>, sb: Super, c: nat, x: nat, ghost v: Volume)
    requires sb == SuperOf(v) && Formatted(v.l) && Sized(buf[..], v.l) && 1 <= c < sb.maxCluster
    modifies buf
    ensures buf[..] == PutEntry(old(buf[..]), v.l, c, x)
  {
    hide Formatted, MaxCluster, LE, Splice;
    var at := sb.numReserved * sb.bps;
    ghost var s0, l := buf[..], v.l;
    for t := 0 to sb.numTable
      invariant at == if t == 0 then Fat0(l) else if t == 1 then Fat1(l) else Data(l)
      invariant t == 0 ==> buf[..] == s0
      invariant t == 1 ==> buf[..] == Splice(s0, Fat0(l) + 4 * c, LE(x, 4))
      invariant t == 2 ==> buf[..] == PutEntry(s0, l, c, x)
    {
      Write(buf, at + 4 * c, LE(x, 4));
      at := at + sb.bytesPerFat;
    }
  }

  method LinkClusters(buf: array<byte>, sb: Super, first: nat, alloc: nat, ghost v: Volume) returns (next: nat)
    requires sb == SuperOf(v) && Formatted(v.l) && Sized(buf[..], v.l) && Mirrored(buf[..], v.l)
    requires 1 <= first < sb.maxCluster && first + alloc <= sb.maxCluster
    modifies buf
    ensures next == first + (if alloc == 0 then 1 else alloc)
    ensures Chained(old(buf[..]), buf[..], v.l, first, next - first)
  {
    hide Formatted, MaxCluster, Entry, PutEntry, Mirrored, Bpc, Fat0, Fat1, Data, FatBytes;
    ghost var s0, l := buf[..], v.l;
    SmallMax(v.l, s0);
    next := first;
    LinkStart(s0, l, first);
    for i := 1 to (if alloc == 0 then 1 else alloc)
      invariant next == first + i - 1 && LinkedUpTo(s0, buf[..], l, first, i - 1)
    {
      LinkStep(s0, buf[..], l, first, i - 1);
      WriteEntry(buf, sb, next, next + 1, v);
      next := next + 1;
    }
    CloseChain(s0, buf[..], l, first, next - first);
    WriteEntry(buf, sb, next, EOC, v);
    next := next + 1;
  }

  lemma LinkStart(img: seq<byte>, l: Layout, s: nat)
    requires Sized(img, l) && Mirrored(img, l) && s <= MaxCluster(l)
    ensures LinkedUpTo(img, img, l, s, 0)
  {
  }

  lemma SmallMax(l: Layout, img: seq<byte>)
    requires Sized(img, l)
    ensures MaxCluster(l) < U32
  {
  }

  // ---------------------------------------------------------------- the parts of a copy

  method PutDirEntry(buf: array<byte>, slot: nat, name: seq<byte>, f: File)
    requires NameOk(name) && f.name == ShortName(name) && slot + DIRENT <= buf.Length
    modifies buf
    ensures buf[slot..slot + DIRENT] == DirBytes(f)
    ensures buf[..slot] == old(buf[..slot]) && buf[slot + DIRENT..] == old(buf[slot + DIRENT..])
  {
    hide LE, PutFields, Splice, Packed, DirFields, ShortName, NameOk, DirBytes;
    DirPacked(f);
    Write(buf, slot, Zeros(DIRENT));
    CopyName(buf, slot, name);
    ghost var s1 := buf[..];
    StoreFields(buf, slot, DirFields(f), DIRENT);
    PutFieldsLocal(s1, slot, DirFields(f), DIRENT);
    SubSlice(s1, slot, slot + DIRENT, slot, slot + NAME);
    MembersCover(s1[slot..slot + DIRENT], f);
    OutsideBytes(s1, slot, DirFields(f), DIRENT);
  }

  /** The members fill the entry behind the name. */
  lemma MembersCover(e: seq<byte>, f: File)
    requires |e| == DIRENT && e[..NAME] == f.name
    ensures Packed(DirFields(f), DIRENT) && PutFields(e, 0, DirFields(f), DIRENT) == DirBytes(f)
  {
    DirPacked(f);
    hide PutFields, LE, Packed;
    var z, fs := f.name + Zeros(DIRENT - NAME), DirFields(f);
    forall i | 0 <= i < DIRENT ensures PutFields(e, 0, fs, DIRENT)[i] == PutFields(z, 0, fs, DIRENT)[i] {
      var j := if i < 14 then i - NAME else if i < 28 then i / 2 - 4 else 10;
      assert i < NAME ==> e[i] == e[..NAME][i];
      SameAt(e, z, fs, DIRENT, i, if j < 0 then 0 else j);
    }
  }

  method PutCounts(buf: array<byte>, bps: nat, free: nat, next: nat)
    requires bps >= INFO && 2 * bps <= buf.Length && free < U32 && next < U32
    modifies buf
    ensures Load(buf[..], bps + 488, 4) == free && Load(buf[..], bps + 492, 4) == next
    ensures buf[..bps + 488] == old(buf[..bps + 488]) && buf[bps + 496..] == old(buf[bps + 496..])
  {
    hide LE, FromLE, Pow256, Splice;
    ghost var s0, a, b := buf[..], bps + 488, bps + 492;
    Write(buf, bps + 488, LE(free, 4));
    ghost var s1 := buf[..];
    Write(buf, bps + 492, LE(next, 4));
    SpliceSame(s0, a, LE(free, 4));
    SpliceApart(s1, b, LE(next, 4), a, b);
    SpliceSame(s1, b, LE(next, 4));
    SpliceApart(s0, a, LE(free, 4), 0, a);
    SpliceApart(s1, b, LE(next, 4), 0, a);
    SpliceApart(s0, a, LE(free, 4), b + 4, |s0|);
    SpliceApart(s1, b, LE(next, 4), b + 4, |s0|);
    Widths();
    DecodeEncode(free, 4);
    DecodeEncode(next, 4);
  }

  method Sync(buf: array<byte>, bps: nat)
    requires 8 * bps <= buf.Length
    modifies buf
    ensures buf[..] == Synced(old(buf[..]), bps)
  {
    hide Splice;
    Write(buf, 6 * bps, buf[0..bps]);
    Write(buf, 7 * bps, buf[bps..2 * bps]);
  }

  /** The four parts together make a copied file. */
  lemma Assemble(s1: seq<byte>, s2: seq<byte>, s3: seq<byte>, s4: seq<byte>, v: Volume, f: File)
    requires Core(s1, v) && Shape(Add(v, f)) && f.start == NextFree(v.l, v.files) && |s1| == |s2| == |s3| == |s4|
    requires Holding(s1, v.l, f)
    requires var slot := Data(v.l) + DIRENT * |v.files|;
             slot + DIRENT <= |s1| && s2[slot..slot + DIRENT] == DirBytes(f)
             && s2[..slot] == s1[..slot] && s2[slot + DIRENT..] == s1[slot + DIRENT..]
    requires Chained(s2, s3, v.l, f.start, Clusters(v.l, f))
    requires var b := v.l.bps;
             2 * b <= |s3| && b >= INFO && s4[..b + 488] == s3[..b + 488] && s4[b + 496..] == s3[b + 496..]
             && Load(s4, b + 488, 4) == FreeCount(Add(v, f)) && Load(s4, b + 492, 4) == NextFree(v.l, Add(v, f).files)
    ensures Core(s4, Add(v, f))
  {
    var l, slot := v.l, Data(v.l) + DIRENT * |v.files|;
    hide Bpc, Size, MaxCluster, Shape, BpbBytes, DirBytes, ClusterAt, Data, Fat0, Fat1, FatBytes, FreeCount, NextFree,
         Load, Clusters, Tables, Dir, Contents, Boot, Info, Run, Mirrored, Entry, Padded;
    AboveRoot(v);
    var hi, d, fat := ClusterAt(l, f.start), Data(l), Fat0(l);
    SlotBelow(v, f);
    LowSame(s1, s2, s3, s4, l.bps, fat, slot);
    InfoNew(s1, s4, v, f);
    TablesMoved(s2, s3, s4, l, f.start, Clusters(l, f));
    EntriesBelow(s1, s2, l, slot);
    HighSame(s1, s2, s3, s4, l.bps, d, slot, hi, |Padded(l, f)|);
    CopiedFrom(s1, s2, s4, v, f);
    CopiedCore(s1, s4, v, f);
  }

  lemma SlotBelow(v: Volume, f: File)
    requires Shape(v) && Shape(Add(v, f))
    ensures Data(v.l) + DIRENT * |v.files| + DIRENT <= Data(v.l) + Bpc(v.l)
  {
  }

  lemma LowSame(s1: seq<byte>, s2: seq<byte>, s3: seq<byte>, s4: seq<byte>, b: nat, fat: nat, slot: nat)
    requires |s1| == |s2| == |s3| == |s4| && INFO <= b && 8 * b == fat <= slot <= |s1|
    requires s2[..slot] == s1[..slot] && s3[..fat] == s2[..fat]
    requires s4[..b + 488] == s3[..b + 488] && s4[b + 496..] == s3[b + 496..]
    ensures s4[0..b + 488] == s1[0..b + 488] && s4[b + 496..2 * b] == s1[b + 496..2 * b]
  {
    forall i | 0 <= i < 2 * b && !(b + 488 <= i < b + 496) ensures s4[i] == s1[i] {
      assert s1[i] == s1[..slot][i] && s2[i] == s2[..slot][i] == s2[..fat][i] && s3[i] == s3[..fat][i];
      if i < b + 488 {
        assert s3[i] == s3[..b + 488][i] && s4[i] == s4[..b + 488][i];
      } else {
        assert s3[i] == s3[b + 496..][i - (b + 496)] && s4[i] == s4[b + 496..][i - (b + 496)];
      }
    }
  }

  lemma InfoNew(s: seq<byte>, t: seq<byte>, v: Volume, f: File)
    requires Sized(s, v.l) && Info(s, v) && |t| == |s|
    requires var b := v.l.bps;
             && t[0..b + 488] == s[0..b + 488] && t[b + 496..2 * b] == s[b + 496..2 * b]
             && Load(t, b + 488, 4) == FreeCount(Add(v, f)) && Load(t, b + 492, 4) == NextFree(v.l, Add(v, f).files)
    ensures Sized(t, v.l) && Info(t, Add(v, f)) && t[0..INFO] == s[0..INFO]
  {
    hide Bpc, MaxCluster, Data, Fat0, Fat1, FatBytes, FreeCount, NextFree, FromLE;
    var b := v.l.bps;
    Within(s, t, 0, b + 488, 0, INFO);
    Within(s, t, 0, b + 488, b, b + 4);
    Within(s, t, 0, b + 488, b + 484, b + 488);
    Within(s, t, b + 496, 2 * b, b + 508, b + 512);
  }

  /** Updating the information sector leaves the tables alone. */
  lemma TablesMoved(s2: seq<byte>, s3: seq<byte>, s4: seq<byte>, l: Layout, s: nat, n: nat)
    requires Chained(s2, s3, l, s, n) && |s4| == |s3| && s4[l.bps + 496..] == s3[l.bps + 496..]
    ensures Sized(s4, l) && Mirrored(s4, l) && Run(s4, l, s, n)
    ensures forall c: nat :: c < MaxCluster(l) && !(s <= c < s + n) ==> Entry(s4, l, c) == Entry(s2, l, c)
  {
    hide Bpc, MaxCluster, Data, Fat0, Fat1, FatBytes, FromLE;
    var lo, hi := l.bps + 496, |s3|;
    assert s4[lo..hi] == s3[lo..hi];
    Within(s3, s4, lo, hi, Fat0(l), Fat1(l));
    Within(s3, s4, lo, hi, Fat1(l), Data(l));
    forall c: nat | c < MaxCluster(l) ensures Entry(s4, l, c) == Entry(s3, l, c) {
      Within(s3, s4, lo, hi, Fat0(l) + 4 * c, Fat0(l) + 4 * c + 4);
    }
  }

  lemma EntriesBelow(s1: seq<byte>, s2: seq<byte>, l: Layout, slot: nat)
    requires Sized(s1, l) && |s2| == |s1| && Data(l) <= slot <= |s1| && s2[..slot] == s1[..slot]
    ensures Sized(s2, l) && forall c: nat :: c < MaxCluster(l) ==> Entry(s2, l, c) == Entry(s1, l, c)
  {
    hide Bpc, MaxCluster, Data, Fat0, Fat1, FatBytes, FromLE;
    assert s2[0..slot] == s1[0..slot];
    forall c: nat | c < MaxCluster(l) ensures Entry(s2, l, c) == Entry(s1, l, c) {
      Within(s1, s2, 0, slot, Fat0(l) + 4 * c, Fat0(l) + 4 * c + 4);
    }
  }

  lemma HighSame(s1: seq<byte>, s2: seq<byte>, s3: seq<byte>, s4: seq<byte>, b: nat, d: nat, slot: nat, hi: nat, n: nat)
    requires |s1| == |s2| == |s3| == |s4| && b + 496 <= d <= slot && slot + DIRENT <= hi && hi + n <= |s1|
    requires s2[..slot] == s1[..slot] && s2[slot + DIRENT..] == s1[slot + DIRENT..]
    requires s3[d..] == s2[d..] && s4[b + 496..] == s3[b + 496..]
    ensures s4[d..slot] == s1[d..slot] && s4[slot..slot + DIRENT] == s2[slot..slot + DIRENT]
    ensures s4[slot + DIRENT..hi] == s1[slot + DIRENT..hi] && s4[hi..hi + n] == s1[hi..hi + n]
  {
    var z := |s1|;
    Suffix(s3, s4, b + 496);
    Suffix(s2, s3, d);
    Within(s3, s4, b + 496, z, d, z);
    Within(s2, s4, d, z, d, slot);
    Within(s2, s4, d, z, slot, slot + DIRENT);
    Within(s2, s4, d, z, slot + DIRENT, hi);
    Within(s2, s4, d, z, hi, hi + n);
    Prefix(s1, s2, slot);
    Suffix(s1, s2, slot + DIRENT);
    Within(s1, s2, 0, slot, d, slot);
    Within(s1, s2, slot + DIRENT, z, slot + DIRENT, hi);
    Within(s1, s2, slot + DIRENT, z, hi, hi + n);
  }

  lemma CopiedFrom(s1: seq<byte>, s2: seq<byte>, s4: seq<byte>, v: Volume, f: File)
    requires Core(s1, v) && Shape(Add(v, f)) && |s2| == |s4| == |s1| && f.start == NextFree(v.l, v.files)
    requires Sized(s2, v.l) && Sized(s4, v.l) && s4[0..INFO] == s1[0..INFO] && Info(s4, Add(v, f)) && Mirrored(s4, v.l)
    requires f.start + Clusters(v.l, f) <= MaxCluster(v.l) && Run(s4, v.l, f.start, Clusters(v.l, f))
    requires forall c: nat :: c < MaxCluster(v.l) && !(f.start <= c < f.start + Clusters(v.l, f)) ==>
               Entry(s4, v.l, c) == Entry(s2, v.l, c)
    requires forall c: nat :: c < MaxCluster(v.l) ==> Entry(s2, v.l, c) == Entry(s1, v.l, c)
    requires var slot, hi := Data(v.l) + DIRENT * |v.files|, ClusterAt(v.l, f.start);
             slot + DIRENT <= hi && hi + |Padded(v.l, f)| <= |s1|
             && s4[Data(v.l)..slot] == s1[Data(v.l)..slot] && s4[slot..slot + DIRENT] == DirBytes(f)
             && s4[slot + DIRENT..hi] == s1[slot + DIRENT..hi] && s4[hi..hi + |Padded(v.l, f)|] == Padded(v.l, f)
    ensures Copied(s1, s4, v, f)
  {
    hide Bpc, Size, MaxCluster, DirBytes, ClusterAt, Data, Fat0, Fat1, FatBytes, NextFree, Entry, Clusters, Mirrored,
         Run, Info, Tables, Dir, Contents, Boot, Shape, Padded;
  }

  // ---------------------------------------------------------------- copying a file in

  /** What the operating system answers: `fstat`, `lseek`, and how many bytes `read` delivered (-1 on error). */
  datatype Io = Io(statOk: bool, seekOk: bool, got: int)

  /** Sizes are kept in 32 bits. */
  function StoredSize(content: seq<byte>): (n: nat)
    ensures n <= |content| && n < U32
  {
    |content| % U32
  }

  /** A call returns the start sector, or 0 for a file it turns away, or an assertion aborts it. */
  datatype CopyResult = Returned(sector: nat) | Aborted

  ghost predicate Succeeds(v: Volume, size: nat, io: Io) {
    && io.statOk && Room(v, size) && NextFree(v.l, v.files) < MaxCluster(v.l)
    && DIRENT * (|v.files| + 1) <= Bpc(v.l) && io.seekOk && io.got == size
  }

  /** The volume has no room for a third cluster, or an empty file passes all checks on a full volume. */
  ghost predicate Aborts(v: Volume, size: nat, io: Io) {
    && io.statOk
    && (|| MaxCluster(v.l) < NextFree(v.l, v.files)
        || (&& size == 0 && NextFree(v.l, v.files) == MaxCluster(v.l) && DIRENT * (|v.files| + 1) <= Bpc(v.l)
            && io.seekOk && io.got == 0))
  }

  function NewFile(v: Volume, name: seq<byte>, attr: byte, content: seq<byte>): File {
    File(NextFree(v.l, v.files), ShortName(name), attr, content[..StoredSize(content)])
  }

  /** The size check of `FAT32Copyin`. */
  ghost predicate Room(v: Volume, size: nat) {
    NextFree(v.l, v.files) <= MaxCluster(v.l) && size <= Bpc(v.l) * (MaxCluster(v.l) - NextFree(v.l, v.files))
  }

  /** The whole file is stored exactly if it is below 4 GiB: sizes are kept modulo 2^32. */
  lemma WholeContent(v: Volume, name: seq<byte>, attr: byte, content: seq<byte>)
    ensures NewFile(v, name, attr, content).data == content <==> |content| < 0x1_0000_0000
  {
    assert |content| < U32 ==> StoredSize(content) == |content|;
    assert content[..|content|] == content;
  }

  /** A file of exactly 4 GiB is stored as an empty one. */
  lemma FourGibibytes(v: Volume, name: seq<byte>, attr: byte)
    ensures StoredSize(Zeros(U32)) == 0 && NewFile(v, name, attr, Zeros(U32)).data == []
  {
  }

  /** A file that passed the size check fits in the clusters left. */
  lemma FileFits(v: Volume, size: nat)
    requires Shape(v) && Room(v, size)
    ensures Ceil(v.l, size) <= MaxCluster(v.l) - NextFree(v.l, v.files)
    ensures size <= Ceil(v.l, size) * Bpc(v.l)
    ensures ClusterAt(v.l, NextFree(v.l, v.files)) + Ceil(v.l, size) * Bpc(v.l) <= Size(v.l)
  {
    hide MaxCluster, Bpc, Size, Formatted, Data, NextFree, Ceil, ClusterAt;
    Regions(v.l);
    CeilIs(v.l, size);
    FewEnough(Bpc(v.l), Ceil(v.l, size), size, MaxCluster(v.l) - NextFree(v.l, v.files));
    ClusterSteps(v.l, NextFree(v.l, v.files), MaxCluster(v.l));
    ClusterEnd(v.l, MaxCluster(v.l));
  }

  lemma FewEnough(b: nat, q: nat, size: nat, room: nat)
    requires size <= q * b < size + b && size <= b * room
    ensures q <= room && q * b <= room * b
  {
    assert b * room == room * b;
    NotAbove(q, room, b);
    AtLeast(room, q, b);
  }

  lemma NewShape(v: Volume, f: File)
    requires Shape(v) && FileOk(v.l, f) && f.start == NextFree(v.l, v.files)
    requires Room(v, |f.data|) && DIRENT * (|v.files| + 1) <= Bpc(v.l)
    requires f.data != [] || f.start < MaxCluster(v.l)
    ensures Shape(Add(v, f)) && f.start + Clusters(v.l, f) <= MaxCluster(v.l) && f.start < MaxCluster(v.l)
    ensures FreeCount(Add(v, f)) == FreeCount(v) - Ceil(v.l, |f.data|) >= 0 && FreeCount(Add(v, f)) < U32
    ensures NextFree(v.l, Add(v, f).files) == f.start + Clusters(v.l, f) < U32
    ensures Clusters(v.l, f) == if Ceil(v.l, |f.data|) == 0 then 1 else Ceil(v.l, |f.data|)
  {
    hide MaxCluster, Bpc, NextFree, Formatted, Charged, InitialFree, Ceil, Room;
    FileFits(v, |f.data|);
    Positive(v);
    CeilIs(v.l, |f.data|);
    CeilNone(v.l);
    AddShape(v, f);
    AddCounts(v, f);
    FreeBound(v);
    FreeBound(Add(v, f));
  }

  lemma Positive(v: Volume)
    requires Shape(v)
    ensures Bpc(v.l) > 0 && MaxCluster(v.l) < U32
  {
    Regions(v.l);
  }

  /** Clears the clusters and receives what `read` delivers. */
  method FillClusters(buf: array<byte>, at: nat, n: nat, data: seq<byte>, io: Io) returns (ok: bool)
    requires at + n <= buf.Length && |data| <= n && io.got <= |data|
    modifies buf
    ensures ok <==> io.seekOk && io.got == |data|
    ensures ok ==> buf[at..at + n] == data + Zeros(n - |data|)
    ensures buf[..at] == old(buf[..at]) && buf[at + n..] == old(buf[at + n..])
  {
    hide Splice;
    ghost var s0 := buf[..];
    Write(buf, at, Zeros(n));
    SpliceFrame(s0, at, Zeros(n), n);
    if !io.seekOk { return false; }
    ghost var s1 := buf[..];
    var part := if io.got < 0 then [] else data[..io.got];
    Write(buf, at, part);
    SpliceFrame(s1, at, part, n);
    Filled(s0, at, n, part);
    ok := io.got == |data|;
    assert ok ==> part == data;
  }

  lemma SpliceFrame(s: seq<byte>, at: nat, d: seq<byte>, n: nat)
    requires |d| <= n && at + n <= |s|
    ensures Splice(s, at, d)[..at] == s[..at] && Splice(s, at, d)[at + n..] == s[at + n..]
  {
  }

  /** Cleared clusters that receive some bytes hold those bytes and zeros behind them. */
  lemma Filled(s: seq<byte>, at: nat, n: nat, part: seq<byte>)
    requires |part| <= n && at + n <= |s|
    ensures Splice(Splice(s, at, Zeros(n)), at, part)[at..at + n] == part + Zeros(n - |part|)
  {
  }

  /** A failed copy touches only the backup sectors and clusters nobody owns. */
  ghost predicate OnlyFreeSpace(img: seq<byte>, im: seq<byte>, v: Volume)
    requires Shape(v) && |img| == |im| == Size(v.l)
  {
    AboveRoot(v);
    var b, hi := v.l.bps, ClusterAt(v.l, NextFree(v.l, v.files));
    8 * b <= hi && im[0..6 * b] == img[0..6 * b] && im[8 * b..hi] == img[8 * b..hi]
  }

  /** What an abort leaves: the image as it was, or with a directory entry for which no cluster was
      linked. */
  ghost predicate Stranded(img: seq<byte>, im: seq<byte>, v: Volume, f: File)
    requires Core(img, v)
  {
    if MaxCluster(v.l) < NextFree(v.l, v.files) then im == img
    else
      var slot := Data(v.l) + DIRENT * |v.files|;
      && |im| == |img| && slot + DIRENT <= Data(v.l) + Bpc(v.l) && |f.name| == NAME
      && im[..slot] == img[..slot] && im[slot..slot + DIRENT] == DirBytes(f)
         && im[slot + DIRENT..] == img[slot + DIRENT..]
  }

  method CopyIn(buf: array<byte>, content: seq<byte>, io: Io, name: seq<byte>, attr: byte, ghost v: Volume)
    returns (r: CopyResult)
    requires Inv(buf[..], v)
    requires NameOk(name)
    requires io.got <= StoredSize(content)
    modifies buf
    ensures r.Aborted? <==> Aborts(v, StoredSize(content), io)
    ensures r.Returned? ==>
              r.sector == if Succeeds(v, StoredSize(content), io) then SectorOf(v.l, NextFree(v.l, v.files)) else 0
    ensures Succeeds(v, StoredSize(content), io) ==> Inv(buf[..], Add(v, NewFile(v, name, attr, content)))
    ensures r == Returned(0) ==> Inv(buf[..], v) && OnlyFreeSpace(old(buf[..]), buf[..], v)
    ensures r.Aborted? ==> Stranded(old(buf[..]), buf[..], v, NewFile(v, name, attr, content))
  {
    hide Shape, Inv, Core, MaxCluster, Bpc, Size, NextFree, ClusterAt, FreeCount, Load, Fat0, Fat1, Data, FatBytes,
         SectorOf, Stranded, OnlyFreeSpace, NewFile, NameOk, ShortName;
    InfoLoads(buf[..], v);
    Unchanged(buf[..], v);
    Made(v, name, attr, content);
    SectorPositive(v);
    if !io.statOk { return Returned(0); }
    var size := StoredSize(content);
    var sb := SuperInit(buf, v);
    var next, free := Load(buf[..], sb.bps + 492, 4), Load(buf[..], sb.bps + 488, 4);
    if sb.maxCluster < next {
      StrandedNot(buf[..], v, NewFile(v, name, attr, content));
      return Aborted;
    }
    SlotsLeft(v);
    if sb.bpc * (sb.maxCluster - next) < size || sb.nextRoot == sb.numRoot {
      Sync(buf, sb.bps);
      SyncInv(old(buf[..]), v);
      SyncFree(old(buf[..]), v);
      return Returned(0);
    }
    r := CopyChecked(buf, sb, next, free, content[..size], io, name, attr, v);
  }

  lemma InfoLoads(img: seq<byte>, v: Volume)
    requires Inv(img, v)
    ensures Core(img, v) && Shape(v) && |img| == Size(v.l) && Sized(img, v.l) && 512 <= v.l.bps && 8 * v.l.bps <= |img|
    ensures Load(img, v.l.bps + 492, 4) == NextFree(v.l, v.files) && Load(img, v.l.bps + 488, 4) == FreeCount(v)
  {
    hide Shape, Boot, Tables, Dir, Contents, MaxCluster, Bpc, Size, NextFree, FreeCount, Load, Fat1, Data, FatBytes;
  }

  lemma Made(v: Volume, name: seq<byte>, attr: byte, content: seq<byte>)
    ensures NewFile(v, name, attr, content)
         == File(NextFree(v.l, v.files), ShortName(name), attr, content[..StoredSize(content)])
  {
  }

  lemma SectorPositive(v: Volume)
    ensures SectorOf(v.l, NextFree(v.l, v.files)) > 0
  {
  }

  lemma StrandedNot(img: seq<byte>, v: Volume, f: File)
    requires Core(img, v) && MaxCluster(v.l) < NextFree(v.l, v.files)
    ensures Stranded(img, img, v, f)
  {
  }

  lemma SlotsLeft(v: Volume)
    requires Shape(v)
    ensures |v.files| == Bpc(v.l) / DIRENT <==> DIRENT * (|v.files| + 1) > Bpc(v.l)
  {
  }

  lemma Unchanged(img: seq<byte>, v: Volume)
    requires Shape(v) && |img| == Size(v.l) && Sized(img, v.l)
    ensures OnlyFreeSpace(img, img, v)
  {
    AboveRoot(v);
  }

  lemma SyncFree(img: seq<byte>, v: Volume)
    requires Core(img, v)
    ensures OnlyFreeSpace(img, Synced(img, v.l.bps), v)
  {
    hide Bpc, MaxCluster, Shape, ClusterAt, Data, Fat1, FatBytes, NextFree, Boot, Tables, Dir, Contents, Info, Synced,
         Size;
    AboveRoot(v);
    var b, hi := v.l.bps, ClusterAt(v.l, NextFree(v.l, v.files));
    var im := Synced(img, b);
    SyncedEffect(img, b);
    assert im[8 * b..|img|] == img[8 * b..|img|];
    Within(img, im, 8 * b, |img|, 8 * b, hi);
  }

  /** Past the size and directory checks. */
  method CopyChecked(buf: array<byte>, sb: Super, next: nat, free: nat, data: seq<byte>, io: Io, name: seq<byte>,
                     attr: byte, ghost v: Volume)
    returns (r: CopyResult)
    requires Inv(buf[..], v) && sb == SuperOf(v) && next == NextFree(v.l, v.files) && free == FreeCount(v)
    requires NameOk(name) && |data| < U32 && io.got <= |data|
    requires Room(v, |data|) && DIRENT * (|v.files| + 1) <= sb.bpc
    modifies buf
    ensures var f, ok := File(next, ShortName(name), attr, data), io.seekOk && io.got == |data|;
            && (!ok ==> r == Returned(0) && Inv(buf[..], v) && OnlyFreeSpace(old(buf[..]), buf[..], v))
            && (ok && next < sb.maxCluster ==> r == Returned(SectorOf(v.l, next)) && Inv(buf[..], Add(v, f)))
            && (ok && next == sb.maxCluster ==> data == [] && r == Aborted && Stranded(old(buf[..]), buf[..], v, f))
  {
    hide Shape, Boot, Tables, Dir, Contents, Info, MaxCluster, Size, NextFree, ClusterAt, FreeCount, Load, Fat0, Fat1,
         Data, Backup, Clusters, Room, Bpc, Ceil, FatBytes, SectorOf, Padded;
    hide Stranded, NameOk, ShortName;
    ShortFirst(name);
    var f := File(next, ShortName(name), attr, data);
    ghost var s0 := buf[..];
    RoomLeft(v, |data|);
    var ret, alloc, at, n := Locate(sb, next, |data|, v);
    var ok := FillClusters(buf, at, n, data, io);
    ghost var s1 := buf[..];
    DataOnly(s0, s1, v);
    if !ok {
      Sync(buf, sb.bps);
      SyncInv(s1, v);
      SyncFree(s1, v);
      FreeTwice(s0, s1, buf[..], v);
      return Returned(0);
    }
    if next == sb.maxCluster {
      NothingFilled(s0, s1, at, n);
      Strand(buf, sb, name, f, v);
      return Aborted;
    }
    NewShape(v, f);
    ClustersHold(v.l, f);
    PaddedIs(v.l, f, n);
    Commit(buf, sb, next, free, alloc, name, f, v);
    r := Returned(ret);
  }

  lemma PaddedIs(l: Layout, f: File, n: nat)
    requires n == Ceil(l, |f.data|) * Bpc(l) && n >= |f.data|
    ensures Padded(l, f) == f.data + Zeros(n - |f.data|)
  {
  }

  /** Only an empty file finds room on a full volume. */
  lemma RoomLeft(v: Volume, size: nat)
    requires Shape(v) && Room(v, size)
    ensures NextFree(v.l, v.files) == MaxCluster(v.l) ==> size == 0 && Ceil(v.l, size) == 0
    ensures NextFree(v.l, v.files) <= MaxCluster(v.l)
  {
    hide MaxCluster, NextFree, Shape;
    CeilNone(v.l);
  }

  lemma NothingFilled(s0: seq<byte>, s1: seq<byte>, at: nat, n: nat)
    requires |s0| == |s1| && n == 0 && at <= |s0| && s1[..at] == s0[..at] && s1[at + n..] == s0[at + n..]
    ensures s1 == s0
  {
  }

  /** The directory entry is written before the bounds assertion of the first table write fails. */
  method Strand(buf: array<byte>, sb: Super, name: seq<byte>, f: File, ghost v: Volume)
    requires NameOk(name) && f.name == ShortName(name)
    requires Core(buf[..], v) && sb == SuperOf(v) && FileOk(v.l, f) && DIRENT * (|v.files| + 1) <= sb.bpc
    requires MaxCluster(v.l) >= NextFree(v.l, v.files)
    modifies buf
    ensures Stranded(old(buf[..]), buf[..], v, f)
  {
    hide Shape, Boot, Info, Tables, Dir, Contents, MaxCluster, NextFree, Bpc, FatBytes, DirBytes, Fat0, Fat1, Data,
         NameOk, ShortName;
    DataStart(v);
    var slot := (sb.numReserved + sb.numFat) * sb.bps + DIRENT * sb.nextRoot;
    PutDirEntry(buf, slot, name, f);
  }

  /** Start sector, clusters needed, and the bytes they span. */
  method Locate(sb: Super, next: nat, size: nat, ghost v: Volume) returns (ret: nat, alloc: nat, at: nat, n: nat)
    requires Shape(v) && sb == SuperOf(v) && next == NextFree(v.l, v.files) && Room(v, size)
    ensures ret == SectorOf(v.l, next) && alloc == Ceil(v.l, size) && at == ClusterAt(v.l, next)
    ensures size <= n && at + n <= Size(v.l) && n == alloc * Bpc(v.l)
  {
    hide Shape, MaxCluster, Size, NextFree, ClusterAt, FatBytes, Room, SectorOf;
    Positive(v);
    StartSector(v, next);
    FileFits(v, size);
    alloc := CDiv(size, sb.bpc);
    ret := (next - 2) * (sb.bpc / sb.bps) + sb.numReserved + sb.numFat;
    at, n := ret * sb.bps, alloc * sb.bpc;
  }

  lemma StartSector(v: Volume, next: nat)
    requires Shape(v) && 2 <= next
    ensures Bpc(v.l) / v.l.bps == v.l.spc && v.l.bps > 0
    ensures (next - 2) * v.l.spc + RESERVED + 2 * v.l.fatSec == SectorOf(v.l, next)
    ensures SectorOf(v.l, next) * v.l.bps == ClusterAt(v.l, next)
  {
    LayoutRanges(v.l);
    SectorBytes(v.l, next);
    ExactQuotient(v.l.spc, v.l.bps);
  }

  lemma ExactQuotient(a: nat, b: nat)
    requires b > 0
    ensures (a * b) / b == a
  {
    Quotient(a * b, b);
    MultiplesEqual((a * b) / b, a, b);
  }

  lemma MultiplesEqual(x: nat, y: nat, b: nat)
    requires b > 0 && x * b <= y * b < x * b + b
    ensures x == y
  {
    if x < y { AtLeast(y, x + 1, b); }
    if y < x { AtLeast(x, y + 1, b); }
    assert (x + 1) * b == x * b + b && (y + 1) * b == y * b + b;
  }

  lemma DataOnly(s0: seq<byte>, s1: seq<byte>, v: Volume)
    requires Inv(s0, v) && |s1| == |s0| && ClusterAt(v.l, NextFree(v.l, v.files)) <= |s0|
    requires var at := ClusterAt(v.l, NextFree(v.l, v.files)); s1[..at] == s0[..at]
    ensures Core(s1, v) && OnlyFreeSpace(s0, s1, v)
  {
    hide Shape, Boot, Tables, Dir, Contents, Info, MaxCluster, Size, NextFree, ClusterAt, FreeCount, Bpc, FatBytes,
         Fat1, Data, Backup;
    AboveRoot(v);
    var at, b := ClusterAt(v.l, NextFree(v.l, v.files)), v.l.bps;
    assert s1[0..at] == s0[0..at];
    Within(s0, s1, 0, at, 0, 2 * b);
    Within(s0, s1, 0, at, 0, 6 * b);
    Within(s0, s1, 0, at, 8 * b, at);
    CoreBelow(s0, s1, v);
  }

  lemma FreeTwice(s0: seq<byte>, s1: seq<byte>, s2: seq<byte>, v: Volume)
    requires Shape(v) && |s0| == |s1| == |s2| == Size(v.l)
    requires OnlyFreeSpace(s0, s1, v) && OnlyFreeSpace(s1, s2, v)
    ensures OnlyFreeSpace(s0, s2, v)
  {
  }

  /** The file's clusters hold its contents and zeros behind them. */
  ghost predicate Holding(img: seq<byte>, l: Layout, f: File) {
    && f.start >= 2 && ClusterAt(l, f.start) + |Padded(l, f)| <= |img|
    && img[ClusterAt(l, f.start)..ClusterAt(l, f.start) + |Padded(l, f)|] == Padded(l, f)
  }

  /** Directory entry, tables, counts and backups. */
  method Commit(buf: array<byte>, sb: Super, next: nat, free: nat, alloc: nat, name: seq<byte>, f: File,
                ghost v: Volume)
    requires NameOk(name) && f.name == ShortName(name)
    requires Core(buf[..], v) && sb == SuperOf(v) && next == f.start == NextFree(v.l, v.files) && free == FreeCount(v)
    requires FileOk(v.l, f) && Shape(Add(v, f)) && alloc == Ceil(v.l, |f.data|)
    requires f.start + Clusters(v.l, f) <= MaxCluster(v.l) && f.start < MaxCluster(v.l)
    requires Clusters(v.l, f) == if alloc == 0 then 1 else alloc
    requires FreeCount(Add(v, f)) == FreeCount(v) - alloc >= 0 && FreeCount(Add(v, f)) < U32
    requires NextFree(v.l, Add(v, f).files) == f.start + Clusters(v.l, f) < U32
    requires Holding(buf[..], v.l, f)
    modifies buf
    ensures Inv(buf[..], Add(v, f))
  {
    hide Shape, Boot, Info, Tables, Dir, Contents, MaxCluster, Size, NextFree, ClusterAt, FreeCount, Load, Inv,
         Clusters, Ceil, Bpc, FatBytes, DirBytes, Fat0, Fat1, Data, Entry, Mirrored, Chained, Formatted, Padded,
         Holding, NameOk, ShortName;
    ghost var s1, l := buf[..], v.l;
    CoreMirrored(s1, v);
    SlotBelow(v, f);
    DataStart(v);
    var slot := (sb.numReserved + sb.numFat) * sb.bps + DIRENT * sb.nextRoot;
    PutDirEntry(buf, slot, name, f);
    ghost var s2 := buf[..];
    MirrorBelow(s1, s2, l, slot);
    var after := LinkClusters(buf, sb, next, alloc, v);
    ghost var s3 := buf[..];
    PutCounts(buf, sb.bps, free - alloc, after);
    Assemble(s1, s2, s3, buf[..], v, f);
    ghost var s4 := buf[..];
    Sync(buf, sb.bps);
    SyncInv(s4, Add(v, f));
  }

  lemma CoreMirrored(img: seq<byte>, v: Volume)
    requires Core(img, v)
    ensures Mirrored(img, v.l) && v.l.bps >= INFO && 8 * v.l.bps <= |img| && 1 <= NextFree(v.l, v.files)
  {
    hide Mirrored, Boot, Info, Dir, Contents, Shape, Bpc, MaxCluster, FatBytes, Fat1, Data;
  }

  lemma DataStart(v: Volume)
    requires Shape(v)
    ensures (RESERVED + 2 * v.l.fatSec) * v.l.bps == Data(v.l) && Formatted(v.l)
  {
    RootFits(v, (RESERVED + 2 * v.l.fatSec) * v.l.bps);
  }

  lemma MirrorBelow(s1: seq<byte>, s2: seq<byte>, l: Layout, slot: nat)
    requires Sized(s1, l) && |s2| == |s1| && Mirrored(s1, l) && Data(l) <= slot <= |s1| && s2[..slot] == s1[..slot]
    ensures Sized(s2, l) && Mirrored(s2, l)
  {
    hide Bpc, MaxCluster, Data, Fat0, Fat1, FatBytes;
    assert s2[0..slot] == s1[0..slot];
    Within(s1, s2, 0, slot, Fat0(l), Fat1(l));
    Within(s1, s2, 0, slot, Fat1(l), Data(l));
  }
}
