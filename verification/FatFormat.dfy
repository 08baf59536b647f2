/** Formatting a volume (`createFAT32`). */
module FatFormat {
  import opened Bytes
  import opened FatLayout
  import opened FatImage
  import opened FatSteps
  import FatBoot
  import FatSpec

  datatype FormatResult = Done | Rejected | Aborted

  function InfoFields(free: nat, next: nat): seq<Field> {
    [Field(0, LE(0x41615252, 4)), Field(484, LE(0x61417272, 4)), Field(488, LE(free, 4)), Field(492, LE(next, 4)),
     Field(508, LE(0xaa550000, 4))]
  }

  lemma InfoPacked(free: nat, next: nat)
    ensures Packed(InfoFields(free, next), INFO)
  {
  }

  /** Boot sector at 0 and its copy at sector 6. */
  method FormatBoot(buf: array<byte>, l: Layout, media: byte)
    requires l.bps >= INFO && 8 * l.bps <= buf.Length
    modifies buf
    ensures buf[0..INFO] == BpbBytes(l, media) && buf[6 * l.bps..6 * l.bps + INFO] == BpbBytes(l, media)
    ensures forall i :: INFO <= i < buf.Length && !(6 * l.bps <= i < 6 * l.bps + INFO) ==> buf[i] == old(buf[i])
  {
    hide LE, PutFields, Splice, Packed, BpbFields;
    ghost var before := buf[..];
    BpbPacked(l, media);
    Write(buf, 0, Zeros(INFO));
    ghost var s1 := buf[..];
    StoreFields(buf, 0, BpbFields(l, media), INFO);
    PutFieldsLocal(s1, 0, BpbFields(l, media), INFO);
    OutsideBytes(s1, 0, BpbFields(l, media), INFO);
    SpliceSame(before, 0, Zeros(INFO));
    ghost var s2 := buf[..];
    var copy := buf[0..INFO];
    Write(buf, 6 * l.bps, copy);
    SpliceApart(s2, 6 * l.bps, copy, 0, INFO);
    SpliceSame(s2, 6 * l.bps, copy);
  }

  /** Information sector at 1 and its copy at sector 7; bytes between the members keep their value. */
  method FormatInfo(buf: array<byte>, l: Layout, free: nat)
    requires l.bps >= INFO && 8 * l.bps <= buf.Length && free < U32
    modifies buf
    ensures buf[0..INFO] == old(buf[0..INFO])
            && buf[6 * l.bps..6 * l.bps + INFO] == old(buf[6 * l.bps..6 * l.bps + INFO])
    ensures buf[7 * l.bps..7 * l.bps + INFO] == buf[l.bps..l.bps + INFO]
    ensures InfoAt(buf[..], l.bps, free, 3)
    ensures forall i :: 0 <= i < buf.Length && !(l.bps <= i < l.bps + INFO || 7 * l.bps <= i < 7 * l.bps + INFO) ==>
              buf[i] == old(buf[i])
  {
    hide LE, PutFields, Splice, Packed;
    var a := l.bps;
    ghost var s0, fs := buf[..], InfoFields(free, 3);
    InfoPacked(free, 3);
    StoreFields(buf, a, InfoFields(free, 3), INFO);
    ghost var s1 := buf[..];
    InfoStored(s0, a, free, 3);
    OutsideBytes(s0, a, fs, INFO);
    OutsideKept(s0, a, fs, INFO, 0, INFO);
    OutsideKept(s0, a, fs, INFO, 6 * a, 6 * a + INFO);
    var copy := buf[a..a + INFO];
    Write(buf, 7 * a, copy);
    SpliceApart(s1, 7 * a, copy, 0, INFO);
    SpliceApart(s1, 7 * a, copy, 6 * a, 6 * a + INFO);
    SpliceSame(s1, 7 * a, copy);
    SpliceApart(s1, 7 * a, copy, a, a + INFO);
    InfoMoved(s1, buf[..], a, free, 3);
  }

  ghost predicate InfoAt(img: seq<byte>, a: nat, free: nat, next: nat) {
    && a + INFO <= |img|
    && Load(img, a, 4) == 0x41615252 && Load(img, a + 484, 4) == 0x61417272 && Load(img, a + 508, 4) == 0xaa550000
    && Load(img, a + 488, 4) == free && Load(img, a + 492, 4) == next
  }

  lemma InfoStored(s: seq<byte>, a: nat, free: nat, next: nat)
    requires a + INFO <= |s| && free < U32 && next < U32
    ensures Packed(InfoFields(free, next), INFO) && InfoAt(PutFields(s, a, InfoFields(free, next), INFO), a, free, next)
  {
    hide LE, PutFields, Splice, Packed, FromLE, Pow256;
    var fs := InfoFields(free, next);
    InfoPacked(free, next);
    Widths();
    FieldKept(s, a, fs, INFO, 0);
    FieldKept(s, a, fs, INFO, 1);
    FieldKept(s, a, fs, INFO, 2);
    FieldKept(s, a, fs, INFO, 3);
    FieldKept(s, a, fs, INFO, 4);
    DecodeEncode(0x41615252, 4);
    DecodeEncode(0x61417272, 4);
    DecodeEncode(free, 4);
    DecodeEncode(next, 4);
    DecodeEncode(0xaa550000, 4);
  }

  lemma InfoMoved(s: seq<byte>, t: seq<byte>, a: nat, free: nat, next: nat)
    requires InfoAt(s, a, free, next) && |t| == |s| && t[a..a + INFO] == s[a..a + INFO]
    ensures InfoAt(t, a, free, next)
  {
    hide FromLE;
    Within(s, t, a, a + INFO, a, a + 4);
    Within(s, t, a, a + INFO, a + 484, a + 488);
    Within(s, t, a, a + INFO, a + 488, a + 492);
    Within(s, t, a, a + INFO, a + 492, a + 496);
    Within(s, t, a, a + INFO, a + 508, a + 512);
  }

  /** Both tables cleared, then their first three entries set alike. */
  method FormatTables(buf: array<byte>, l: Layout, media: byte)
    requires Sized(buf[..], l) && media as nat < 256 && FatBytes(l) >= 12
    modifies buf
    ensures buf[..Fat0(l)] == old(buf[..Fat0(l)]) && Sized(buf[..], l)
    ensures FreshTables(buf[..], l, media)
    ensures forall i :: Data(l) <= i < buf.Length ==> buf[i] == old(buf[i])
  {
    hide Splice, Bpc, Size, MaxCluster, LE;
    ghost var s0 := buf[..];
    var a, b, n := Fat0(l), Fat1(l), FatBytes(l);
    Write(buf, a, Zeros(2 * n));
    ghost var s1 := buf[..];
    var head := LE(0xffff00 + media as nat, 4) + LE(0x0c00_0000, 4) + LE(EOC, 4);
    Write(buf, a, head);
    ghost var s2 := buf[..];
    Write(buf, b, head);
    SpliceApart(s0, a, Zeros(2 * n), 0, a);
    SpliceApart(s1, a, head, 0, a);
    SpliceApart(s2, b, head, 0, a);
    TablesFilled(s0, l, media);
    assert buf[..a] == buf[..][0..a] && old(buf[..a]) == s0[0..a];
  }

  ghost predicate FreshTables(img: seq<byte>, l: Layout, media: byte)
    requires Sized(img, l)
  {
    && Mirrored(img, l) && Fat0(l) + 12 <= Fat1(l)
    && Entry(img, l, 0) == 0xffff00 + media as nat && Entry(img, l, 1) == 0x0c00_0000 && Entry(img, l, 2) == EOC
    && (forall c :: 3 <= c < MaxCluster(l) ==> Entry(img, l, c) == 0)
    && forall i :: Fat0(l) + 12 <= i < Fat1(l) ==> img[i] == 0
  }

  /** The three entries as one run of twelve bytes. */
  lemma TablesFilled(s: seq<byte>, l: Layout, media: byte)
    requires Sized(s, l) && FatBytes(l) >= 12
    ensures var n, head := FatBytes(l), LE(0xffff00 + media as nat, 4) + LE(0x0c00_0000, 4) + LE(EOC, 4);
            var im := Splice(Splice(Splice(s, Fat0(l), Zeros(2 * n)), Fat0(l), head), Fat1(l), head);
            Sized(im, l) && FreshTables(im, l, media)
  {
    hide Bpc, Size, MaxCluster, LE, FromLE, Pow256;
    var n := FatBytes(l);
    var e0, e1, e2 := LE(0xffff00 + media as nat, 4), LE(0x0c00_0000, 4), LE(EOC, 4);
    var head := e0 + e1 + e2;
    var a, b := Fat0(l), Fat1(l);
    var im := Splice(Splice(Splice(s, a, Zeros(2 * n)), a, head), b, head);
    HeadsOnZeros(s, a, b, n, head);
    hide Splice;
    Widths();
    DecodeEncode(0xffff00 + media as nat, 4);
    DecodeEncode(0x0c00_0000, 4);
    DecodeEncode(EOC, 4);
    ZeroWord();
    FirstEntries(im, a, b, e0, e1, e2);
    forall c | 3 <= c < MaxCluster(l) ensures Entry(im, l, c) == 0 {
      assert im[a + 4 * c..a + 4 * c + 4] == Zeros(4);
    }
  }

  lemma HeadsOnZeros(s: seq<byte>, a: nat, b: nat, n: nat, head: seq<byte>)
    requires b == a + n && b + n <= |s| && |head| == 12 <= n
    ensures var im := Splice(Splice(Splice(s, a, Zeros(2 * n)), a, head), b, head);
            && im[a..b] == im[b..b + n] && im[a..a + 12] == head
            && forall i :: a + 12 <= i < b ==> im[i] == 0
  {
    hide Splice;
    var im := Splice(Splice(Splice(s, a, Zeros(2 * n)), a, head), b, head);
    forall i | 0 <= i < n ensures im[a + i] == im[b + i] == if i < 12 then head[i] else 0 {}
  }

  lemma FirstEntries(im: seq<byte>, a: nat, b: nat, e0: seq<byte>, e1: seq<byte>, e2: seq<byte>)
    requires a + 12 <= b <= |im| && |e0| == |e1| == |e2| == 4 && im[a..a + 12] == e0 + e1 + e2
    ensures im[a..a + 4] == e0 && im[a + 4..a + 8] == e1 && im[a + 8..a + 12] == e2
  {
    SubSlice(im, a, a + 12, a, a + 4);
    SubSlice(im, a, a + 12, a + 4, a + 8);
    SubSlice(im, a, a + 12, a + 8, a + 12);
  }

  lemma ZeroWord()
    ensures FromLE(Zeros(4)) == 0
  {
  }

  /** The freshly formatted volume. */
  function Blank(c: Config): Volume
    requires Accepted(c)
  {
    Volume(LayoutOf(c), if c.isFixed then 0xf8 else 0xf0, [])
  }

  /** Every configuration is rejected, aborts for having at most two clusters, or gives a volume
      whose invariant holds with no files. */
  method CreateFat32(buf: array<byte>, c: Config) returns (r: FormatResult)
    requires c.nSector * c.bytesPerSector < U32 && buf.Length == c.nSector * c.bytesPerSector
    modifies buf
    ensures r == Rejected <==> !Accepted(c)
    ensures r == Aborted <==> Accepted(c) && c.nSector / c.clusterSize <= 2
    ensures r != Done ==> buf[..] == old(buf[..])
    ensures r == Done ==> Inv(buf[..], Blank(c))
    ensures r == Done ==>
              FatSpec.FreshVolume(buf[..], c.nSector, c.bytesPerSector, c.clusterSize, c.isFixed)
    ensures r == Done ==> OnlyWritten(old(buf[..]), buf[..], c.bytesPerSector, c.clusterSize)
  {
    hide Formatted, Inv, BpbBytes, Cleared, KeptOutside, FatSpec.FreshVolume, OnlyWritten;
    if c.nSector < 16 { return Rejected; }
    var ok := IsDoubling(c.bytesPerSector, 512, 8192);
    if !ok { return Rejected; }
    ok := IsDoubling(c.clusterSize, 1, 256);
    if !ok { return Rejected; }
    if c.nSector / c.clusterSize <= 2 { return Aborted; }
    var l := LayoutOf(c);
    IsFormatted(c);
    FormatAll(buf, l, if c.isFixed then 0xf8 else 0xf0);
    LooksFresh(old(buf[..]), buf[..], l, c.isFixed);
    r := Done;
  }

  /** Formatting changes bytes of the structures, tables and root directory only. */
  ghost predicate OnlyWritten(s: seq<byte>, t: seq<byte>, bps: nat, spc: nat) {
    && |s| == |t| >= 512
    && forall i: nat :: i < |s| && !FatSpec.Written(i, bps, Load(t, 36, 4), spc) ==> t[i] == s[i]
  }

  lemma LooksFresh(s: seq<byte>, t: seq<byte>, l: Layout, isFixed: bool)
    requires Formatted(l) && Inv(t, Volume(l, if isFixed then 0xf8 else 0xf0, []))
             && Cleared(t, l, if isFixed then 0xf8 else 0xf0) && KeptOutside(s, t, l)
    ensures FatSpec.FreshVolume(t, l.n, l.bps, l.spc, isFixed) && OnlyWritten(s, t, l.bps, l.spc)
  {
    hide Formatted, Inv, Cleared, KeptOutside, OnlyWritten, Load, FatSpec.BootSector, FatSpec.FreshParts,
         FatSpec.JustEnough;
    BootFresh(t, l, isFixed);
    OnlyThere(s, t, l);
    TableLeast(l);
    PartsFresh(t, l, isFixed);
  }

  lemma PartsFresh(t: seq<byte>, l: Layout, isFixed: bool)
    requires Inv(t, Volume(l, if isFixed then 0xf8 else 0xf0, [])) && Cleared(t, l, if isFixed then 0xf8 else 0xf0)
    ensures FatSpec.FreshParts(t, l.bps, l.spc, isFixed, l.fatSec, 1, 6)
  {
    hide Inv, Cleared, FatSpec.Empty, FatSpec.InfoSector, FatSpec.SameSector, FatSpec.FreshTable, FatSpec.At, Fat0,
         Fat1, Data, Bpc, FatBytes, FatSpec.FirstFree;
    Addresses(l);
    InfoFresh(t, l, if isFixed then 0xf8 else 0xf0);
    TablesFresh(t, l, isFixed);
  }

  lemma OnlyThere(s: seq<byte>, t: seq<byte>, l: Layout)
    requires KeptOutside(s, t, l) && |t| >= 512 && Load(t, 36, 4) == l.fatSec
    ensures OnlyWritten(s, t, l.bps, l.spc)
  {
    hide FatSpec.Written, Outside, FromLE;
    forall i: nat | i < |s| && !FatSpec.Written(i, l.bps, l.fatSec, l.spc) ensures t[i] == s[i] { Spared(i, l); }
  }

  /** Sector numbers and byte offsets of the regions. */
  lemma Addresses(l: Layout)
    ensures FatSpec.At(1, l.bps) == l.bps && FatSpec.At(8, l.bps) == Fat0(l)
    ensures FatSpec.At(l.fatSec, l.bps) == FatBytes(l)
    ensures FatSpec.At(6, l.bps) == 6 * l.bps && FatSpec.At(7, l.bps) == 7 * l.bps
    ensures FatSpec.At(8 + l.fatSec, l.bps) == Fat1(l) && FatSpec.At(8 + 2 * l.fatSec, l.bps) == Data(l)
    ensures FatSpec.At(8 + 2 * l.fatSec + l.spc, l.bps) == Data(l) + Bpc(l)
  {
  }

  lemma TableLeast(l: Layout)
    requires Formatted(l)
    ensures l.spc > 0 && FatSpec.JustEnough(l.fatSec, l.n, l.bps, l.spc)
  {
    var k, e := l.n / l.spc, l.bps / 4;
    assert l.bps == 4 * e && l.fatSec == CDiv(k, e);
    Quotient(k, e);
    LeastMultiple(l.fatSec, k, e);
  }

  lemma LeastMultiple(q: nat, k: nat, e: nat)
    requires k <= q * e < k + e
    ensures (q - 1) * (4 * e) < 4 * k <= q * (4 * e)
  {
    assert (q - 1) * (4 * e) == 4 * (q * e) - 4 * e && q * (4 * e) == 4 * (q * e);
  }

  lemma BootFresh(t: seq<byte>, l: Layout, isFixed: bool)
    requires Formatted(l) && Inv(t, Volume(l, if isFixed then 0xf8 else 0xf0, []))
    ensures FatSpec.BootSector(t, l.n, l.bps, l.spc, isFixed)
    ensures |t| == l.n * l.bps >= 512 && Load(t, 36, 4) == l.fatSec && Load(t, 48, 2) == 1 && Load(t, 50, 2) == 6
  {
    hide Formatted, Shape, Tables, Dir, Contents, BpbBytes, MaxCluster, InitialFree, Info, Backup, Bpc, FatBytes, Fat0,
         Fat1, Data, FromLE;
    FatBoot.Boots(t, l, isFixed);
  }

  lemma InfoFresh(t: seq<byte>, l: Layout, media: byte)
    requires Inv(t, Volume(l, media, []))
    ensures FatSpec.InfoSector(t, l.bps, FatSpec.FirstFree(l.fatSec, l.bps), 3)
    ensures FatSpec.SameSector(t, 6 * l.bps, 0) && FatSpec.SameSector(t, 7 * l.bps, l.bps)
  {
    hide Formatted, Shape, Tables, Dir, Contents, BpbBytes, MaxCluster, Bpc, FatBytes, Fat1, Data, FromLE;
    var v := Volume(l, media, []);
    assert NextFree(l, v.files) == 3 && Charged(l, v.files) == 0;
  }

  lemma TablesFresh(t: seq<byte>, l: Layout, isFixed: bool)
    requires Cleared(t, l, if isFixed then 0xf8 else 0xf0)
    ensures FatSpec.FreshTable(t, Fat0(l), FatBytes(l), isFixed) && FatSpec.FreshTable(t, Fat1(l), FatBytes(l), isFixed)
    ensures FatSpec.Empty(t, Data(l), Data(l) + Bpc(l))
  {
    hide MaxCluster, Bpc, Size, FatBytes, FromLE;
    var a, b, n := Fat0(l), Fat1(l), FatBytes(l);
    SameWord(t, a, b, n, 0);
    SameWord(t, a, b, n, 4);
    SameWord(t, a, b, n, 8);
    forall i | b + 12 <= i < b + n ensures t[i] == 0 {
      assert t[i] == t[b..b + n][i - b] && t[i - n] == t[a..a + n][i - b];
    }
  }

  lemma SameWord(t: seq<byte>, a: nat, b: nat, n: nat, k: nat)
    requires k + 4 <= n && a + n <= b && b + n <= |t| && t[a..a + n] == t[b..b + n]
    ensures Load(t, b + k, 4) == Load(t, a + k, 4)
  {
    hide FromLE;
    SubSlice(t, a, a + n, a + k, a + k + 4);
    SubSlice(t, b, b + n, b + k, b + k + 4);
  }

  lemma Spared(i: nat, l: Layout)
    requires !FatSpec.Written(i, l.bps, l.fatSec, l.spc)
    ensures Outside(i, l)
  {
    Addresses(l);
  }

  lemma IsFormatted(c: Config)
    requires Accepted(c) && c.nSector / c.clusterSize > 2 && c.nSector * c.bytesPerSector < U32
    ensures Formatted(LayoutOf(c))
  {
  }

  method FormatAll(buf: array<byte>, l: Layout, media: byte)
    requires Formatted(l) && buf.Length == Size(l)
    modifies buf
    ensures Inv(buf[..], Volume(l, media, []))
    ensures Cleared(buf[..], l, media)
    ensures KeptOutside(old(buf[..]), buf[..], l)
  {
    hide Formatted, MaxCluster, BpbBytes, Bpc, Splice, FatBytes, Inv, Size, InfoAt, FreshTables, Fat1, Data, Backup;
    FitsSized(buf[..], l);
    TableEntries(l);
    OneCluster(l);
    var free := 2 * l.fatSec * (l.bps / 4) - 3;
    hide InitialFree;
    FormatHead(buf, l, media, free);
    ghost var s1 := buf[..];
    FormatTables(buf, l, media);
    ghost var s2 := buf[..];
    Write(buf, Data(l), Zeros(Bpc(l)));
    hide Cleared;
    Fresh(s1, s2, buf[..], l, media, free);
  }

  /** Nothing but the first entries in the tables, nothing in the root directory. */
  ghost predicate Cleared(img: seq<byte>, l: Layout, media: byte) {
    Sized(img, l) && FreshTables(img, l, media) && FatSpec.Empty(img, Data(l), Data(l) + Bpc(l))
  }

  /** Formatting leaves this byte alone. */
  ghost predicate Outside(i: nat, l: Layout) {
    && i >= INFO && !(l.bps <= i < l.bps + INFO) && !(6 * l.bps <= i < 6 * l.bps + INFO)
    && !(7 * l.bps <= i < 7 * l.bps + INFO) && !(Fat0(l) <= i < Data(l) + Bpc(l))
  }

  ghost predicate KeptOutside(s: seq<byte>, t: seq<byte>, l: Layout) {
    |t| == |s| && forall i: nat :: i < |s| && Outside(i, l) ==> t[i] == s[i]
  }

  /** The boot and information sectors and their copies. */
  method FormatHead(buf: array<byte>, l: Layout, media: byte, free: nat)
    requires Sized(buf[..], l) && free < U32
    modifies buf
    ensures Sized(buf[..], l)
    ensures buf[0..INFO] == BpbBytes(l, media) && InfoAt(buf[..], l.bps, free, 3) && Backup(buf[..], l)
    ensures forall i :: INFO <= i < buf.Length
              && !(6 * l.bps <= i < 6 * l.bps + INFO || l.bps <= i < l.bps + INFO || 7 * l.bps <= i < 7 * l.bps + INFO)
              ==> buf[i] == old(buf[i])
  {
    hide BpbBytes, InfoAt, MaxCluster, Bpc, Fat1, Data, FatBytes;
    FormatBoot(buf, l, media);
    FormatInfo(buf, l, free);
  }

  lemma Fresh(s1: seq<byte>, s2: seq<byte>, im: seq<byte>, l: Layout, media: byte, free: nat)
    requires Formatted(l) && |s1| == |s2| == |im| == Size(l) && Sized(s1, l) && free == InitialFree(l)
    requires s1[0..INFO] == BpbBytes(l, media) && InfoAt(s1, l.bps, free, 3) && Backup(s1, l)
    requires s2[..Fat0(l)] == s1[..Fat0(l)] && FreshTables(s2, l, media)
    requires im == Splice(s2, Data(l), Zeros(Bpc(l)))
    ensures Inv(im, Volume(l, media, []))
    ensures Cleared(im, l, media)
  {
    hide Formatted, MaxCluster, BpbBytes, Bpc, Size, FatBytes, Fat0, Fat1, Data, Splice, InfoAt, FreshTables, Backup,
         Inv, InitialFree;
    var f, d := Fat0(l), Data(l);
    SpliceApart(s2, d, Zeros(Bpc(l)), 0, d);
    Within(s2, im, 0, d, 0, f);
    assert im[0..f] == s1[0..f];
    LowKept(s1, im, l, free);
    FreshDir(s2, l);
    FreshCopied(s2, im, l, media);
    EmptyInv(im, l, media, free);
  }

  lemma LowKept(s: seq<byte>, im: seq<byte>, l: Layout, free: nat)
    requires Sized(s, l) && |im| == |s| && im[0..Fat0(l)] == s[0..Fat0(l)] && InfoAt(s, l.bps, free, 3) && Backup(s, l)
    ensures Sized(im, l) && im[0..INFO] == s[0..INFO] && InfoAt(im, l.bps, free, 3) && Backup(im, l)
  {
    hide MaxCluster, Bpc, FatBytes, Fat0, Fat1, Data, InfoAt;
    var f, b := Fat0(l), l.bps;
    Within(s, im, 0, f, 0, INFO);
    Within(s, im, 0, f, b, b + INFO);
    Within(s, im, 0, f, 6 * b, 6 * b + INFO);
    Within(s, im, 0, f, 7 * b, 7 * b + INFO);
    InfoMoved(s, im, b, free, 3);
  }

  lemma EmptyInv(im: seq<byte>, l: Layout, media: byte, free: nat)
    requires Formatted(l) && |im| == Size(l) && Sized(im, l) && free == InitialFree(l)
    requires im[0..INFO] == BpbBytes(l, media) && InfoAt(im, l.bps, free, 3) && Backup(im, l)
             && FreshTables(im, l, media)
    requires forall i: nat :: DIRENT * (i + 1) <= Bpc(l) ==> SlotFree(im, l, i)
    ensures Inv(im, Volume(l, media, []))
  {
    hide Formatted, MaxCluster, BpbBytes, Bpc, Size, Load, FatBytes, Fat1, Fat0, Data, Entry, Mirrored, Backup,
         InitialFree;
    var v := Volume(l, media, []);
    assert Shape(v) && NextFree(l, v.files) == 3 && Charged(l, v.files) == 0;
    assert Info(im, v);
    assert Tables(im, v);
    assert Dir(im, v);
  }

  lemma FreshDir(s: seq<byte>, l: Layout)
    requires Sized(s, l)
    ensures var im := Splice(s, Data(l), Zeros(Bpc(l)));
            && Sized(im, l) && FatSpec.Empty(im, Data(l), Data(l) + Bpc(l))
            && forall i: nat :: DIRENT * (i + 1) <= Bpc(l) ==> SlotFree(im, l, i)
  {
  }

  lemma FreshCopied(s: seq<byte>, im: seq<byte>, l: Layout, media: byte)
    requires Sized(s, l) && |im| == |s| && im[0..Data(l)] == s[0..Data(l)] && FreshTables(s, l, media)
    ensures Sized(im, l) && FreshTables(im, l, media)
  {
    hide MaxCluster, Bpc, Size, FromLE;
    var d := Data(l);
    Within(s, im, 0, d, Fat0(l), Fat1(l));
    Within(s, im, 0, d, Fat1(l), d);
    Within(s, im, 0, d, Fat0(l), Fat0(l) + 4);
    Within(s, im, 0, d, Fat0(l) + 4, Fat0(l) + 8);
    Within(s, im, 0, d, Fat0(l) + 8, Fat0(l) + 12);
    forall i | Fat0(l) + 12 <= i < Fat1(l) ensures im[i] == 0 { ByteWithin(s, im, 0, d, i); }
    forall c | 3 <= c < MaxCluster(l) ensures Entry(im, l, c) == 0 {
      assert Entry(s, l, c) == 0;
      Within(s, im, 0, d, Fat0(l) + 4 * c, Fat0(l) + 4 * c + 4);
    }
  }
}
