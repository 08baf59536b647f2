/** What `GPTGenerate` writes, byte for byte. */
module GptLayout {
  import opened Bytes
  import opened Gpt
  import opened GptDisk
  import Crc
  import GptSpec

  // ---------------------------------------------------------------- members of a structure in an image

  /** `img` holds the structure `fs` of `size` bytes at `a`. */
  ghost predicate Holds(img: seq<byte>, a: nat, z: seq<byte>, fs: seq<Field>) {
    && Packed(fs, |z|) && a + |z| <= |img| && img[a..a + |z|] == PutFields(z, 0, fs, |z|)
  }

  lemma Member(img: seq<byte>, a: nat, z: seq<byte>, fs: seq<Field>, i: nat, off: nat, d: seq<byte>)
    requires Holds(img, a, z, fs) && i < |fs| && fs[i] == Field(off, d)
    ensures a + off + |d| <= a + |z| <= |img| && img[a + off..a + off + |d|] == d
  {
    hide PutFields, Packed;
    FieldKept(z, 0, fs, |z|, i);
    SubSlice(img, a, a + |z|, a + off, a + off + |d|);
  }

  lemma Number(img: seq<byte>, a: nat, z: seq<byte>, fs: seq<Field>, i: nat, off: nat, n: nat, x: nat)
    requires Holds(img, a, z, fs) && i < |fs| && fs[i] == Field(off, LE(x, n)) && x < Pow256(n)
    ensures a + off + n <= a + |z| <= |img| && Load(img, a + off, n) == x
  {
    hide Holds, LE, FromLE, Pow256;
    Member(img, a, z, fs, i, off, LE(x, n));
    DecodeEncode(x, n);
  }

  lemma Gap(img: seq<byte>, at: nat, z: seq<byte>, fs: seq<Field>, a: nat, b: nat)
    requires Holds(img, at, z, fs) && a <= b <= |z|
    requires forall i :: 0 <= i < |fs| ==> b <= fs[i].off || fs[i].off + |fs[i].data| <= a
    ensures at + |z| <= |img| && img[at + a..at + b] == z[a..b]
  {
    hide PutFields, Packed;
    GapKept(z, 0, fs, |z|, a, b);
    SubSlice(img, at, at + |z|, at + a, at + b);
  }

  // ---------------------------------------------------------------- boot record

  lemma BootRecord(img: seq<byte>, nBlock: nat)
    requires |img| >= SECTOR && img[..SECTOR] == MbrBytes(nBlock) && nBlock >= 1
    ensures GptSpec.ProtectiveMbr(img, nBlock)
  {
    hide LE, PutFields, Packed, FromLE;
    var fs, z := MbrFields(nBlock), Zeros(SECTOR);
    MbrPacked(nBlock);
    assert img[0..0 + |z|] == img[..SECTOR];
    assert Holds(img, 0, z, fs);
    RecordNumbers(img, nBlock);
    RecordEnd(img, nBlock);
    RecordBytes(img, nBlock);
    RecordGaps(img, nBlock);
    Signature();
  }

  /** The record covers the disk behind block 0, as far as 32 bits go, except for one size of disk. */
  lemma RecordSize(img: seq<byte>, nBlock: nat)
    requires GptSpec.ProtectiveMbr(img, nBlock)
    ensures Load(img, 458, 4) == GptSpec.Least(nBlock - 1, 0xffff_ffff) <==> nBlock != 0xffff_ffff
  {
    hide Load;
  }

  lemma RecordMembers(nBlock: nat)
    ensures var fs := MbrFields(nBlock);
            && |fs| == 7 && fs[1] == Field(447, LE(0x200, 3)) && fs[4] == Field(454, LE(1, 4))
            && fs[3] == Field(451, LE(GptSpec.Least(512 * nBlock % 0x1_0000_0000, 0xff_ffff), 3))
            && (nBlock >= 1 ==>
                  fs[5] == Field(458, LE(if nBlock >= 0xffff_ffff then 0xffff_ffff else nBlock - 1, 4)))
  {
    hide LE;
  }

  lemma RecordNumbers(img: seq<byte>, nBlock: nat)
    requires Holds(img, 0, Zeros(SECTOR), MbrFields(nBlock)) && nBlock >= 1
    ensures |img| >= 512 && Load(img, 447, 3) == 0x200 && Load(img, 454, 4) == 1
    ensures Load(img, 458, 4) == if nBlock >= 0xffff_ffff then 0xffff_ffff else nBlock - 1
  {
    hide LE, FromLE, Pow256, Holds;
    var fs, z := MbrFields(nBlock), Zeros(SECTOR);
    var size := if nBlock >= 0xffff_ffff then 0xffff_ffff else nBlock - 1;
    RecordMembers(nBlock);
    Widths();
    hide MbrFields;
    Number(img, 0, z, fs, 1, 447, 3, 0x200);
    Number(img, 0, z, fs, 4, 454, 4, 1);
    Number(img, 0, z, fs, 5, 458, 4, size);
  }

  lemma RecordEnd(img: seq<byte>, nBlock: nat)
    requires Holds(img, 0, Zeros(SECTOR), MbrFields(nBlock))
    ensures |img| >= 512 && Load(img, 451, 3) == GptSpec.Least(512 * nBlock % 0x1_0000_0000, 0xff_ffff)
  {
    hide LE, FromLE, Pow256, Holds;
    var x := GptSpec.Least(512 * nBlock % 0x1_0000_0000, 0xff_ffff);
    RecordMembers(nBlock);
    Widths();
    hide MbrFields;
    Number(img, 0, Zeros(SECTOR), MbrFields(nBlock), 3, 451, 3, x);
  }

  lemma RecordBytes(img: seq<byte>, nBlock: nat)
    requires Holds(img, 0, Zeros(SECTOR), MbrFields(nBlock))
    ensures |img| >= 512 && img[446] == 0x80 && img[450] == 0xee && img[510..512] == [0x55, 0xaa]
  {
    hide LE, Holds;
    var fs, z := MbrFields(nBlock), Zeros(SECTOR);
    Member(img, 0, z, fs, 0, 446, [0x80]);
    Member(img, 0, z, fs, 2, 450, [0xee]);
    Member(img, 0, z, fs, 6, 510, [0x55, 0xaa]);
    assert img[446] == img[446..447][0] && img[450] == img[450..451][0];
  }

  lemma RecordGaps(img: seq<byte>, nBlock: nat)
    requires Holds(img, 0, Zeros(SECTOR), MbrFields(nBlock))
    ensures GptSpec.Zero(img, 0, 446) && GptSpec.Zero(img, 462, 510)
  {
    hide LE, Holds;
    Gap(img, 0, Zeros(SECTOR), MbrFields(nBlock), 0, 446);
    Gap(img, 0, Zeros(SECTOR), MbrFields(nBlock), 462, 510);
    assert forall i :: 0 <= i < 446 ==> img[i] == img[0..446][i];
    assert forall i :: 462 <= i < 510 ==> img[i] == img[462..510][i - 462];
  }

  // ---------------------------------------------------------------- headers

  const BOUND: nat := 0x1_0000_0000_0000_0000

  ghost predicate HeaderFits(h: Header) {
    && |h.disk| == 16 && h.this_ < BOUND && h.alternate < BOUND && h.firstUsable < BOUND && h.lastUsable < BOUND
    && h.entries < 0x1_0000_0000 && h.entryCrc < 0x1_0000_0000
  }

  ghost predicate HeaderHeld(img: seq<byte>, a: nat, h: Header, crc: nat) {
    crc < 0x1_0000_0000 && HeaderFits(h) && Holds(img, a, Zeros(HEADER_SIZE), HeaderFields(h, crc))
  }

  lemma HeaderBlocks(img: seq<byte>, a: nat, h: Header, crc: nat)
    requires HeaderHeld(img, a, h, crc)
    ensures a + 92 <= |img|
    ensures Load(img, a + 24, 8) == h.this_ && Load(img, a + 32, 8) == h.alternate
    ensures Load(img, a + 40, 8) == h.firstUsable && Load(img, a + 48, 8) == h.lastUsable
  {
    Widths();
    hide LE, FromLE, Pow256, Holds;
    var fs, z := HeaderFields(h, crc), Zeros(HEADER_SIZE);
    Number(img, a, z, fs, 5, 24, 8, h.this_);
    Number(img, a, z, fs, 6, 32, 8, h.alternate);
    Number(img, a, z, fs, 7, 40, 8, h.firstUsable);
    Number(img, a, z, fs, 8, 48, 8, h.lastUsable);
  }

  lemma HeaderSizes(img: seq<byte>, a: nat, h: Header, crc: nat)
    requires HeaderHeld(img, a, h, crc)
    ensures a + 92 <= |img|
    ensures Load(img, a + 8, 4) == 0x1_0000 && Load(img, a + 12, 4) == 92 && Load(img, a + 16, 4) == crc
    ensures Load(img, a + 20, 4) == 0
  {
    Widths();
    hide LE, FromLE, Pow256, Holds;
    var fs, z := HeaderFields(h, crc), Zeros(HEADER_SIZE);
    Number(img, a, z, fs, 1, 8, 4, 0x1_0000);
    Number(img, a, z, fs, 2, 12, 4, 92);
    Number(img, a, z, fs, 3, 16, 4, crc);
    Number(img, a, z, fs, 4, 20, 4, 0);
  }

  lemma HeaderArray(img: seq<byte>, a: nat, h: Header, crc: nat)
    requires HeaderHeld(img, a, h, crc)
    ensures a + 92 <= |img|
    ensures Load(img, a + 72, 8) == 2 && Load(img, a + 80, 4) == h.entries && Load(img, a + 84, 4) == 128
    ensures Load(img, a + 88, 4) == h.entryCrc
  {
    Widths();
    hide LE, FromLE, Pow256, Holds;
    var fs, z := HeaderFields(h, crc), Zeros(HEADER_SIZE);
    Number(img, a, z, fs, 10, 72, 8, 2);
    Number(img, a, z, fs, 11, 80, 4, h.entries);
    Number(img, a, z, fs, 12, 84, 4, 128);
    Number(img, a, z, fs, 13, 88, 4, h.entryCrc);
  }

  lemma HeaderTexts(img: seq<byte>, a: nat, h: Header, crc: nat)
    requires HeaderHeld(img, a, h, crc)
    ensures a + 92 <= |img| && Spells(img[a..a + 8], "EFI PART") && img[a + 56..a + 72] == h.disk
  {
    hide LE, FromLE, Holds;
    var fs, z := HeaderFields(h, crc), Zeros(HEADER_SIZE);
    Member(img, a, z, fs, 0, 0, EFI_PART);
    Member(img, a, z, fs, 9, 56, h.disk);
  }

  /** A sealed header in the image is one that the specification describes. */
  lemma Spelled(img: seq<byte>, a: nat, h: Header)
    requires HeaderFits(h) && a + HEADER_SIZE <= |img| && img[a..a + HEADER_SIZE] == Sealed(h)
    requires ENTRIES_AT + ENTRY * h.entries <= |img|
    requires h.entryCrc == Crc.Crc32Value(img[ENTRIES_AT..ENTRIES_AT + ENTRY * h.entries])
    ensures GptSpec.HeaderAt(img, a, h.this_, h.alternate, h.firstUsable, h.lastUsable, h.disk, h.entries)
  {
    hide Load, Crc.Crc32Value, HeaderHeld, Sealed, Spells;
    var crc := Load(img, a + 16, 4);
    SealedHeld(img, a, h);
    HeaderBlocks(img, a, h, crc);
    HeaderSizes(img, a, h, crc);
    HeaderArray(img, a, h, crc);
    HeaderTexts(img, a, h, crc);
  }

  lemma SealedHeld(img: seq<byte>, a: nat, h: Header)
    requires HeaderFits(h) && a + HEADER_SIZE <= |img| && img[a..a + HEADER_SIZE] == Sealed(h)
    ensures var crc := Load(img, a + 16, 4);
            HeaderHeld(img, a, h, crc) && crc == Crc.Crc32Value(img[a..a + 16] + Zeros(4) + img[a + 20..a + 92])
  {
    hide Load, Crc.Crc32Value, Holds, HeaderBytes, HeaderFields, HeaderFits;
    FitsDisk(h);
    var crc := Crc.Crc32Value(HeaderBytes(h, 0));
    BytesHeld(img, a, h, crc);
    HeaderSizes(img, a, h, crc);
    HeaderReplace(h, crc, 0);
    ZeroLE();
    SumZeroed(img, a, h, crc);
  }

  lemma FitsDisk(h: Header)
    requires HeaderFits(h)
    ensures |h.disk| == 16
  {
  }

  lemma BytesHeld(img: seq<byte>, a: nat, h: Header, crc: nat)
    requires |h.disk| == 16 && a + HEADER_SIZE <= |img| && img[a..a + HEADER_SIZE] == HeaderBytes(h, crc)
    ensures Holds(img, a, Zeros(HEADER_SIZE), HeaderFields(h, crc))
  {
    HeaderPacked(h, crc);
  }

  /** The header with its checksum zeroed, from the image. */
  lemma SumZeroed(img: seq<byte>, a: nat, h: Header, crc: nat)
    requires |h.disk| == 16 && a + HEADER_SIZE <= |img| && img[a..a + HEADER_SIZE] == HeaderBytes(h, crc)
    requires HeaderBytes(h, 0) == Splice(HeaderBytes(h, crc), 16, Zeros(4))
    ensures HeaderBytes(h, 0) == img[a..a + 16] + Zeros(4) + img[a + 20..a + 92]
  {
    hide HeaderBytes;
    var s, t := HeaderBytes(h, crc), img[a..a + 16] + Zeros(4) + img[a + 20..a + 92];
    forall i | 0 <= i < HEADER_SIZE ensures HeaderBytes(h, 0)[i] == t[i] { assert s[i] == img[a + i]; }
  }

  // ---------------------------------------------------------------- entries

  lemma EntrySpelled(img: seq<byte>, i: nat, p: Partition)
    requires Placed(p) && ENTRIES_AT + ENTRY * (i + 1) <= |img| && EntryOn(img, i, p)
    ensures GptSpec.EntryAt(img, i, p.kind, p.id, p.name, p.volume) && GptSpec.StartOf(img, i) == p.start
  {
    hide LE, FromLE, NameBytes, GptSpec.NameUnit, Holds, EntryBytes;
    var a, fs, z := ENTRIES_AT + ENTRY * i, EntryFields(p), Zeros(ENTRY);
    EntryHeld(img, a, p);
    EntryNumbers(img, a, p);
    EntryIds(img, a, p);
    NameUnits(img, a, p);
  }

  lemma EntryHeld(img: seq<byte>, a: nat, p: Partition)
    requires Requested(p) && a + ENTRY <= |img| && img[a..a + ENTRY] == EntryBytes(p)
    ensures Holds(img, a, Zeros(ENTRY), EntryFields(p))
  {
    EntryPacked(p);
  }

  lemma EntryIds(img: seq<byte>, a: nat, p: Partition)
    requires Placed(p) && Holds(img, a, Zeros(ENTRY), EntryFields(p))
    ensures a + 128 <= |img| && img[a..a + 16] == p.kind && img[a + 16..a + 32] == p.id
  {
    hide LE, Holds, NameBytes;
    Member(img, a, Zeros(ENTRY), EntryFields(p), 0, 0, p.kind);
    Member(img, a, Zeros(ENTRY), EntryFields(p), 1, 16, p.id);
  }

  lemma EntryNumbers(img: seq<byte>, a: nat, p: Partition)
    requires Placed(p) && Holds(img, a, Zeros(ENTRY), EntryFields(p))
    ensures a + 128 <= |img| && Load(img, a + 32, 8) == p.start && Load(img, a + 40, 8) == p.start + p.volume - 1
    ensures Load(img, a + 48, 8) == 5
  {
    Widths();
    assert a + 128 <= |img|;
    hide LE, FromLE, Pow256, Holds, NameBytes;
    var fs, z := EntryFields(p), Zeros(ENTRY);
    Number(img, a, z, fs, 2, 32, 8, p.start);
    Number(img, a, z, fs, 3, 40, 8, p.start + p.volume - 1);
    Number(img, a, z, fs, 4, 48, 8, 5);
  }

  lemma NameUnits(img: seq<byte>, a: nat, p: Partition)
    requires Placed(p) && Holds(img, a, Zeros(ENTRY), EntryFields(p))
    ensures GptSpec.Named(img, a + 56, p.name)
  {
    var n, fs := 2 * |p.name|, EntryFields(p);
    assert a + 128 <= |img|;
    hide LE, NameBytes, Holds;
    Member(img, a, Zeros(ENTRY), fs, 5, 56, NameBytes(p.name));
    Gap(img, a, Zeros(ENTRY), fs, 56 + n, 128);
    assert Zeros(ENTRY)[56 + n..128] == Zeros(72 - n);
    hide EntryFields;
    var b := a + 56;
    forall k: nat | k < 36 ensures GptSpec.NameUnit(img, b, p.name, k) { NameUnitAt(img, b, a + 128, p.name, k); }
  }

  lemma NameUnitAt(img: seq<byte>, a: nat, b: nat, name: seq<byte>, k: nat)
    requires |name| <= 36 && k < 36 && a + 72 == b <= |img| && img[a..a + 2 * |name|] == NameBytes(name)
    requires img[a + 2 * |name|..b] == Zeros(72 - 2 * |name|)
    ensures GptSpec.NameUnit(img, a, name, k)
  {
    hide NameBytes, Zeros;
    var n := 2 * |name|;
    var s, t := img[a..a + n], img[a + n..b];
    if k < |name| {
      assert img[a + 2 * k] == s[2 * k] && img[a + 2 * k + 1] == s[2 * k + 1];
    } else {
      assert img[a + 2 * k] == t[2 * k - n] && img[a + 2 * k + 1] == t[2 * k + 1 - n];
    }
  }

  // ---------------------------------------------------------------- the whole table

  /** What a successful `GPTGenerate` with `n` placed requests leaves: boot record, entries one behind the
      other behind the array, both headers. `a` is the number of blocks of the array. */
  ghost predicate Written(img: seq<byte>, nBlock: nat, parts: seq<Partition>, disk: seq<byte>, n: nat, a: nat) {
    && 4 * (a - 1) < |parts| <= 4 * a && GptSpec.ProtectiveMbr(img, nBlock) && Rows(img, parts, n, 2 + a)
    && GptSpec.Headers(img, nBlock, disk, n, if n == 0 then 2 + a else GptSpec.EndOf(img, n - 1) + 1)
  }

  ghost predicate Rows(img: seq<byte>, parts: seq<Partition>, n: nat, first: nat) {
    && n <= |parts| && 1024 + 128 * n <= |img| && GptSpec.InARow(img, n, first)
    && forall i :: 0 <= i < n ==>
         GptSpec.EntryAt(img, i, parts[i].kind, parts[i].id, parts[i].name, parts[i].volume)
  }

  method GenerateWritten(buf: array<byte>, nBlock: nat, parts: seq<Partition>, disk: seq<byte>) returns (ret: nat)
    requires buf.Length == SECTOR * nBlock < BOUND
    requires |parts| < 0x1_0000_0000 && |disk| == 16 && forall i :: 0 <= i < |parts| ==> Requested(parts[i])
    requires nBlock >= 4 + ArraySectors(|parts|) && parts != []
    modifies buf
    ensures LongestPrefix(parts, nBlock - 4 - ArraySectors(|parts|), ret)
    ensures Written(buf[..], nBlock, parts, disk, ret, ArraySectors(|parts|))
  {
    hide Requested, Written, LaidOut, ArraySectors, Placed, Generated;
    var placed;
    ret, placed := Generate(buf, nBlock, parts, disk);
    AllWritten(buf[..], nBlock, parts, disk, ret, ArraySectors(|parts|));
  }

  lemma AllWritten(img: seq<byte>, nBlock: nat, parts: seq<Partition>, disk: seq<byte>, n: nat, a: nat)
    requires SECTOR * nBlock < BOUND && nBlock >= 4 + a && a == ArraySectors(|parts|) && |disk| == 16
    requires |parts| < 0x1_0000_0000 && LongestPrefix(parts, nBlock - 4 - a, n)
    requires var placed := LaidOut(parts, 2 + a, n); forall i :: 0 <= i < n ==> Placed(placed[i])
    requires Generated(img, nBlock, LaidOut(parts, 2 + a, n), disk, 2 + a + Sum(parts, n))
    ensures Written(img, nBlock, parts, disk, n, a)
  {
    hide Placed, LaidOut, Sum, Generated, Load, GptSpec.Headers, GptSpec.ProtectiveMbr, Rows, GptSpec.EndOf, MbrBytes,
         EntriesOn, ArraySectors;
    Sectors(|parts|);
    PartsWritten(img, nBlock, parts, disk, n, 2 + a);
  }

  lemma PartsWritten(img: seq<byte>, nBlock: nat, parts: seq<Partition>, disk: seq<byte>, n: nat, first: nat)
    requires SECTOR * nBlock < BOUND && n <= |parts| < 0x1_0000_0000 && |disk| == 16 && first + Sum(parts, n) <= nBlock
    requires var placed := LaidOut(parts, first, n); forall i :: 0 <= i < n ==> Placed(placed[i])
    requires Generated(img, nBlock, LaidOut(parts, first, n), disk, first + Sum(parts, n))
    ensures GptSpec.ProtectiveMbr(img, nBlock) && Rows(img, parts, n, first)
    ensures GptSpec.Headers(img, nBlock, disk, n, if n == 0 then first else GptSpec.EndOf(img, n - 1) + 1)
  {
    hide Placed, LaidOut, Sum, Generated, Load, GptSpec.Headers, GptSpec.ProtectiveMbr, Rows, GptSpec.EndOf, MbrBytes,
         EntriesOn;
    var placed, next := LaidOut(parts, first, n), first + Sum(parts, n);
    TableParts(img, nBlock, placed, disk, next);
    BootRecord(img, nBlock);
    EntriesWritten(img, nBlock, parts, n, first);
    HeadersWritten(img, nBlock, disk, next, placed);
  }

  lemma TableParts(img: seq<byte>, nBlock: nat, placed: seq<Partition>, disk: seq<byte>, next: nat)
    requires Generated(img, nBlock, placed, disk, next)
    ensures |img| >= SECTOR && img[..SECTOR] == MbrBytes(nBlock) && EntriesOn(img, placed) && nBlock >= 1
  {
    hide MbrBytes, Sealed, EntriesOn;
  }

  lemma HeadersWritten(img: seq<byte>, nBlock: nat, disk: seq<byte>, next: nat, placed: seq<Partition>)
    requires SECTOR * nBlock < BOUND && |disk| == 16 && |placed| < 0x1_0000_0000 && next <= nBlock
    requires Generated(img, nBlock, placed, disk, next)
    ensures GptSpec.Headers(img, nBlock, disk, |placed|, next)
  {
    hide Sealed, Load, GptSpec.HeaderAt, MbrBytes, EntriesOn, Crc.Crc32Value;
    var h := HeaderFor(img, nBlock, disk, next, |placed|);
    Spelled(img, SECTOR, h);
    Spelled(img, SECTOR * (nBlock - 1), BackupOf(h, nBlock));
  }

  lemma Sectors(n: nat)
    ensures 4 * (ArraySectors(n) - 1) < n <= 4 * ArraySectors(n)
  {
  }

  lemma EntriesWritten(img: seq<byte>, nBlock: nat, parts: seq<Partition>, n: nat, first: nat)
    requires n <= |parts| && EntriesOn(img, LaidOut(parts, first, n))
    requires var placed := LaidOut(parts, first, n); forall i :: 0 <= i < n ==> Placed(placed[i])
    ensures Rows(img, parts, n, first) && 1024 + 128 * n <= |img|
    ensures first + Sum(parts, n) == if n == 0 then first else GptSpec.EndOf(img, n - 1) + 1
  {
    var placed := LaidOut(parts, first, n);
    forall i: nat | i < n
      ensures GptSpec.EntryAt(img, i, parts[i].kind, parts[i].id, parts[i].name, parts[i].volume)
              && GptSpec.StartOf(img, i) == first + Sum(parts, i)
              && GptSpec.EndOf(img, i) + 1 == first + Sum(parts, i + 1)
    {
      hide LaidOut, Sum, EntryBytes, Load, GptSpec.NameUnit;
      LaidOutAt(parts, first, n, i);
      SumNext(parts, i);
      assert EntryOn(img, i, placed[i]);
      EntrySpelled(img, i, placed[i]);
    }
  }
}
