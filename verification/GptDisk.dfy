/** Writing a whole partition table to a disk image and reading it back. */
module GptDisk {
  import opened Bytes
  import opened Gpt
  import Crc

  const ENTRIES_AT: nat := 1024  // block 2

  /** Sectors taken by `n` partition entries, four to a sector. */
  function ArraySectors(n: nat): nat { (SECTOR / ENTRY - 1 + n) / (SECTOR / ENTRY) }

  /** The protective master boot record: one record covering the disk. */
  function MbrFields(nBlock: nat): seq<Field> {
    var end := (SECTOR * nBlock) % 0x1_0000_0000;
    var size := if nBlock >= 0xffff_ffff then 0xffff_ffff else if nBlock >= 1 then nBlock - 1 else 0;
    [Field(446, [0x80]), Field(447, LE(0x200, 3)), Field(450, [0xee]),
     Field(451, LE(if end > 0xff_ffff then 0xff_ffff else end, 3)),
     Field(454, LE(1, 4)), Field(458, LE(size, 4)), Field(510, [0x55, 0xaa])]
  }

  lemma MbrPacked(nBlock: nat)
    ensures Packed(MbrFields(nBlock), SECTOR)
  {
    hide LE;
    Adjacent(MbrFields(nBlock), SECTOR);
  }

  ghost function MbrBytes(nBlock: nat): (s: seq<byte>)
    ensures |s| == SECTOR
  {
    MbrPacked(nBlock);
    PutFields(Zeros(SECTOR), 0, MbrFields(nBlock), SECTOR)
  }

  lemma MbrSignature(nBlock: nat)
    ensures MbrBytes(nBlock)[510..512] == [0x55, 0xaa]
  {
  }

  function BackupOf(h: Header, nBlock: nat): Header
    requires nBlock >= 1
  {
    h.(this_ := nBlock - 1, alternate := 1)
  }

  ghost function Sealed(h: Header): seq<byte>
    requires |h.disk| == 16
  {
    HeaderBytes(h, Crc.Crc32Value(HeaderBytes(h, 0)))
  }

  ghost predicate EntriesOn(img: seq<byte>, placed: seq<Partition>) {
    && (forall i :: 0 <= i < |placed| ==> Requested(placed[i]))
    && ENTRIES_AT + ENTRY * |placed| <= |img|
    && forall i :: 0 <= i < |placed| ==> EntryOn(img, i, placed[i])
  }

  ghost predicate EntryOn(img: seq<byte>, i: nat, p: Partition)
    requires Requested(p) && ENTRIES_AT + ENTRY * (i + 1) <= |img|
  {
    img[ENTRIES_AT + ENTRY * i..ENTRIES_AT + ENTRY * (i + 1)] == EntryBytes(p)
  }

  /** A complete partition table: boot signature, entry array, both headers, all checksums. */
  ghost predicate Table(img: seq<byte>, nBlock: nat, placed: seq<Partition>, h: Header) {
    && |img| == SECTOR * nBlock && nBlock >= 4 && |h.disk| == 16
    && img[..SECTOR] == MbrBytes(nBlock)
    && EntriesOn(img, placed)
    && h.entries == |placed| && h.this_ == 1 && h.alternate == nBlock - 1
    && h.entryCrc == Crc.Crc32Value(img[ENTRIES_AT..ENTRIES_AT + ENTRY * |placed|])
    && img[SECTOR..SECTOR + HEADER_SIZE] == Sealed(h)
    && img[SECTOR * (nBlock - 1)..SECTOR * (nBlock - 1) + HEADER_SIZE] == Sealed(BackupOf(h, nBlock))
  }

  // ---------------------------------------------------------------- reading

  datatype ParseResult = Parsed(parts: seq<Partition>) | BadFormat

  function ParseEntries(img: seq<byte>, base: nat, n: nat): (parts: seq<Partition>)
    requires base + ENTRY * n <= |img|
    ensures |parts| == n
  {
    if n == 0 then []
    else ParseEntries(img, base, n - 1) + [ParseEntry(img[base + ENTRY * (n - 1)..base + ENTRY * n])]
  }

  /** The entry array announced by the header lies inside the image. */
  predicate Readable(img: seq<byte>) {
    && |img| >= ENTRIES_AT
    && (Signed(img) ==> Load(img, SECTOR + 72, 8) * SECTOR + ENTRY * Load(img, SECTOR + 80, 4) <= |img|)
  }

  /** Both signatures are there. */
  predicate Signed(img: seq<byte>)
    requires |img| >= ENTRIES_AT
  {
    Load(img, 510, 2) == 0xaa55 && img[SECTOR..SECTOR + 8] == EFI_PART
  }

  function ParseImage(img: seq<byte>): ParseResult
    requires Readable(img)
  {
    if !Signed(img) then BadFormat
    else Parsed(ParseEntries(img, Load(img, SECTOR + 72, 8) * SECTOR, Load(img, SECTOR + 80, 4)))
  }

  method Parse(buf: array<byte>) returns (r: ParseResult)
    requires Readable(buf[..])
    ensures r == ParseImage(buf[..])
  {
    hide ParseEntry, Load;
    var img := buf[..];
    if Load(img, 510, 2) != 0xaa55 { return BadFormat; }
    if img[SECTOR..SECTOR + 8] != EFI_PART { return BadFormat; }
    var n := Load(img, SECTOR + 80, 4);
    var base := Load(img, SECTOR + 72, 8) * SECTOR;
    var parts := [];
    for i := 0 to n
      invariant parts == ParseEntries(img, base, i)
    {
      parts := parts + [ParseEntry(img[base + ENTRY * i..base + ENTRY * (i + 1)])];
    }
    r := Parsed(parts);
  }

  lemma {:induction false} ParseBack(img: seq<byte>, placed: seq<Partition>, n: nat)
    requires EntriesOn(img, placed) && n <= |placed| && forall i :: 0 <= i < |placed| ==> Placed(placed[i])
    ensures ParseEntries(img, ENTRIES_AT, n) == placed[..n]
  {
    hide ParseEntry, EntryBytes, Placed, Requested, NameBytes;
    if n > 0 {
      ParseBack(img, placed, n - 1);
      assert EntryOn(img, n - 1, placed[n - 1]);
      EntryRoundTrip(placed[n - 1]);
      assert placed[..n] == placed[..n - 1] + [placed[n - 1]];
    }
  }

  lemma Signature()
    ensures FromLE([0x55, 0xaa]) == 0xaa55
  {
  }

  lemma SealedFields(img: seq<byte>, h: Header, at: nat)
    requires |h.disk| == 16 && h.entries < 0x1_0000_0000 && h.entryCrc < 0x1_0000_0000
    requires h.firstUsable < 0x1_0000_0000_0000_0000
    requires |img| >= at + HEADER_SIZE && img[at..at + HEADER_SIZE] == Sealed(h)
    ensures img[at..at + 8] == EFI_PART && Load(img, at + 72, 8) == 2 && Load(img, at + 80, 4) == h.entries
    ensures Load(img, at + 88, 4) == h.entryCrc && Load(img, at + 40, 8) == h.firstUsable
  {
    hide LE, FromLE, HeaderBytes, Pow256, Crc.Crc32Value;
    var s, crc := Sealed(h), Crc.Crc32Value(HeaderBytes(h, 0));
    HeaderSlices(h, crc);
    Widths();
    DecodeEncode(2, 8);
    DecodeEncode(h.entries, 4);
    DecodeEncode(h.entryCrc, 4);
    DecodeEncode(h.firstUsable, 8);
    SubSlice(img, at, at + HEADER_SIZE, at, at + 8);
    SubSlice(img, at, at + HEADER_SIZE, at + 40, at + 48);
    SubSlice(img, at, at + HEADER_SIZE, at + 72, at + 80);
    SubSlice(img, at, at + HEADER_SIZE, at + 80, at + 84);
    SubSlice(img, at, at + HEADER_SIZE, at + 88, at + 92);
  }

  /** The header at `at` carries the checksum of the entry array. */
  ghost predicate ArrayVerifies(img: seq<byte>, at: nat, n: nat) {
    && at + HEADER_SIZE <= |img| && ENTRIES_AT + ENTRY * n <= |img|
    && Load(img, at + 88, 4) == Crc.Crc32Value(img[ENTRIES_AT..ENTRIES_AT + ENTRY * n])
  }

  /** The header at `at` carries its own checksum. */
  ghost predicate Verifies(img: seq<byte>, at: nat) {
    at + HEADER_SIZE <= |img| && HeaderVerifies(img[at..at + HEADER_SIZE])
  }

  /** Reading a written table recovers every partition, in order, and all checksums hold. */
  lemma TableRoundTrip(img: seq<byte>, nBlock: nat, placed: seq<Partition>, h: Header)
    requires Table(img, nBlock, placed, h) && |placed| < 0x1_0000_0000 && h.firstUsable < 0x1_0000_0000_0000_0000
    requires forall i :: 0 <= i < |placed| ==> Placed(placed[i])
    ensures Readable(img) && ParseImage(img) == Parsed(placed)
    ensures Verifies(img, SECTOR) && Verifies(img, SECTOR * (nBlock - 1))
    ensures ArrayVerifies(img, SECTOR, |placed|) && ArrayVerifies(img, SECTOR * (nBlock - 1), |placed|)
    ensures |img| >= ENTRIES_AT && Load(img, SECTOR + 40, 8) == h.firstUsable
  {
    hide Sealed, EntriesOn, Placed, HeaderVerifies, FromLE, Crc.Crc32Value, ParseEntries, MbrBytes;
    var last := SECTOR * (nBlock - 1);
    SealedFields(img, h, SECTOR);
    SealedFields(img, BackupOf(h, nBlock), last);
    Signature();
    MbrSignature(nBlock);
    assert img[510..512] == img[..SECTOR][510..512];
    assert EntriesFit(img, placed) by { EntriesOnFit(img, placed); }
    ParseBack(img, placed, |placed|);
    assert placed[..|placed|] == placed;
    SealedVerifies(h);
    SealedVerifies(BackupOf(h, nBlock));
  }

  ghost predicate EntriesFit(img: seq<byte>, placed: seq<Partition>) { ENTRIES_AT + ENTRY * |placed| <= |img| }

  lemma EntriesOnFit(img: seq<byte>, placed: seq<Partition>)
    requires EntriesOn(img, placed)
    ensures EntriesFit(img, placed)
  {
  }

  lemma SealedVerifies(h: Header)
    requires |h.disk| == 16
    ensures |Sealed(h)| == HEADER_SIZE && HeaderVerifies(Sealed(h))
  {
    hide HeaderVerifies, HeaderBytes, Crc.Crc32Value;
    HeaderSelfCheck(h);
  }

  // ---------------------------------------------------------------- writing

  method WriteMbr(buf: array<byte>, nBlock: nat)
    requires buf.Length >= SECTOR
    modifies buf
    ensures buf[..SECTOR] == MbrBytes(nBlock) && buf[SECTOR..] == old(buf[SECTOR..])
  {
    hide LE, PutFields, Splice, Packed;
    ghost var before := buf[..];
    MbrPacked(nBlock);
    Write(buf, 0, Zeros(SECTOR));
    ghost var cleared := buf[..];
    StoreFields(buf, 0, MbrFields(nBlock), SECTOR);
    PutFieldsLocal(cleared, 0, MbrFields(nBlock), SECTOR);
    SpliceSame(before, 0, Zeros(SECTOR));
    OutsideKept(cleared, 0, MbrFields(nBlock), SECTOR, SECTOR, |cleared|);
    SpliceApart(before, 0, Zeros(SECTOR), SECTOR, |before|);
    assert buf[SECTOR..] == buf[..][SECTOR..|before|] && old(buf[SECTOR..]) == before[SECTOR..|before|];
    assert buf[..SECTOR] == buf[..][0..SECTOR];
  }

  /** Clears `clear` bytes from the entry on, past the end of the entry, then fills it in. */
  method WriteEntry(buf: array<byte>, base: nat, p: Partition, clear: nat)
    requires Requested(p) && ENTRY <= clear && base + clear <= buf.Length
    modifies buf
    ensures buf[base..base + ENTRY] == EntryBytes(p)
    ensures buf[..base] == old(buf[..base]) && buf[base + clear..] == old(buf[base + clear..])
    ensures buf[base + ENTRY..base + clear] == Zeros(clear - ENTRY)
  {
    hide LE, NameBytes, Requested, PutFields, Splice, Packed;
    ghost var before := buf[..];
    EntryPacked(p);
    Write(buf, base, Zeros(clear));
    ghost var cleared := buf[..];
    StoreFields(buf, base, EntryFields(p), ENTRY);
    PutFieldsLocal(cleared, base, EntryFields(p), ENTRY);
    SpliceSame(before, base, Zeros(clear));
    assert cleared[base..base + ENTRY] == cleared[base..base + clear][..ENTRY] == Zeros(ENTRY);
    OutsideKept(cleared, base, EntryFields(p), ENTRY, 0, base);
    SpliceApart(before, base, Zeros(clear), 0, base);
    ghost var s, z := buf[..], |before|;
    OutsideKept(cleared, base, EntryFields(p), ENTRY, base + ENTRY, base + clear);
    OutsideKept(cleared, base, EntryFields(p), ENTRY, base + clear, z);
    SpliceApart(before, base, Zeros(clear), base + clear, z);
    SubSlice(cleared, base, base + clear, base + ENTRY, base + clear);
    assert Zeros(clear)[ENTRY..clear] == Zeros(clear - ENTRY);
    ToPrefix(before, s, base);
    ToSuffix(before, s, base + clear);
    assert buf[..base] == s[..base] && buf[base + clear..] == s[base + clear..];
    assert old(buf[..base]) == before[..base] && old(buf[base + clear..]) == before[base + clear..];
  }

  /** Where the clears of `n` entries end, each clearing `clear` bytes from its entry on. */
  function ClearedTo(n: nat, clear: nat): nat {
    if n == 0 then ENTRIES_AT else ENTRIES_AT + ENTRY * (n - 1) + clear
  }

  /** Behind `n` entries there are zeros up to there, and from there on all is as it was. */
  ghost predicate Erased(before: seq<byte>, after: seq<byte>, n: nat, clear: nat) {
    var lo, e := ENTRIES_AT + ENTRY * n, ClearedTo(n, clear);
    lo <= e <= |after| == |before| && after[lo..e] == Zeros(e - lo) && after[e..] == before[e..]
  }

  lemma ErasedStep(s0: seq<byte>, s1: seq<byte>, s2: seq<byte>, n: nat, clear: nat)
    requires Erased(s0, s1, n, clear) && |s2| == |s1| && ENTRY <= clear && ENTRIES_AT + ENTRY * n + clear <= |s1|
    requires var base := ENTRIES_AT + ENTRY * n;
             s2[base + ENTRY..base + clear] == Zeros(clear - ENTRY) && s2[base + clear..] == s1[base + clear..]
    ensures Erased(s0, s2, n + 1, clear)
  {
    var e, e' := ClearedTo(n, clear), ClearedTo(n + 1, clear);
    assert s1[e..][e' - e..] == s1[e'..] && s0[e..][e' - e..] == s0[e'..];
  }

  method WriteEntries(buf: array<byte>, placed: seq<Partition>, clear: nat)
    requires forall i :: 0 <= i < |placed| ==> Requested(placed[i])
    requires ENTRY <= clear && (placed != [] ==> ENTRIES_AT + ENTRY * (|placed| - 1) + clear <= buf.Length)
    requires ENTRIES_AT <= buf.Length
    modifies buf
    ensures EntriesOn(buf[..], placed) && buf[..ENTRIES_AT] == old(buf[..ENTRIES_AT])
    ensures Erased(old(buf[..]), buf[..], |placed|, clear)
  {
    hide Requested, EntryBytes, Erased;
    ghost var s0 := buf[..];
    NothingErased(s0, clear);
    for i := 0 to |placed|
      invariant EntriesOn(buf[..], placed[..i]) && buf[..ENTRIES_AT] == old(buf[..ENTRIES_AT])
      invariant Erased(s0, buf[..], i, clear)
    {
      ghost var before := buf[..];
      var base := ENTRIES_AT + ENTRY * i;
      WriteEntry(buf, base, placed[i], clear);
      EntriesGrow(before, buf[..], placed, i);
      ErasedStep(s0, before, buf[..], i, clear);
      assert buf[..ENTRIES_AT] == buf[..base][..ENTRIES_AT] && before[..base][..ENTRIES_AT] == before[..ENTRIES_AT];
    }
    assert placed[..|placed|] == placed;
  }

  lemma NothingErased(s: seq<byte>, clear: nat)
    requires ENTRIES_AT <= |s|
    ensures Erased(s, s, 0, clear)
  {
  }

  lemma EntriesGrow(img: seq<byte>, img': seq<byte>, placed: seq<Partition>, i: nat)
    requires i < |placed| && Requested(placed[i]) && EntriesOn(img, placed[..i]) && |img'| == |img|
    requires ENTRIES_AT + ENTRY * (i + 1) <= |img|
    requires EntryOn(img', i, placed[i]) && img'[..ENTRIES_AT + ENTRY * i] == img[..ENTRIES_AT + ENTRY * i]
    ensures EntriesOn(img', placed[..i + 1])
  {
    hide Requested, EntryBytes;
    var more, base := placed[..i + 1], ENTRIES_AT + ENTRY * i;
    forall j | 0 <= j < |more| ensures Requested(more[j]) && EntryOn(img', j, more[j]) {
      if j < i {
        assert more[j] == placed[..i][j] && EntryOn(img, j, placed[..i][j]);
        var a, b := ENTRIES_AT + ENTRY * j, ENTRIES_AT + ENTRY * (j + 1);
        assert img'[a..b] == img'[..base][a..b] == img[..base][a..b] == img[a..b];
      }
    }
  }

  /** Both headers, each with the checksum of its own zero-checksum form. */
  method WriteHeaders(buf: array<byte>, nBlock: nat, h: Header)
    requires buf.Length == SECTOR * nBlock && nBlock >= 4 && |h.disk| == 16
    modifies buf
    ensures buf[SECTOR..SECTOR + HEADER_SIZE] == Sealed(h)
    ensures buf[SECTOR * (nBlock - 1)..SECTOR * (nBlock - 1) + HEADER_SIZE] == Sealed(BackupOf(h, nBlock))
    ensures buf[..SECTOR] == old(buf[..SECTOR])
    ensures buf[ENTRIES_AT..SECTOR * (nBlock - 1)] == old(buf[ENTRIES_AT..SECTOR * (nBlock - 1)])
  {
    hide LE, PutFields, Splice, Packed, HeaderBytes, Crc.Crc32Value;
    var last := SECTOR * (nBlock - 1);
    ghost var s0 := buf[..];
    PutHeader(buf, SECTOR, h);
    ghost var s1 := buf[..];
    CopyBackup(buf, last, nBlock, h);
    ghost var s2 := buf[..];
    SealHeader(buf, SECTOR, h);
    ghost var s3 := buf[..];
    SealHeader(buf, last, BackupOf(h, nBlock));
    ghost var s4 := buf[..];
    assert s1[..SECTOR] == s0[..SECTOR] && s3[..SECTOR] == s2[..SECTOR];
    assert s2[..last] == s1[..last] && s4[..last] == s3[..last];
    var body := SECTOR + HEADER_SIZE;
    assert s1[body..] == s0[body..] && s3[body..] == s2[body..];
    KeptBetween(s0, s1, s2, s3, s4, SECTOR, body, last);
    assert buf[..SECTOR] == s4[..SECTOR] && old(buf[..SECTOR]) == s0[..SECTOR];
  }

  /** Bytes outside `lo..mid` and below `hi` survive four writes confined to those places. */
  lemma KeptBetween(s0: seq<byte>, s1: seq<byte>, s2: seq<byte>, s3: seq<byte>, s4: seq<byte>, lo: nat, mid: nat,
                    hi: nat)
    requires |s0| == |s1| == |s2| == |s3| == |s4| && lo <= mid <= ENTRIES_AT <= hi <= |s0|
    requires s1[..lo] == s0[..lo] && s3[..lo] == s2[..lo] && s2[..hi] == s1[..hi] && s4[..hi] == s3[..hi]
    requires s1[mid..] == s0[mid..] && s3[mid..] == s2[mid..]
    ensures s4[..lo] == s0[..lo] && s4[ENTRIES_AT..hi] == s0[ENTRIES_AT..hi]
  {
    forall i | 0 <= i < lo ensures s4[i] == s0[i] {
      assert s4[i] == s4[..hi][i] && s3[i] == s3[..hi][i] == s3[..lo][i] && s2[i] == s2[..lo][i] == s2[..hi][i];
      assert s1[i] == s1[..hi][i] == s1[..lo][i] && s0[i] == s0[..lo][i];
    }
    forall i | ENTRIES_AT <= i < hi ensures s4[i] == s0[i] {
      assert s4[i] == s4[..hi][i] && s3[i] == s3[..hi][i] == s3[mid..][i - mid]
             && s2[i] == s2[mid..][i - mid] == s2[..hi][i];
      assert s1[i] == s1[..hi][i] == s1[mid..][i - mid] && s0[i] == s0[mid..][i - mid];
    }
  }

  /** Writes all members but the checksum, which stays zero. */
  method PutHeader(buf: array<byte>, base: nat, h: Header)
    requires base + HEADER_SIZE <= buf.Length && |h.disk| == 16
    modifies buf
    ensures buf[base..base + HEADER_SIZE] == HeaderBytes(h, 0)
    ensures buf[..base] == old(buf[..base]) && buf[base + HEADER_SIZE..] == old(buf[base + HEADER_SIZE..])
  {
    hide LE, PutFields, Splice, Packed;
    ghost var before, z, fs := buf[..], Zeros(HEADER_SIZE), HeaderFields(h, 0);
    HeaderPacked(h, 0);
    Write(buf, base, Zeros(HEADER_SIZE));
    ghost var cleared := buf[..];
    StoreFields(buf, base, HeaderFields(h, 0), HEADER_SIZE);
    PutFieldsLocal(cleared, base, fs, HEADER_SIZE);
    SpliceSame(before, base, z);
    OutsideKept(cleared, base, fs, HEADER_SIZE, 0, base);
    OutsideKept(cleared, base, fs, HEADER_SIZE, base + HEADER_SIZE, |before|);
    SpliceApart(before, base, z, 0, base);
    SpliceApart(before, base, z, base + HEADER_SIZE, |before|);
  }

  /** The backup is a copy of the primary header with the two block numbers exchanged. */
  method CopyBackup(buf: array<byte>, last: nat, nBlock: nat, ghost h: Header)
    requires nBlock >= 4 && last + HEADER_SIZE <= buf.Length && |h.disk| == 16 && ENTRIES_AT <= last
    requires buf[SECTOR..SECTOR + HEADER_SIZE] == HeaderBytes(h, 0)
    modifies buf
    ensures buf[last..last + HEADER_SIZE] == HeaderBytes(BackupOf(h, nBlock), 0)
    ensures buf[..last] == old(buf[..last])
  {
    hide LE, PutFields, Splice, Packed, HeaderBytes;
    ghost var before := buf[..];
    var copy := buf[SECTOR..SECTOR + HEADER_SIZE];
    BackupBytes(h, nBlock);
    Write(buf, last, copy);
    ghost var s1 := buf[..];
    Write(buf, last + 24, LE(nBlock - 1, 8));
    ghost var s2 := buf[..];
    Write(buf, last + 32, LE(1, 8));
    SpliceSame(before, last, copy);
    SpliceLocal(s1, last, HEADER_SIZE, 24, LE(nBlock - 1, 8));
    SpliceLocal(s2, last, HEADER_SIZE, 32, LE(1, 8));
    SpliceApart(before, last, copy, 0, last);
    SpliceApart(s1, last + 24, LE(nBlock - 1, 8), 0, last);
    SpliceApart(s2, last + 32, LE(1, 8), 0, last);
  }

  lemma BackupBytes(h: Header, nBlock: nat)
    requires |h.disk| == 16 && nBlock >= 1
    ensures HeaderBytes(BackupOf(h, nBlock), 0)
         == Splice(Splice(HeaderBytes(h, 0), 24, LE(nBlock - 1, 8)), 32, LE(1, 8))
  {
    hide LE, Splice, HeaderBytes;
    HeaderMoved(h, h.(this_ := nBlock - 1), 5);
    HeaderMoved(h.(this_ := nBlock - 1), BackupOf(h, nBlock), 6);
  }

  lemma HeaderMoved(h: Header, g: Header, i: nat)
    requires |h.disk| == 16 && (i == 5 || i == 6)
    requires g == if i == 5 then h.(this_ := g.this_) else h.(alternate := g.alternate)
    ensures HeaderBytes(g, 0) == Splice(HeaderBytes(h, 0), if i == 5 then 24 else 32,
            LE(if i == 5 then g.this_ else g.alternate, 8))
  {
    hide LE, PutFields, Splice, Packed;
    HeaderPacked(h, 0);
    var fs, data := HeaderFields(h, 0), LE(if i == 5 then g.this_ else g.alternate, 8);
    assert HeaderFields(g, 0) == Replaced(fs, i, data);
    ReplaceField(Zeros(HEADER_SIZE), fs, i, data);
  }

  method SealHeader(buf: array<byte>, base: nat, ghost h: Header)
    requires base + HEADER_SIZE <= buf.Length && |h.disk| == 16
    requires buf[base..base + HEADER_SIZE] == HeaderBytes(h, 0)
    modifies buf
    ensures buf[base..base + HEADER_SIZE] == Sealed(h)
    ensures buf[..base] == old(buf[..base]) && buf[base + HEADER_SIZE..] == old(buf[base + HEADER_SIZE..])
  {
    hide LE, Splice, HeaderBytes, Crc.Crc32Value;
    ghost var before := buf[..];
    var crc := Crc.ComputeCrc32(buf[base..base + HEADER_SIZE]);
    Write(buf, base + 16, LE(crc, 4));
    SpliceLocal(before, base, HEADER_SIZE, 16, LE(crc, 4));
    HeaderReplace(h, 0, crc);
    SpliceApart(before, base + 16, LE(crc, 4), 0, base);
    SpliceApart(before, base + 16, LE(crc, 4), base + HEADER_SIZE, |before|);
  }

  // ---------------------------------------------------------------- the whole table

  /** The header of a table whose partitions end before block `next`. */
  ghost function HeaderFor(img: seq<byte>, nBlock: nat, disk: seq<byte>, next: nat, n: nat): Header
    requires nBlock >= 2 && ENTRIES_AT + ENTRY * n <= |img|
  {
    Header(1, nBlock - 1, next, nBlock - 2, disk, n, Crc.Crc32Value(img[ENTRIES_AT..ENTRIES_AT + ENTRY * n]))
  }

  ghost predicate Generated(img: seq<byte>, nBlock: nat, placed: seq<Partition>, disk: seq<byte>, next: nat) {
    && nBlock >= 2 && ENTRIES_AT + ENTRY * |placed| <= |img|
    && Table(img, nBlock, placed, HeaderFor(img, nBlock, disk, next, |placed|))
  }

  /** Every clear starts inside the entry array and ends inside the disk. */
  lemma ClearsInside(parts: seq<Partition>, nBlock: nat, n: nat)
    requires forall i :: 0 <= i < |parts| ==> Requested(parts[i])
    requires nBlock >= 4 + ArraySectors(|parts|) && parts != []
    requires LongestPrefix(parts, nBlock - 4 - ArraySectors(|parts|), n)
    ensures var a := ArraySectors(|parts|);
            && ENTRY <= a * SECTOR && ENTRY * n <= a * SECTOR
            && ENTRIES_AT + a * SECTOR + Damage(n) <= SECTOR * (nBlock - 2)
  {
    SumAtLeast(parts, n);
  }

  lemma NoEntries(n: nat)
    ensures ArraySectors(n) == 0 <==> n == 0
  {
  }

  method Generate(buf: array<byte>, nBlock: nat, parts: seq<Partition>, disk: seq<byte>)
    returns (ret: nat, placed: seq<Partition>)
    requires buf.Length == SECTOR * nBlock < 0x1_0000_0000_0000_0000
    requires |parts| < 0x1_0000_0000 && |disk| == 16 && forall i :: 0 <= i < |parts| ==> Requested(parts[i])
    modifies buf
    ensures var a := ArraySectors(|parts|);
            if nBlock < 4 + a || parts == [] then ret == 0 && placed == [] && buf[..] == old(buf[..])
            else
              && LongestPrefix(parts, nBlock - 4 - a, ret)
              && placed == LaidOut(parts, 2 + a, ret)
              && (forall i :: 0 <= i < |placed| ==> Placed(placed[i]))
              && Generated(buf[..], nBlock, placed, disk, 2 + a + Sum(parts, ret))
              && AreaErased(old(buf[..]), buf[..], SECTOR * (2 + a), SECTOR * (nBlock - 1), ret)
  {
    hide Placed, Requested, Generated, LaidOut, LongestPrefix, ArraySectors, AreaErased;
    var a := ArraySectors(|parts|);
    NoEntries(|parts|);
    if nBlock < 4 + a || a == 0 {
      return 0, [];
    }
    var next;
    ret, placed, next := Allocate(parts, 2 + a, nBlock - 4 - a);
    AllPlaced(parts, 2 + a, nBlock - 4 - a, ret);
    ClearsInside(parts, nBlock, ret);
    WriteTable(buf, nBlock, placed, disk, a * SECTOR, next);
  }

  method WriteTable(buf: array<byte>, nBlock: nat, placed: seq<Partition>, disk: seq<byte>, clear: nat, next: nat)
    requires buf.Length == SECTOR * nBlock && nBlock >= 4 && |disk| == 16
    requires forall i :: 0 <= i < |placed| ==> Requested(placed[i])
    requires ENTRY <= clear && ENTRY * |placed| <= clear
    requires ENTRIES_AT + clear + Damage(|placed|) <= SECTOR * (nBlock - 1)
    modifies buf
    ensures Generated(buf[..], nBlock, placed, disk, next)
    ensures AreaErased(old(buf[..]), buf[..], ENTRIES_AT + clear, SECTOR * (nBlock - 1), |placed|)
  {
    hide LE, PutFields, Sealed, Crc.Crc32Value, EntriesOn, Requested, MbrBytes, Table, Erased, AreaErased;
    ghost var s0 := buf[..];
    WriteMbr(buf, nBlock);
    ghost var mbr := buf[..];
    WriteEntries(buf, placed, clear);
    ghost var entries := buf[..];
    var crc := Crc.ComputeCrc32(buf[ENTRIES_AT..ENTRIES_AT + ENTRY * |placed|]);
    var h := Header(1, nBlock - 1, next, nBlock - 2, disk, |placed|, crc);
    WriteHeaders(buf, nBlock, h);
    TableDone(mbr, entries, buf[..], nBlock, placed, h);
    AreaDone(s0, mbr, entries, buf[..], |placed|, clear, SECTOR * (nBlock - 1));
  }

  /** How many bytes the clears of `n` entries reach past the entry array. */
  function Damage(n: nat): nat { if n <= 1 then 0 else ENTRY * (n - 1) }

  /** In the partition area, from `from` to `last`, the first `Damage(n)` bytes are zero and all
      others as they were. */
  ghost predicate AreaErased(before: seq<byte>, after: seq<byte>, from: nat, last: nat, n: nat) {
    var e := from + Damage(n);
    e <= last <= |before| == |after| && after[from..e] == Zeros(Damage(n)) && after[e..last] == before[e..last]
  }

  lemma AreaDone(s0: seq<byte>, mbr: seq<byte>, entries: seq<byte>, img: seq<byte>, n: nat, clear: nat, last: nat)
    requires |s0| == |mbr| == |entries| == |img| && ENTRY * n <= clear
             && ENTRIES_AT + clear + Damage(n) <= last <= |img|
    requires mbr[SECTOR..] == s0[SECTOR..] && Erased(mbr, entries, n, clear)
    requires img[ENTRIES_AT..last] == entries[ENTRIES_AT..last]
    ensures AreaErased(s0, img, ENTRIES_AT + clear, last, n)
  {
    hide Zeros;
    var from, e := ENTRIES_AT + clear, ENTRIES_AT + clear + Damage(n);
    var lo, to := ENTRIES_AT + ENTRY * n, ClearedTo(n, clear);
    AreaSame(s0, mbr, entries, img, to, e, last);
    if n > 0 {
      AreaZero(entries, img, lo, to, from, last);
    } else {
      assert img[from..e] == Zeros(0);
    }
  }

  lemma AreaSame(s0: seq<byte>, mbr: seq<byte>, entries: seq<byte>, img: seq<byte>, to: nat, e: nat, last: nat)
    requires |s0| == |mbr| == |entries| == |img| && to <= e <= last <= |img| && ENTRIES_AT <= e
    requires mbr[SECTOR..] == s0[SECTOR..] && entries[to..] == mbr[to..]
    requires img[ENTRIES_AT..last] == entries[ENTRIES_AT..last]
    ensures img[e..last] == s0[e..last]
  {
    Suffix(mbr, entries, to);
    Suffix(s0, mbr, SECTOR);
    Within(entries, img, ENTRIES_AT, last, e, last);
    Within(mbr, entries, to, |img|, e, last);
    Within(s0, mbr, SECTOR, |img|, e, last);
  }

  lemma AreaZero(entries: seq<byte>, img: seq<byte>, lo: nat, to: nat, from: nat, last: nat)
    requires |entries| == |img| && ENTRIES_AT <= lo <= from <= to <= last <= |img|
    requires entries[lo..to] == Zeros(to - lo) && img[ENTRIES_AT..last] == entries[ENTRIES_AT..last]
    ensures img[from..to] == Zeros(to - from)
  {
    hide Zeros;
    Within(entries, img, ENTRIES_AT, last, from, to);
    SubSlice(entries, lo, to, from, to);
    assert Zeros(to - lo)[from - lo..to - lo] == Zeros(to - from);
  }

  /** So the partition area is kept exactly if the bytes that the clears reach were zero before, and
      it is kept whatever it held exactly if at most one partition is placed. */
  lemma AreaKept(before: seq<byte>, after: seq<byte>, from: nat, last: nat, n: nat)
    requires AreaErased(before, after, from, last, n)
    ensures after[from..last] == before[from..last] <==> before[from..from + Damage(n)] == Zeros(Damage(n))
    ensures Damage(n) == 0 <==> n <= 1
  {
    hide Zeros;
    var e := from + Damage(n);
    assert after[from..last] == after[from..e] + after[e..last];
    assert before[from..last] == before[from..e] + before[e..last];
    SubSlice(after, from, last, from, e);
    SubSlice(before, from, last, from, e);
  }

  lemma AllPlaced(parts: seq<Partition>, first: nat, room: nat, n: nat)
    requires forall i :: 0 <= i < |parts| ==> Requested(parts[i])
    requires LongestPrefix(parts, room, n) && first + room < 0x1_0000_0000_0000_0000
    ensures forall i :: 0 <= i < n ==> Placed(LaidOut(parts, first, n)[i]) && Requested(LaidOut(parts, first, n)[i])
  {
    forall i | 0 <= i < n ensures Placed(LaidOut(parts, first, n)[i]) && Requested(LaidOut(parts, first, n)[i]) {
      LaidOutAt(parts, first, n, i);
      SumMonotone(parts, i + 1, n);
    }
  }

  lemma TableDone(mbr: seq<byte>, entries: seq<byte>, img: seq<byte>, nBlock: nat, placed: seq<Partition>, h: Header)
    requires |mbr| == |entries| == |img| == SECTOR * nBlock && nBlock >= 4 && |h.disk| == 16
    requires mbr[..SECTOR] == MbrBytes(nBlock) && entries[..ENTRIES_AT] == mbr[..ENTRIES_AT]
    requires EntriesOn(entries, placed) && ENTRIES_AT + ENTRY * |placed| <= SECTOR * (nBlock - 1)
    requires h.entries == |placed| && h.this_ == 1 && h.alternate == nBlock - 1
    requires h.entryCrc == Crc.Crc32Value(entries[ENTRIES_AT..ENTRIES_AT + ENTRY * |placed|])
    requires img[SECTOR..SECTOR + HEADER_SIZE] == Sealed(h)
    requires img[SECTOR * (nBlock - 1)..SECTOR * (nBlock - 1) + HEADER_SIZE] == Sealed(BackupOf(h, nBlock))
    requires img[..SECTOR] == entries[..SECTOR]
    requires img[ENTRIES_AT..SECTOR * (nBlock - 1)] == entries[ENTRIES_AT..SECTOR * (nBlock - 1)]
    ensures Table(img, nBlock, placed, h)
    ensures h == HeaderFor(img, nBlock, h.disk, h.firstUsable, |placed|) <==> h.lastUsable == nBlock - 2
  {
    hide Sealed, Crc.Crc32Value, EntryBytes, Requested, MbrBytes;
    var hi := SECTOR * (nBlock - 1);
    assert img[..SECTOR] == entries[..ENTRIES_AT][..SECTOR] == mbr[..SECTOR];
    var e := ENTRIES_AT + ENTRY * |placed|;
    SubSlice(img, ENTRIES_AT, hi, ENTRIES_AT, e);
    SubSlice(entries, ENTRIES_AT, hi, ENTRIES_AT, e);
    forall i | 0 <= i < |placed| ensures EntryOn(img, i, placed[i]) {
      assert EntryOn(entries, i, placed[i]);
      var a, b := ENTRIES_AT + ENTRY * i, ENTRIES_AT + ENTRY * (i + 1);
      SubSlice(img, ENTRIES_AT, hi, a, b);
      SubSlice(entries, ENTRIES_AT, hi, a, b);
    }
  }

  /** Placed partitions lie between the entry array and the backup header, and do not overlap. */
  lemma PartitionsInside(parts: seq<Partition>, nBlock: nat, n: nat, i: nat, j: nat)
    requires nBlock >= 4 + ArraySectors(|parts|) && i <= j < n
    requires LongestPrefix(parts, nBlock - 4 - ArraySectors(|parts|), n)
    ensures var placed := LaidOut(parts, 2 + ArraySectors(|parts|), n);
            && 2 + ArraySectors(|parts|) <= placed[i].start
            && placed[i].start + placed[i].volume <= nBlock - 2
            && (i < j ==> placed[i].start + placed[i].volume <= placed[j].start)
            && (j == i + 1 ==> placed[i].start + placed[i].volume == placed[j].start)
  {
    var first := 2 + ArraySectors(|parts|);
    hide ArraySectors;
    LaidOutAt(parts, first, n, i);
    LaidOutAt(parts, first, n, j);
    PlacementDisjoint(parts, first, nBlock - 4 - ArraySectors(|parts|), n, i, j);
  }

  /** The block stored as first usable is the one after the last partition. So the table keeps its
      partitions at or above that block exactly if it has none. */
  lemma NoneAboveFirstUsable(parts: seq<Partition>, first: nat, room: nat, n: nat)
    requires LongestPrefix(parts, room, n) && forall i :: 0 <= i < |parts| ==> Requested(parts[i])
    ensures forall i :: 0 <= i < n ==>
              var p := LaidOut(parts, first, n)[i]; p.start + p.volume <= first + Sum(parts, n)
    ensures (forall i :: 0 <= i < n ==> LaidOut(parts, first, n)[i].start >= first + Sum(parts, n)) <==> n == 0
  {
    hide Sum, LaidOut;
    forall i | 0 <= i < n
      ensures var p := LaidOut(parts, first, n)[i]; p.start + p.volume <= first + Sum(parts, n) && p.volume >= 1
    {
      LaidOutAt(parts, first, n, i);
      PlacementDisjoint(parts, first, room, n, i, i);
      assert Requested(parts[i]);
    }
    if n > 0 { assert LaidOut(parts, first, n)[0].start < first + Sum(parts, n); }
  }

  /** Generating a table and parsing the disk gives the placed partitions, in order; both headers
      verify and carry the checksum of the entry array. */
  method GenerateThenParse(buf: array<byte>, nBlock: nat, parts: seq<Partition>, disk: seq<byte>)
    returns (ret: nat, r: ParseResult)
    requires buf.Length == SECTOR * nBlock < 0x1_0000_0000_0000_0000
    requires |parts| < 0x1_0000_0000 && |disk| == 16 && forall i :: 0 <= i < |parts| ==> Requested(parts[i])
    requires nBlock >= 4 + ArraySectors(|parts|) && parts != []
    modifies buf
    ensures LongestPrefix(parts, nBlock - 4 - ArraySectors(|parts|), ret)
    ensures r == Parsed(LaidOut(parts, 2 + ArraySectors(|parts|), ret))
    ensures Verifies(buf[..], SECTOR) && Verifies(buf[..], SECTOR * (nBlock - 1))
    ensures ArrayVerifies(buf[..], SECTOR, ret) && ArrayVerifies(buf[..], SECTOR * (nBlock - 1), ret)
    ensures Load(buf[..], SECTOR + 40, 8) == 2 + ArraySectors(|parts|) + Sum(parts, ret)
  {
    hide Load, ArrayVerifies, Verifies;
    hide Table, HeaderVerifies, Requested, Placed, LaidOut, ParseImage, Readable;
    var placed;
    ret, placed := Generate(buf, nBlock, parts, disk);
    TableRoundTrip(buf[..], nBlock, placed,
        HeaderFor(buf[..], nBlock, disk, 2 + ArraySectors(|parts|) + Sum(parts, ret), |placed|));
    r := Parse(buf);
  }

  /** For one: two partitions of one block each. The first byte of the first partition is erased. */
  method TwoPartitions(buf: array<byte>) returns (ret: nat)
    requires buf.Length == SECTOR * 7
    modifies buf
    ensures ret == 2 && buf[SECTOR * 3] == 0
  {
    hide Generated, AreaErased, LaidOut, Sum, LongestPrefix, Placed;
    var p := Partition(Zeros(16), Zeros(16), [], 1, 0);
    var parts := [p, p];
    var placed;
    ghost var before := buf[..];
    TwoFit(parts);
    ret, placed := Generate(buf, 7, parts, Zeros(16));
    PrefixUnique(parts, 2, ret, 2);
    FirstErased(before, buf[..], SECTOR * 3, SECTOR * 6, 2);
  }

  lemma TwoFit(parts: seq<Partition>)
    requires |parts| == 2 && parts[0].volume == parts[1].volume == 1
    ensures ArraySectors(2) == 1 && LongestPrefix(parts, 2, 2)
  {
    SumNext(parts, 0);
    SumNext(parts, 1);
  }

  lemma PrefixUnique(parts: seq<Partition>, room: nat, m: nat, n: nat)
    requires LongestPrefix(parts, room, m) && LongestPrefix(parts, room, n)
    ensures m == n
  {
  }

  lemma FirstErased(before: seq<byte>, after: seq<byte>, from: nat, last: nat, n: nat)
    requires AreaErased(before, after, from, last, n) && n >= 2
    ensures after[from] == 0
  {
    assert after[from] == after[from..from + Damage(n)][0];
  }
}
