/** GUID partition tables as `gpt/gpt.c` writes and reads them (sections 5.3.2 and 5.3.3 of UEFI 2.10). */
module Gpt {
  import opened Bytes
  import Crc

  const SECTOR: nat := 512
  const ENTRY: nat := 128
  const HEADER_SIZE: nat := 92
  const NAME_MAX: nat := 36

  /** `start` is written by `Generate`; the rest is what the caller asks for. */
  datatype Partition = Partition(kind: seq<byte>, id: seq<byte>, name: seq<byte>, volume: nat, start: nat)

  /** What the source asks of a partition request. */
  ghost predicate Requested(p: Partition) {
    && |p.kind| == 16 && |p.id| == 16 && p.volume >= 1
    && |p.name| <= NAME_MAX && forall i :: 0 <= i < |p.name| ==> p.name[i] != 0
  }

  ghost predicate Placed(p: Partition) {
    Requested(p) && p.start + p.volume < 0x1_0000_0000_0000_0000
  }

  // ---------------------------------------------------------------- greedy placement

  function Sum(parts: seq<Partition>, k: nat): nat
    requires k <= |parts|
  {
    if k == 0 then 0 else Sum(parts, k - 1) + parts[k - 1].volume
  }

  /** `n` is the longest prefix of `parts` that fits in `room` blocks. */
  ghost predicate LongestPrefix(parts: seq<Partition>, room: nat, n: nat) {
    && n <= |parts| && Sum(parts, n) <= room
    && forall k :: n < k <= |parts| ==> Sum(parts, k) > room
  }

  lemma {:induction false} SumMonotone(parts: seq<Partition>, i: nat, j: nat)
    requires i <= j <= |parts|
    ensures Sum(parts, i) <= Sum(parts, j)
    decreases j
  {
    if i < j { SumMonotone(parts, i, j - 1); }
  }

  lemma {:induction false} SumAtLeast(parts: seq<Partition>, n: nat)
    requires n <= |parts| && forall i :: 0 <= i < |parts| ==> parts[i].volume >= 1
    ensures n <= Sum(parts, n)
  {
    if n > 0 { SumAtLeast(parts, n - 1); }
  }

  /** The first `k` requests laid out one after the other from block `first`. */
  function LaidOut(parts: seq<Partition>, first: nat, k: nat): (placed: seq<Partition>)
    requires k <= |parts|
    ensures |placed| == k
  {
    if k == 0 then [] else LaidOut(parts, first, k - 1) + [parts[k - 1].(start := first + Sum(parts, k - 1))]
  }

  lemma {:induction false} LaidOutAt(parts: seq<Partition>, first: nat, k: nat, i: nat)
    requires i < k <= |parts|
    ensures LaidOut(parts, first, k)[i] == parts[i].(start := first + Sum(parts, i))
  {
    if i < k - 1 { LaidOutAt(parts, first, k - 1, i); }
  }

  method Allocate(parts: seq<Partition>, first: nat, room: nat) returns (n: nat, placed: seq<Partition>, next: nat)
    ensures LongestPrefix(parts, room, n)
    ensures placed == LaidOut(parts, first, n) && next == first + Sum(parts, n)
  {
    n, placed, next := 0, [], first;
    var remains := room;
    while n < |parts| && parts[n].volume <= remains
      invariant n <= |parts| && placed == LaidOut(parts, first, n)
      invariant Sum(parts, n) <= room && remains == room - Sum(parts, n) && next == first + Sum(parts, n)
    {
      remains := remains - parts[n].volume;
      placed := placed + [parts[n].(start := next)];
      next := next + parts[n].volume;
      n := n + 1;
    }
    NoneLonger(parts, room, n);
  }

  lemma NoneLonger(parts: seq<Partition>, room: nat, n: nat)
    requires n <= |parts| && Sum(parts, n) <= room && (n < |parts| ==> Sum(parts, n + 1) > room)
    ensures LongestPrefix(parts, room, n)
  {
    forall k | n < k <= |parts| ensures Sum(parts, k) > room { SumMonotone(parts, n + 1, k); }
  }

  /** Placed partitions stay in the room given and follow each other without gap or overlap. */
  lemma PlacementDisjoint(parts: seq<Partition>, first: nat, room: nat, n: nat, i: nat, j: nat)
    requires LongestPrefix(parts, room, n) && i <= j < n
    ensures var si, sj := first + Sum(parts, i), first + Sum(parts, j);
            && first <= si && si + parts[i].volume <= first + Sum(parts, n) <= first + room
            && (i < j ==> si + parts[i].volume <= sj)
            && (j == i + 1 ==> si + parts[i].volume == sj)
  {
    hide Sum;
    SumNext(parts, i);
    SumMonotone(parts, i + 1, n);
    SumMonotone(parts, 0, i);
    if i < j { SumMonotone(parts, i + 1, j); }
  }

  lemma SumNext(parts: seq<Partition>, k: nat)
    requires k < |parts|
    ensures Sum(parts, k + 1) == Sum(parts, k) + parts[k].volume
  {
  }

  // ---------------------------------------------------------------- entries

  /** UTF-16LE for ASCII names: each character followed by a zero byte. */
  function NameBytes(name: seq<byte>): (s: seq<byte>)
    ensures |s| == 2 * |name|
    ensures forall i :: 0 <= i < |name| ==> s[2 * i] == name[i] && s[2 * i + 1] == 0
  {
    if name == [] then []
    else NameBytes(name[..|name| - 1]) + [name[|name| - 1], 0]
  }

  function EntryFields(p: Partition): (fs: seq<Field>) {
    [Field(0, p.kind), Field(16, p.id), Field(32, LE(p.start, 8)),
     Field(40, LE(if p.start + p.volume >= 1 then p.start + p.volume - 1 else 0, 8)),
     Field(48, LE(5, 8)), Field(56, NameBytes(p.name))]
  }

  lemma EntryPacked(p: Partition)
    requires Requested(p)
    ensures Packed(EntryFields(p), ENTRY)
  {
  }

  ghost function EntryBytes(p: Partition): (s: seq<byte>)
    requires Requested(p)
    ensures |s| == ENTRY
  {
    EntryPacked(p);
    PutFields(Zeros(ENTRY), 0, EntryFields(p), ENTRY)
  }

  /** Characters up to the first zero at an even position. */
  function ParseName(s: seq<byte>, j: nat): (name: seq<byte>)
    requires |s| == 72 && j <= NAME_MAX
    ensures |name| <= NAME_MAX - j
    decreases NAME_MAX - j
  {
    if j == NAME_MAX || s[2 * j] == 0 then [] else [s[2 * j]] + ParseName(s, j + 1)
  }

  function ParseEntry(e: seq<byte>): (p: Partition)
    requires |e| == ENTRY
  {
    var start, end := Load(e, 32, 8), Load(e, 40, 8);
    Partition(e[0..16], e[16..32], ParseName(e[56..128], 0), (end - start + 1) % 0x1_0000_0000_0000_0000, start)
  }

  lemma {:induction false} NameRoundTrip(s: seq<byte>, name: seq<byte>, j: nat)
    requires |s| == 72 && j <= |name| <= NAME_MAX
    requires forall i :: 0 <= i < |name| ==> s[2 * i] == name[i] && name[i] != 0
    requires |name| < NAME_MAX ==> s[2 * |name|] == 0
    ensures ParseName(s, j) == name[j..]
    decreases NAME_MAX - j
  {
    if j < |name| {
      NameRoundTrip(s, name, j + 1);
      assert name[j..] == [name[j]] + name[j + 1..];
    }
  }

  /** Where the members of a written entry are found again. */
  lemma EntrySlices(p: Partition)
    requires Requested(p)
    ensures var e := EntryBytes(p);
            && e[0..16] == p.kind && e[16..32] == p.id && e[32..40] == LE(p.start, 8)
            && e[40..48] == LE(p.start + p.volume - 1, 8) && e[56..56 + 2 * |p.name|] == NameBytes(p.name)
  {
    hide PutFields, LE, NameBytes, Packed;
    var fs, z := EntryFields(p), Zeros(ENTRY);
    EntryPacked(p);
    FieldKept(z, 0, fs, ENTRY, 0);
    FieldKept(z, 0, fs, ENTRY, 1);
    FieldKept(z, 0, fs, ENTRY, 2);
    FieldKept(z, 0, fs, ENTRY, 3);
    FieldKept(z, 0, fs, ENTRY, 5);
  }

  /** Reading an entry back gives the partition it was written for. */
  lemma EntryRoundTrip(p: Partition)
    requires Placed(p)
    ensures ParseEntry(EntryBytes(p)) == p
  {
    hide EntryBytes, LE, FromLE, Pow256, NameBytes, ParseName;
    EntrySlices(p);
    Widths();
    DecodeEncode(p.start, 8);
    DecodeEncode(p.start + p.volume - 1, 8);
    EntryName(p);
    NameRoundTrip(EntryBytes(p)[56..128], p.name, 0);
    assert p.name[0..] == p.name;
  }

  lemma EntryName(p: Partition)
    requires Placed(p)
    ensures var t := EntryBytes(p)[56..128];
            && (forall i :: 0 <= i < |p.name| ==> t[2 * i] == p.name[i])
            && (|p.name| < NAME_MAX ==> t[2 * |p.name|] == 0)
  {
    hide PutFields, LE, NameBytes, Packed, EntryFields, EntryBytes;
    var e, m := EntryBytes(p), NameBytes(p.name);
    EntrySlices(p);
    forall i | 0 <= i < |p.name| ensures e[56..128][2 * i] == p.name[i] {
      assert e[56..128][2 * i] == e[56..56 + |m|][2 * i];
    }
    if |p.name| < NAME_MAX { NameEnd(p); }
  }

  /** A short name is followed by a zero. */
  lemma NameEnd(p: Partition)
    requires Requested(p) && |p.name| < NAME_MAX
    ensures EntryBytes(p)[56 + 2 * |p.name|] == 0
  {
    hide PutFields, LE, NameBytes, Packed;
    EntryPacked(p);
    FieldsBelow(Zeros(ENTRY), EntryFields(p), 56 + 2 * |p.name|);
  }

  /** Bytes beyond the last field keep their value. */
  lemma {:induction false} FieldsBelow(s: seq<byte>, fs: seq<Field>, a: nat)
    requires Packed(fs, |s|) && a < |s| && forall i :: 0 <= i < |fs| ==> fs[i].off + |fs[i].data| <= a
    ensures PutFields(s, 0, fs, |s|)[a] == s[a]
    decreases |fs|
  {
    if fs != [] { FieldsBelow(s, fs[..|fs| - 1], a); }
  }

  // ---------------------------------------------------------------- headers

  datatype Header = Header(this_: nat, alternate: nat, firstUsable: nat, lastUsable: nat, disk: seq<byte>,
                           entries: nat, entryCrc: nat)

  const EFI_PART: seq<byte> := [0x45, 0x46, 0x49, 0x20, 0x50, 0x41, 0x52, 0x54]

  /** All members; the checksum field holds `crc`. */
  function HeaderFields(h: Header, crc: nat): seq<Field> {
    [Field(0, EFI_PART), Field(8, LE(0x1_0000, 4)), Field(12, LE(HEADER_SIZE, 4)), Field(16, LE(crc, 4)),
     Field(20, LE(0, 4)), Field(24, LE(h.this_, 8)), Field(32, LE(h.alternate, 8)), Field(40, LE(h.firstUsable, 8)),
     Field(48, LE(h.lastUsable, 8)), Field(56, h.disk), Field(72, LE(2, 8)), Field(80, LE(h.entries, 4)),
     Field(84, LE(ENTRY, 4)), Field(88, LE(h.entryCrc, 4))]
  }

  lemma HeaderPacked(h: Header, crc: nat)
    requires |h.disk| == 16
    ensures Packed(HeaderFields(h, crc), HEADER_SIZE)
  {
    hide LE;
    var fs := HeaderFields(h, crc);
    Adjacent(fs, HEADER_SIZE);
  }

  ghost function HeaderBytes(h: Header, crc: nat): (s: seq<byte>)
    requires |h.disk| == 16
    ensures |s| == HEADER_SIZE
  {
    HeaderPacked(h, crc);
    PutFields(Zeros(HEADER_SIZE), 0, HeaderFields(h, crc), HEADER_SIZE)
  }

  /** What firmware checks: with its checksum field zeroed, the header has the checksum it carries. */
  ghost predicate HeaderVerifies(s: seq<byte>)
    requires |s| == HEADER_SIZE
  {
    Load(s, 16, 4) == Crc.Crc32Value(Splice(s, 16, Zeros(4)))
  }

  lemma HeaderSlices(h: Header, crc: nat)
    requires |h.disk| == 16
    ensures var s := HeaderBytes(h, crc);
            && s[0..8] == EFI_PART && s[16..20] == LE(crc, 4) && s[40..48] == LE(h.firstUsable, 8)
               && s[72..80] == LE(2, 8) && s[80..84] == LE(h.entries, 4)
            && s[88..92] == LE(h.entryCrc, 4)
  {
    hide PutFields, LE, Packed;
    var fs, z := HeaderFields(h, crc), Zeros(HEADER_SIZE);
    HeaderPacked(h, crc);
    FieldKept(z, 0, fs, HEADER_SIZE, 0);
    FieldKept(z, 0, fs, HEADER_SIZE, 3);
    FieldKept(z, 0, fs, HEADER_SIZE, 7);
    FieldKept(z, 0, fs, HEADER_SIZE, 10);
    FieldKept(z, 0, fs, HEADER_SIZE, 11);
    FieldKept(z, 0, fs, HEADER_SIZE, 13);
  }

  /** Replacing one member of a packed structure is splicing its bytes. */
  lemma {:induction false} ReplaceField(s: seq<byte>, fs: seq<Field>, i: nat, data: seq<byte>)
    requires Packed(fs, |s|) && i < |fs| && |fs[i].data| == |data|
    ensures var gs := Replaced(fs, i, data);
            Packed(gs, |s|) && PutFields(s, 0, gs, |s|) == Splice(PutFields(s, 0, fs, |s|), fs[i].off, data)
    decreases |fs|
  {
    hide Splice, PutFields, Packed;
    var n, gs := |fs| - 1, Replaced(fs, i, data);
    ReplacedPacked(fs, |s|, i, data);
    LastField(s, 0, fs, |s|);
    LastField(s, 0, gs, |s|);
    if i == n {
      assert gs[..n] == fs[..n];
      SpliceOver(PutFields(s, 0, fs[..n], |s|), fs[n].off, fs[n].data, data);
    } else {
      assert gs[..n] == Replaced(fs[..n], i, data);
      ReplaceField(s, fs[..n], i, data);
      FieldBefore(fs, |s|, i, n);
      SpliceSwap(PutFields(s, 0, fs[..n], |s|), fs[i].off, data, fs[n].off, fs[n].data);
    }
  }

  function Replaced(fs: seq<Field>, i: nat, data: seq<byte>): seq<Field>
    requires i < |fs|
  {
    fs[i := fs[i].(data := data)]
  }

  lemma ReplacedPacked(fs: seq<Field>, size: nat, i: nat, data: seq<byte>)
    requires Packed(fs, size) && i < |fs| && |fs[i].data| == |data|
    ensures Packed(Replaced(fs, i, data), size)
  {
  }

  lemma SpliceOver(s: seq<byte>, off: nat, d: seq<byte>, e: seq<byte>)
    requires off + |d| <= |s| && |e| == |d|
    ensures Splice(Splice(s, off, d), off, e) == Splice(s, off, e)
  {
  }

  lemma SpliceSwap(s: seq<byte>, a: nat, d: seq<byte>, b: nat, e: seq<byte>)
    requires a + |d| <= b && b + |e| <= |s|
    ensures Splice(Splice(s, a, d), b, e) == Splice(Splice(s, b, e), a, d)
  {
  }

  lemma ZeroLE()
    ensures LE(0, 4) == Zeros(4)
  {
  }

  lemma HeaderReplace(h: Header, crc: nat, crc': nat)
    requires |h.disk| == 16
    ensures HeaderBytes(h, crc') == Splice(HeaderBytes(h, crc), 16, LE(crc', 4))
  {
    hide LE, PutFields, Packed, Splice;
    HeaderPacked(h, crc);
    var fs := HeaderFields(h, crc);
    assert HeaderFields(h, crc') == Replaced(fs, 3, LE(crc', 4));
    ReplaceField(Zeros(HEADER_SIZE), fs, 3, LE(crc', 4));
  }

  /** A header stored with the checksum of its zero-checksum form verifies. */
  lemma HeaderSelfCheck(h: Header)
    requires |h.disk| == 16
    ensures var crc := Crc.Crc32Value(HeaderBytes(h, 0)); HeaderVerifies(HeaderBytes(h, crc))
  {
    hide LE, HeaderBytes, Crc.Crc32Value, FromLE, Pow256;
    var crc := Crc.Crc32Value(HeaderBytes(h, 0));
    HeaderSlices(h, crc);
    Widths();
    DecodeEncode(crc, 4);
    HeaderReplace(h, crc, 0);
    ZeroLE();
  }
}
