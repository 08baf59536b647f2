/** The boot sector that `createFAT32` stores, read member by member. */
module FatBoot {
  import opened Bytes
  import opened FatLayout
  import opened FatImage
  import FatSpec

  lemma LayoutRanges(l: Layout)
    requires Formatted(l)
    ensures 512 <= l.bps < 0x1_0000 && 1 <= l.spc < 0x100 && l.n < U32 && l.fatSec < U32
    ensures RESERVED + 2 * l.fatSec <= l.n
  {
    TableCovers(l);
    AtLeast(l.bps, 1, l.n);
  }

  ghost predicate Booted(img: seq<byte>, l: Layout, media: byte) { |img| >= INFO && img[0..INFO] == BpbBytes(l, media) }

  lemma Member(img: seq<byte>, l: Layout, media: byte, i: nat)
    requires Booted(img, l, media) && i < |BpbFields(l, media)|
    ensures var f := BpbFields(l, media)[i];
            f.off + |f.data| <= INFO <= |img| && img[f.off..f.off + |f.data|] == f.data
  {
    hide LE, PutFields, Packed;
    BpbPacked(l, media);
    var fs := BpbFields(l, media);
    FieldKept(Zeros(INFO), 0, fs, INFO, i);
    hide BpbFields;
    SubSlice(img, 0, INFO, fs[i].off, fs[i].off + |fs[i].data|);
  }

  /** A number stored as member `i` is loaded again. */
  lemma Number(img: seq<byte>, l: Layout, media: byte, i: nat, off: nat, n: nat, x: nat)
    requires Booted(img, l, media) && i < |BpbFields(l, media)| && BpbFields(l, media)[i] == Field(off, LE(x, n))
    requires x < Pow256(n)
    ensures off + n <= |img| && Load(img, off, n) == x
  {
    hide LE, FromLE, Pow256, BpbFields, Booted;
    Member(img, l, media, i);
    DecodeEncode(x, n);
  }

  lemma Gap(img: seq<byte>, l: Layout, media: byte, a: nat, b: nat)
    requires Booted(img, l, media) && a <= b <= INFO
    requires forall i :: 0 <= i < |BpbFields(l, media)| ==>
               b <= BpbFields(l, media)[i].off || BpbFields(l, media)[i].off + |BpbFields(l, media)[i].data| <= a
    ensures img[a..b] == Zeros(b - a)
  {
    hide LE, PutFields, Packed;
    BpbPacked(l, media);
    hide BpbFields;
    GapKept(Zeros(INFO), 0, BpbFields(l, media), INFO, a, b);
    SubSlice(img, 0, INFO, a, b);
  }

  lemma Geometry(img: seq<byte>, l: Layout, media: byte)
    requires Formatted(l) && Booted(img, l, media)
    ensures FatSpec.Geometry(img, l.n, l.bps, l.spc) && Load(img, 36, 4) == l.fatSec
  {
    hide BpbFields, FromLE, Formatted;
    Units(img, l, media);
    Extents(img, l, media);
    Places(img, l, media);
  }

  lemma Units(img: seq<byte>, l: Layout, media: byte)
    requires Formatted(l) && Booted(img, l, media)
    ensures Load(img, 11, 2) == l.bps && Load(img, 13, 1) == l.spc && Load(img, 14, 2) == 8
  {
    LayoutRanges(l);
    Widths();
    hide LE, FromLE, Pow256, Formatted;
    Number(img, l, media, 2, 11, 2, l.bps);
    Number(img, l, media, 3, 13, 1, l.spc);
    Number(img, l, media, 4, 14, 2, 8);
  }

  lemma Extents(img: seq<byte>, l: Layout, media: byte)
    requires Formatted(l) && Booted(img, l, media)
    ensures Load(img, 16, 1) == 2 && Load(img, 32, 4) == l.n && Load(img, 36, 4) == l.fatSec
  {
    LayoutRanges(l);
    Widths();
    hide LE, FromLE, Pow256, Formatted;
    Number(img, l, media, 5, 16, 1, 2);
    Number(img, l, media, 12, 32, 4, l.n);
    Number(img, l, media, 13, 36, 4, l.fatSec);
  }

  lemma Places(img: seq<byte>, l: Layout, media: byte)
    requires Booted(img, l, media)
    ensures Load(img, 44, 4) == 2 && Load(img, 48, 2) == 1 && Load(img, 50, 2) == 6
  {
    Widths();
    hide LE, FromLE, Pow256;
    Number(img, l, media, 16, 44, 4, 2);
    Number(img, l, media, 17, 48, 2, 1);
    Number(img, l, media, 18, 50, 2, 6);
  }

  lemma Zeroes(img: seq<byte>, l: Layout, media: byte)
    requires Booted(img, l, media)
    ensures |img| >= 512
    ensures Load(img, 17, 2) == 0 && Load(img, 19, 2) == 0 && Load(img, 28, 4) == 0
  {
    Widths();
    hide LE, FromLE, Pow256;
    Number(img, l, media, 6, 17, 2, 0);
    Number(img, l, media, 7, 19, 2, 0);
    Number(img, l, media, 11, 28, 4, 0);
  }

  lemma Versions(img: seq<byte>, l: Layout, media: byte)
    requires Booted(img, l, media)
    ensures |img| >= 512 && Load(img, 40, 2) == 0 && Load(img, 42, 2) == 0
  {
    Widths();
    hide LE, FromLE, Pow256;
    Number(img, l, media, 14, 40, 2, 0);
    Number(img, l, media, 15, 42, 2, 0);
  }

  lemma ZeroPair()
    ensures FromLE(Zeros(2)) == 0
  {
  }

  /** No member touches these bytes. */
  predicate Spare(a: nat, b: nat) { (a, b) in {(22, 24), (52, 64), (65, 66), (90, 510)} }

  lemma Untouched(l: Layout, media: byte, a: nat, b: nat)
    requires Spare(a, b)
    ensures forall i :: 0 <= i < |BpbFields(l, media)| ==>
              b <= BpbFields(l, media)[i].off || BpbFields(l, media)[i].off + |BpbFields(l, media)[i].data| <= a
  {
    hide LE;
  }

  lemma Gaps(img: seq<byte>, l: Layout, media: byte)
    requires Booted(img, l, media)
    ensures |img| >= 512 && img[22..24] == Zeros(2)
    ensures (forall i :: 52 <= i < 64 ==> img[i] == 0) && img[65] == 0 && forall i :: 90 <= i < 510 ==> img[i] == 0
  {
    forall a: nat, b: nat | Spare(a, b) ensures a <= b <= INFO && img[a..b] == Zeros(b - a) {
      Untouched(l, media, a, b);
      hide BpbFields;
      Gap(img, l, media, a, b);
    }
    hide BpbFields, Booted;
    assert Spare(22, 24) && Spare(52, 64) && Spare(65, 66) && Spare(90, 510);
    assert forall i :: 52 <= i < 64 ==> img[i] == img[52..64][i - 52];
    assert img[65] == img[65..66][0];
    assert forall i :: 90 <= i < 510 ==> img[i] == img[90..510][i - 90];
  }

  lemma Marks(img: seq<byte>, l: Layout, media: byte)
    requires Booted(img, l, media)
    ensures |img| >= 512
    ensures Load(img, 24, 2) == 32 && Load(img, 26, 2) == 8 && Load(img, 67, 4) == 0xe579_2f15
  {
    Widths();
    hide LE, FromLE, Pow256;
    Number(img, l, media, 9, 24, 2, 32);
    Number(img, l, media, 10, 26, 2, 8);
    Number(img, l, media, 21, 67, 4, 0xe579_2f15);
  }

  lemma Flags(img: seq<byte>, l: Layout, media: byte)
    requires Booted(img, l, media)
    ensures |img| >= 512 && img[21] == media && img[64] == 0x80 && img[66] == 0x29
  {
    hide LE;
    Member(img, l, media, 8);
    Member(img, l, media, 19);
    Member(img, l, media, 20);
    assert img[21] == img[21..22][0] && img[64] == img[64..65][0] && img[66] == img[66..67][0];
  }

  lemma Ends(img: seq<byte>, l: Layout, media: byte)
    requires Booted(img, l, media)
    ensures |img| >= 512 && img[0] == 0xeb && img[1] == 0 && img[2] == 0x90 && img[510..512] == [0x55, 0xaa]
  {
    hide LE;
    Member(img, l, media, 0);
    Member(img, l, media, 24);
    Member(img, l, media, 25);
    assert img[0] == img[0..3][0] && img[1] == img[0..3][1] && img[2] == img[0..3][2];
    assert img[510] == img[510..511][0] && img[511] == img[511..512][0];
  }

  lemma Texts(img: seq<byte>, l: Layout, media: byte)
    requires Booted(img, l, media)
    ensures |img| >= 512
    ensures Spells(img[3..11], "mkfs.fat") && Spells(img[71..82], "NO NAME    ") && Spells(img[82..90], "FAT32   ")
  {
    hide LE;
    Member(img, l, media, 1);
    Member(img, l, media, 22);
    Member(img, l, media, 23);
  }

  lemma Signature()
    ensures FromLE([0x55, 0xaa]) == 0xaa55
  {
    var s: seq<byte> := [0x55, 0xaa];
    assert s[1..] == [0xaa] && s[1..][1..] == [];
  }

  /** The whole boot sector. */
  lemma Boots(img: seq<byte>, l: Layout, isFixed: bool)
    requires Formatted(l) && Booted(img, l, if isFixed then 0xf8 else 0xf0)
    ensures FatSpec.BootSector(img, l.n, l.bps, l.spc, isFixed) && Load(img, 36, 4) == l.fatSec
  {
    var media: byte := if isFixed then 0xf8 else 0xf0;
    hide Spells, FromLE, Booted, FatSpec.Geometry, Formatted;
    Signature();
    ZeroPair();
    Gaps(img, l, media);
    Flags(img, l, media);
    Ends(img, l, media);
    Geometry(img, l, media);
    Zeroes(img, l, media);
    Versions(img, l, media);
    Marks(img, l, media);
    Texts(img, l, media);
  }
}
