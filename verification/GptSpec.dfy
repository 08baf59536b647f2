/** GUID partition tables as sections 5.2.3, 5.3.2 and 5.3.3 of UEFI 2.10 lay them out, in terms of the bytes
    alone: offsets and constants are numerals. */
module GptSpec {
  import opened Bytes
  import Crc

  ghost predicate Zero(img: seq<byte>, a: nat, b: nat) { b <= |img| && forall i :: a <= i < b ==> img[i] == 0 }

  /** The protective master boot record: one record that covers the disk. */
  ghost predicate ProtectiveMbr(img: seq<byte>, nBlock: nat) {
    && |img| >= 512 && nBlock >= 1
    && Zero(img, 0, 446) && img[446] == 0x80 && Load(img, 447, 3) == 0x200 && img[450] == 0xee
    && Load(img, 451, 3) == Least(512 * nBlock % 0x1_0000_0000, 0xff_ffff)
    && Load(img, 454, 4) == 1 && Load(img, 458, 4) == (if nBlock >= 0xffff_ffff then 0xffff_ffff else nBlock - 1)
    && Zero(img, 462, 510) && Load(img, 510, 2) == 0xaa55
  }

  function Least(a: nat, b: nat): nat { if a <= b then a else b }

  /** The header at byte `a`, with the checksums of itself and of the `n` entries. */
  ghost predicate HeaderAt(img: seq<byte>, a: nat, self: nat, other: nat, first: nat, last: nat, disk: seq<byte>,
                           n: nat) {
    && a + 92 <= |img| && 1024 + 128 * n <= |img|
    && Spells(img[a..a + 8], "EFI PART") && Load(img, a + 8, 4) == 0x1_0000 && Load(img, a + 12, 4) == 92
    && Load(img, a + 16, 4) == Crc.Crc32Value(img[a..a + 16] + Zeros(4) + img[a + 20..a + 92])
    && Load(img, a + 20, 4) == 0 && Load(img, a + 24, 8) == self && Load(img, a + 32, 8) == other
    && Load(img, a + 40, 8) == first && Load(img, a + 48, 8) == last && img[a + 56..a + 72] == disk
    && Load(img, a + 72, 8) == 2 && Load(img, a + 80, 4) == n && Load(img, a + 84, 4) == 128
    && Load(img, a + 88, 4) == Crc.Crc32Value(img[1024..1024 + 128 * n])
  }

  function StartOf(img: seq<byte>, i: nat): nat
    requires 1024 + 128 * i + 128 <= |img|
  {
    Load(img, 1024 + 128 * i + 32, 8)
  }

  function EndOf(img: seq<byte>, i: nat): nat
    requires 1024 + 128 * i + 128 <= |img|
  {
    Load(img, 1024 + 128 * i + 40, 8)
  }

  /** Entry `i`: required and legacy bootable, the name in UTF-16. */
  ghost predicate EntryAt(img: seq<byte>, i: nat, kind: seq<byte>, id: seq<byte>, name: seq<byte>, volume: nat) {
    var a := 1024 + 128 * i;
    && a + 128 <= |img| && |name| <= 36
    && img[a..a + 16] == kind && img[a + 16..a + 32] == id && EndOf(img, i) + 1 == StartOf(img, i) + volume
    && Load(img, a + 48, 8) == 5
    && Named(img, a + 56, name)
  }

  ghost predicate Named(img: seq<byte>, a: nat, name: seq<byte>) {
    forall k: nat :: k < 36 ==> NameUnit(img, a, name, k)
  }

  /** Character `k` of the name field at `a`: the name, then zeros. */
  ghost predicate NameUnit(img: seq<byte>, a: nat, name: seq<byte>, k: nat) {
    a + 2 * k + 2 <= |img| && img[a + 2 * k] == (if k < |name| then name[k] else 0) && img[a + 2 * k + 1] == 0
  }

  /** Both headers of a disk of `nBlock` blocks whose partitions end in front of block `end`. */
  ghost predicate Headers(img: seq<byte>, nBlock: nat, disk: seq<byte>, n: nat, end: nat) {
    && nBlock >= 4
    && HeaderAt(img, 512, 1, nBlock - 1, end, nBlock - 2, disk, n)
    && HeaderAt(img, 512 * (nBlock - 1), nBlock - 1, 1, end, nBlock - 2, disk, n)
  }

  /** `n` entries follow each other on the disk from block `first` on. */
  ghost predicate InARow(img: seq<byte>, n: nat, first: nat) {
    && 1024 + 128 * n <= |img|
    && forall i: nat :: i < n ==> StartOf(img, i) == if i == 0 then first else EndOf(img, i - 1) + 1
  }
}
