/** Geometry of a FAT32 volume as `gpt/fat.c` lays it out (section 3 of the Microsoft FAT
    Specification of August 2005): eight reserved sectors, two allocation tables, data. */
module FatLayout {

  const RESERVED: nat := 8
  const U32: nat := 0x1_0000_0000

  datatype Config = Config(nSector: nat, bytesPerSector: nat, clusterSize: nat, isFixed: bool)

  /** Sector and cluster sizes are powers of two in the ranges of the specification. */
  predicate Accepted(c: Config) {
    && c.nSector >= 16 && c.bytesPerSector in {512, 1024, 2048, 4096}
    && c.clusterSize in {1, 2, 4, 8, 16, 32, 64, 128}
  }

  function CDiv(a: nat, b: nat): nat
    requires b > 0
  {
    (a + b - 1) / b
  }

  method IsDoubling(x: nat, lo: nat, hi: nat) returns (found: bool)
    requires 0 < lo
    ensures lo == 512 && hi == 8192 ==> (found <==> x in {512, 1024, 2048, 4096})
    ensures lo == 1 && hi == 256 ==> (found <==> x in {1, 2, 4, 8, 16, 32, 64, 128})
  {
    var i := lo;
    while i < hi
      invariant 0 < i
      invariant lo == 512 && hi == 8192 ==>
        i in {512, 1024, 2048, 4096, 8192} && (x in {512, 1024, 2048, 4096} ==> x >= i)
      invariant lo == 1 && hi == 256 ==>
        i in {1, 2, 4, 8, 16, 32, 64, 128, 256} && (x in {1, 2, 4, 8, 16, 32, 64, 128} ==> x >= i)
      decreases hi - i
    {
      if x == i { return true; }
      i := i * 2;
    }
    return false;
  }

  /** Sector size, sectors per cluster, sectors in the volume, sectors in one table. */
  datatype Layout = Layout(bps: nat, spc: nat, n: nat, fatSec: nat)

  function LayoutOf(c: Config): Layout
    requires Accepted(c)
  {
    Layout(c.bytesPerSector, c.clusterSize, c.nSector, CDiv(c.nSector / c.clusterSize, c.bytesPerSector / 4))
  }

  function FatBytes(l: Layout): nat { l.fatSec * l.bps }

  function Fat0(l: Layout): nat { RESERVED * l.bps }

  function Fat1(l: Layout): nat { Fat0(l) + FatBytes(l) }

  function Data(l: Layout): nat { Fat1(l) + FatBytes(l) }

  function Bpc(l: Layout): nat { l.spc * l.bps }

  function Size(l: Layout): nat { l.n * l.bps }

  /** Cluster numbers run from 2 up to, but not including, this one. */
  function MaxCluster(l: Layout): nat {
    if l.spc == 0 || l.n < RESERVED + 2 * l.fatSec then 0 else (l.n - RESERVED - 2 * l.fatSec) / l.spc
  }

  function ClusterAt(l: Layout, c: nat): nat
    requires c >= 2
  {
    Data(l) + (c - 2) * Bpc(l)
  }

  function SectorOf(l: Layout, c: nat): nat
    requires c >= 2
  {
    (c - 2) * l.spc + RESERVED + 2 * l.fatSec
  }

  /** A volume `createFAT32` accepts, below 4 GiB and with more than two clusters. */
  ghost predicate Formatted(l: Layout) {
    && (exists c :: Accepted(c) && l == LayoutOf(c))
    && l.n / l.spc > 2 && l.n * l.bps < U32
  }

  // ---------------------------------------------------------------- everything fits

  lemma Quotient(a: nat, b: nat)
    requires b > 0
    ensures (a / b) * b <= a < (a / b) * b + b
    ensures a <= CDiv(a, b) * b < a + b
  {
  }

  lemma AtLeast(a: nat, b: nat, c: nat)
    requires a >= b
    ensures a * c >= b * c
  {
  }

  /** One table has an entry for every cluster number below the maximum. */
  lemma TableCovers(l: Layout)
    requires Formatted(l)
    ensures 4 * (l.n / l.spc) <= FatBytes(l)
    ensures 2 * l.fatSec + RESERVED + l.spc <= l.n
    ensures MaxCluster(l) <= l.n / l.spc
  {
    var k, e := l.n / l.spc, l.bps / 4;
    assert l.bps == 4 * e && e >= 128 && l.fatSec == CDiv(k, e);
    Quotient(l.n, l.spc);
    Quotient(k, e);
    Assoc(l.fatSec, 4, e);
    TablesSmall(l.n, l.spc, k, e, l.fatSec);
    DivMonotone(l.n - RESERVED - 2 * l.fatSec, l.n, l.spc);
  }

  lemma DivMonotone(a: nat, b: nat, c: nat)
    requires a <= b && c > 0
    ensures a / c <= b / c
  {
    hide CDiv;
    var x, y := a / c, b / c;
    assert x * c <= a by { Quotient(a, c); }
    assert b < y * c + c by { Quotient(b, c); }
    NotAbove(x, y, c);
  }

  lemma NotAbove(x: nat, y: nat, c: nat)
    requires x * c < y * c + c
    ensures x <= y
  {
    if x > y { AtLeast(x, y + 1, c); }
    assert (y + 1) * c == y * c + c;
  }

  /** Both tables take at most a 64th of the sectors, plus two. */
  lemma TablesSmall(n: nat, spc: nat, k: nat, e: nat, fatSec: nat)
    requires n >= 16 && spc >= 1 && k * spc <= n && k >= 3 && e >= 128 && fatSec * e < k + e
    requires spc in {1, 2, 4, 8, 16, 32, 64, 128}
    ensures 2 * fatSec + RESERVED + spc <= n
  {
  }

  /** The regions of the volume follow each other and end inside it. */
  lemma Regions(l: Layout)
    requires Formatted(l)
    ensures 512 <= l.bps && Fat0(l) == 8 * l.bps && Fat0(l) < Fat1(l) < Data(l)
    ensures 4 * MaxCluster(l) <= FatBytes(l)
    ensures l.bps <= Bpc(l) && Data(l) + Bpc(l) <= Size(l) < U32
    ensures Bpc(l) % 32 == 0
    ensures MaxCluster(l) * Bpc(l) + Data(l) <= Size(l)
  {
    TableCovers(l);
    var d := l.n - RESERVED - 2 * l.fatSec;
    Quotient(d, l.spc);
    RegionSums(l.bps, l.spc, l.n, l.fatSec, MaxCluster(l));
    TableNotEmpty(l);
    Dir32(l.spc, l.bps);
  }

  lemma RegionSums(bps: nat, spc: nat, n: nat, f: nat, m: nat)
    requires 2 * f + RESERVED + spc <= n && 2 * f + RESERVED + m * spc <= n && spc >= 1
    ensures bps <= spc * bps
    ensures RESERVED * bps + f * bps + f * bps + spc * bps <= n * bps
    ensures m * (spc * bps) + (RESERVED * bps + f * bps + f * bps) <= n * bps
  {
  }

  lemma Assoc(a: nat, b: nat, c: nat)
    ensures (a * b) * c == a * (b * c)
  {
  }

  lemma TableNotEmpty(l: Layout)
    requires Formatted(l)
    ensures FatBytes(l) > 0
  {
    TableCovers(l);
  }

  lemma Dir32(spc: nat, bps: nat)
    requires bps in {512, 1024, 2048, 4096}
    ensures (spc * bps) % 32 == 0
  {
    if bps == 512 { Thirty(spc * bps, 16 * spc); }
    else if bps == 1024 { Thirty(spc * bps, 32 * spc); }
    else if bps == 2048 { Thirty(spc * bps, 64 * spc); }
    else { Thirty(spc * bps, 128 * spc); }
  }

  lemma Thirty(x: nat, q: nat)
    requires x == 32 * q
    ensures x % 32 == 0
  {
  }

  // ---------------------------------------------------------------- clusters

  lemma ClusterSteps(l: Layout, c: nat, d: nat)
    requires 2 <= c <= d
    ensures ClusterAt(l, d) == ClusterAt(l, c) + (d - c) * Bpc(l)
    ensures ClusterAt(l, c) <= ClusterAt(l, d)
  {
  }

  /** Every cluster number below the maximum maps to data inside the volume, clear of the tables. */
  lemma ClusterInside(l: Layout, c: nat)
    requires Formatted(l) && 2 <= c < MaxCluster(l)
    ensures Data(l) <= ClusterAt(l, c) && ClusterAt(l, c) + Bpc(l) <= Size(l)
    ensures Fat0(l) + 4 * c + 4 <= Fat1(l) && Fat1(l) + 4 * c + 4 <= Data(l)
  {
    Regions(l);
    ClusterSteps(l, 2, c);
    ClusterEnd(l, c + 1);
    ClusterSteps(l, c, c + 1);
  }

  lemma ClusterEnd(l: Layout, c: nat)
    requires Formatted(l) && 2 <= c <= MaxCluster(l)
    ensures ClusterAt(l, c) + 2 * Bpc(l) <= Size(l)
  {
    Regions(l);
    var b, m := Bpc(l), MaxCluster(l);
    hide Bpc, Data, Size, MaxCluster, Formatted;
    AtLeast(m, c, b);
    assert (c - 2) * b + 2 * b == c * b;
  }

  lemma SectorBytes(l: Layout, c: nat)
    requires c >= 2
    ensures SectorOf(l, c) * l.bps == ClusterAt(l, c)
  {
  }

  lemma ThreeClusters(l: Layout)
    requires Formatted(l)
    ensures MaxCluster(l) >= 3 <==> l.n >= RESERVED + 2 * l.fatSec + 3 * l.spc
  {
    TableCovers(l);
    var d := l.n - RESERVED - 2 * l.fatSec;
    Quotient(d, l.spc);
    if d >= 3 * l.spc && d / l.spc < 3 { AtLeast(2, d / l.spc, l.spc); }
    if d / l.spc >= 3 { AtLeast(d / l.spc, 3, l.spc); }
  }

  /** `clusterToFATEntry`: sector in the high half, offset in it in the low half. */
  function ClusterToFatEntry(l: Layout, c: nat): nat
    requires l.bps > 0
  {
    (RESERVED + 4 * c / l.bps) * U32 + 4 * c % l.bps
  }

  /** It addresses word `c` of the first table, inside that table, and no entry straddles sectors. */
  lemma EntryAddress(l: Layout, c: nat)
    requires Formatted(l) && c < MaxCluster(l)
    ensures var sector, off := ClusterToFatEntry(l, c) / U32, ClusterToFatEntry(l, c) % U32;
            sector * l.bps + off == Fat0(l) + 4 * c && off + 4 <= l.bps && sector < RESERVED + l.fatSec
  {
    hide MaxCluster, Bpc, Size;
    Regions(l);
    DivMod(4 * c, l.bps);
    EntryOffset(l.bps, l.fatSec, c, 4 * c / l.bps, 4 * c % l.bps);
    Split(RESERVED + 4 * c / l.bps, 4 * c % l.bps);
  }

  lemma DivMod(a: nat, b: nat)
    requires b > 0
    ensures (a / b) * b + a % b == a && a % b < b
  {
  }

  lemma EntryOffset(b: nat, fatSec: nat, c: nat, q: nat, r: nat)
    requires b in {512, 1024, 2048, 4096} && q * b + r == 4 * c < fatSec * b && r < b
    ensures (RESERVED + q) * b + r == RESERVED * b + 4 * c && r + 4 <= b && q < fatSec
  {
  }

  lemma Split(hi: nat, lo: nat)
    requires lo < U32
    ensures (hi * U32 + lo) / U32 == hi && (hi * U32 + lo) % U32 == lo
  {
  }
}
