/** Which block a request gets: the size classes, the page and the block within it, in the numbers of
    `tlibc/malloc.c`. */
module SlabClasses {
  import opened SlabModel
  import SlabRuns

  const CLASSES: seq<nat> := [16, 32, 64, 128, 256, 512, 1024]

  /** `k` is the least class that holds `size` bytes. */
  predicate ClassOf(k: nat, size: nat) {
    k < 7 && size <= CLASSES[k] && (k > 0 ==> CLASSES[k - 1] < size)
  }

  /** Blocks of a page: where they start, how large they are and how many there are. */
  lemma PageNumbers(p: nat)
    ensures NCACHES == 7 && PGSIZE == 4096 && HEADER == 32
    ensures forall k: nat :: k < 7 ==> BlockSize(k) == CLASSES[k]
    ensures Block(p, 0, 0) == p + 32 && forall k: nat :: 1 <= k < 7 ==> Block(p, k, 0) == p + CLASSES[k]
    ensures Total(0) == 254 && Total(1) == 127 && Total(2) == 63 && Total(3) == 31
    ensures Total(4) == 15 && Total(5) == 7 && Total(6) == 3
  {
  }

  lemma ClassArena(k: nat, size: nat)
    requires ClassOf(k, size)
    ensures size <= 1024 && k < NCACHES && BlockSize(k) == CLASSES[k] && ArenaFor(size) == k
  {
  }

  lemma EverySmallSize(size: nat) returns (k: nat)
    requires size <= 1024
    ensures ClassOf(k, size)
  {
    k := if size <= 16 then 0 else if size <= 32 then 1 else if size <= 64 then 2 else if size <= 128 then 3
         else if size <= 256 then 4 else if size <= 512 then 5 else 6;
  }

  // ---------------------------------------------------------------- small requests

  const TOTALS: seq<nat> := [254, 127, 63, 31, 15, 7, 3]

  /** Where a block of class `k` comes from: the first one listed; else the idle page, else a page mapped
      for it at `mm`, whose other blocks are then all listed. Other classes are left alone. */
  ghost predicate Served(m: Model, m': Model, k: nat, mm: nat, q: nat)
    requires |m.arenas| == |m.idle| == |m'.arenas| == |m'.idle| == 7 && k < 7
  {
    && (forall j: nat :: j < 7 && j != k ==> m'.arenas[j] == m.arenas[j] && m'.idle[j] == m.idle[j])
    && if m.arenas[k] != [] then
         q == m.arenas[k][0] && m'.arenas[k] == m.arenas[k][1..] && m'.regions == m.regions && m'.idle == m.idle
       else
         var p := if m.idle[k] != 0 then m.idle[k] else mm;
         && PageOf(q) == p && m'.regions.Keys == m.regions.Keys + {p} && m'.idle[k] == 0
         && m'.regions[p] == Small(k, []) && |m'.arenas[k]| == TOTALS[k] - 1
  }

  /** A small request gets a block of the least class that holds it. It fails exactly if the class has no
      block listed, no idle page and no page can be mapped. */
  lemma SmallRequest(m: Model, k: nat, size: nat, mm: nat)
    requires Inv(m) && ClassOf(k, size) && Mmap(m, MallocPages(size), mm)
    ensures var (m', q) := Malloc(m, size, mm);
            && |m.arenas| == |m.idle| == |m'.arenas| == |m'.idle| == 7
            && (q == 0 <==> m.arenas[k] == [] && m.idle[k] == 0 && mm == 0)
            && (q != 0 ==> q in m'.live && Capacity(m', q) == CLASSES[k] && Served(m, m', k, mm, q))
  {
    hide IsBlock, Block, Total, PageOf, PageAligned, Apart, Held, Partition, PageLists, Live, Idle, AllocSmall, Served;
    ClassArena(k, size);
    AllocSmallLive(m, k, size, mm);
    SmallPage(m, k, size, mm);
    var (m', q) := Malloc(m, size, mm);
    if q != 0 { SmallCapacity(m', q, k); }
  }

  lemma SmallCapacity(m: Model, q: nat, k: nat)
    requires Inv(m) && q in m.live && k < NCACHES && BlockOf(m, PageOf(q), q) && m.regions[PageOf(q)].k == k
    ensures Capacity(m, q) == BlockSize(k)
  {
    hide PageOf, IsBlock;
  }

  lemma SmallPage(m: Model, k: nat, size: nat, mm: nat)
    requires Inv(m) && k < NCACHES && size <= BlockSize(k) && Mmap(m, 1, mm)
    ensures var (m', q) := AllocSmall(m, k, size, mm);
            && |m.arenas| == |m.idle| == |m'.arenas| == |m'.idle| == 7
            && if OutOfMemory(m, k, mm) then q == 0 else q != 0 && Served(m, m', k, mm, q)
  {
    hide IsBlock, Block, BlockSize, PageOf, PageAligned, Apart, Held, Partition, Live, FreshList, Total, Refill, Idle;
    hide PageLists, ArenaList;
    if !OutOfMemory(m, k, mm) {
      if m.arenas[k] == [] { Refilled(m, k, mm); } else { Unchanged(m, k, mm); }
      NotNull(Refill(m, k, mm), k);
    }
  }

  lemma Unchanged(m: Model, k: nat, mm: nat)
    requires Inv(m) && k < NCACHES && Mmap(m, 1, mm) && m.arenas[k] != []
    ensures Refill(m, k, mm) == m
  {
    hide Inv, Mmap;
  }

  lemma Refilled(m: Model, k: nat, mm: nat)
    requires Inv(m) && k < NCACHES && Mmap(m, 1, mm) && m.arenas[k] == [] && !OutOfMemory(m, k, mm)
    ensures var p, m2 := if m.idle[k] != 0 then m.idle[k] else mm, Refill(m, k, mm);
            && |m2.arenas[k]| == TOTALS[k] && PageOf(m2.arenas[k][0]) == p
            && m2.arenas == m.arenas[k := m2.arenas[k]] && m2.idle == m.idle[k := 0]
            && m2.regions.Keys == m.regions.Keys + {p} && m2.regions[p] == Small(k, [])
  {
    hide IsBlock, Block, BlockSize, PageOf, PageAligned, Apart, Held, Partition, Live, FreshList, Total, PageLists;
    hide ArenaList;
    if m.idle[k] == 0 {
      MapPageInv(m, k, mm);
      SeizedPage(MapPage(m, k, mm), k);
    } else {
      SeizedPage(m, k);
    }
  }

  /** An idle page gives its whole list. */
  lemma SeizedPage(m: Model, k: nat)
    requires Inv(m) && k < NCACHES && m.idle[k] != 0 && m.arenas[k] == []
    ensures m.idle[k] in m.regions && Seize(m, k).regions.Keys == m.regions.Keys && |Seize(m, k).arenas[k]| == TOTALS[k]
    ensures PageOf(Seize(m, k).arenas[k][0]) == m.idle[k] && Seize(m, k).regions[m.idle[k]] == Small(k, [])
  {
    assert Total(k) == TOTALS[k];
    hide IsBlock, Block, BlockSize, PageOf, PageAligned, Apart, Held, Partition, Live, Total;
    SeizeInv(m, k);
    var p, b := m.idle[k], Seize(m, k).arenas[k][0];
    assert b in m.regions[p].free && BlockOf(m, p, b);
    BlockPage(p, k, b);
  }

  /** A small block that comes back goes in front of its page's list and nowhere else. Only the block
      that makes the page whole again does more: the page becomes the idle page of its class, or is
      unmapped if there is one. */
  lemma SmallReturn(m: Model, b: nat)
    requires Inv(m) && b != 0 && Freeable(m, b) && m.regions[PageOf(b)].Small?
    ensures |m.idle| == 7 && m.regions[PageOf(b)].k < 7
    ensures var p := PageOf(b);
            var k, free, m' := m.regions[p].k, [b] + m.regions[p].free, Free(m, b);
            && m'.arenas == m.arenas && m'.live == m.live - {b}
            && if |free| < TOTALS[k] then m'.regions == m.regions[p := Small(k, free)] && m'.idle == m.idle
               else if m.idle[k] == 0 then m'.regions == m.regions[p := Small(k, free)] && m'.idle == m.idle[k := p]
               else m'.regions == m.regions - {p} && m'.idle == m.idle
  {
    var p := PageOf(b);
    assert Total(m.regions[p].k) == TOTALS[m.regions[p].k];
    hide PageOf, Total, Partition, PageLists, ArenaList, Idle, Live, Apart, PageAligned, BlockOf;
    ReturnLists(m, b);
  }

  /** A fresh page hands out its blocks from the highest address down. */
  lemma {:induction false} FreshOrder(p: nat, k: nat, n: nat, i: nat)
    requires k < 7 && i < n
    ensures |FreshList(p, k, n)| == n
            && FreshList(p, k, n)[i] == p + (if k == 0 then 32 else CLASSES[k]) + (n - 1 - i) * CLASSES[k]
  {
    if n > 1 { FreshOrder(p, k, n - 1, if i > 0 then i - 1 else 0); }
  }

  lemma NotNull(m: Model, k: nat)
    requires Inv(m) && k < NCACHES && m.arenas[k] != []
    ensures m.arenas[k][0] != 0
  {
    hide Block, BlockSize, PageAligned, Apart, Held, Partition, Live, Idle, PageLists, IsBlock;
    var b := m.arenas[k][0];
    assert ArenaList(m, k) && b in m.arenas[k] && BlockOf(m, PageOf(b), b);
    BlockPage(PageOf(b), k, b);
  }

  // ---------------------------------------------------------------- large requests

  /** A large request gets the fewest pages that hold it and its header, and starts behind the header. */
  lemma LargeRequest(m: Model, size: nat, mm: nat)
    requires Inv(m) && size > 1024 && Mmap(m, MallocPages(size), mm)
    ensures var (m', q) := Malloc(m, size, mm);
            && (q == 0 <==> mm == 0)
            && (mm != 0 ==>
                  && q == mm + 32 && mm !in m.regions && mm in m'.regions && m'.regions[mm].Large?
                  && m'.regions == m.regions[mm := m'.regions[mm]]
                  && 4096 * (m'.regions[mm].pages - 1) < size + 32 <= 4096 * m'.regions[mm].pages)
  {
    hide PageOf, PageAligned, Extent, Partition, PageLists, ArenaList, Idle, Live;
    if mm != 0 { FreshNew(m, mm, LargePages(size)); }
  }

  /** `cpp_alloc` gives a large request the fewest pages that hold it, from the start of the first; for
      a small one it is `mymalloc`. */
  lemma CppRequest(m: Model, size: nat, mm: nat)
    requires Inv(m) && Mmap(m, if size > SMALL_MAX then RawPages(size) else 1, mm)
    ensures size <= 1024 ==> Mmap(m, MallocPages(size), mm) && CppAlloc(m, size, mm) == Malloc(m, size, mm)
    ensures var (m', q) := CppAlloc(m, size, mm);
            size > 1024 ==>
              && (q == 0 <==> mm == 0)
              && (mm != 0 ==>
                    && q == mm && mm !in m.regions && mm in m'.regions && m'.regions[mm].Raw?
                    && m'.regions == m.regions[mm := m'.regions[mm]]
                    && 4096 * (m'.regions[mm].pages - 1) < size <= 4096 * m'.regions[mm].pages)
  {
    hide PageOf, PageAligned, Extent, Partition, PageLists, ArenaList, Idle, Live, Malloc;
    if mm != 0 && size > 1024 { FreshNew(m, mm, RawPages(size)); }
  }

  // ---------------------------------------------------------------- realloc

  /** `myrealloc` keeps the block exactly if it is large enough; then nothing is mapped or unmapped.
      Otherwise it returns what `mymalloc` would, and on success gives the old block back. */
  lemma InPlace(m: Model, b: nat, size: nat, mm: nat)
    requires Inv(m) && b != 0 && Freeable(m, b) && Mmap(m, MallocPages(size), mm)
    ensures var (m', q) := Realloc(m, b, size, mm);
            && (q == b <==> size <= Capacity(m, b))
            && (size <= Capacity(m, b) ==> m' == m.(live := m.live[b := size]))
            && (size > Capacity(m, b) ==>
                  && q == Malloc(m, size, mm).1
                  && (if q == 0 then m' == m else b !in m'.live && q in m'.live))
  {
    hide Malloc, Free, Mmap, MallocPages, Inv, Capacity, PageOf;
    MallocLive(m, size, mm);
    SlabRuns.ReallocLive(m, b, size, mm);
  }
}
