/** The allocator of `tlibc/malloc.c` over raw memory. `m` is its abstract state; each entry point
    performs the step of `SlabModel` named in its contract and touches no held pointer's bytes. */
module Slab {
  import opened SlabModel
  import opened SlabMemory
  import SlabRuns

  class Allocator {
    var mem: Memory       // contents of mapped pages
    var mapped: set<nat>  // pages the kernel has mapped
    var heads: seq<nat>   // `freelist` of each arena
    var idles: seq<nat>   // `idlepage` of each arena
    ghost var m: Model

    ghost predicate Valid()
      reads this
    {
      Inv(m) && Rep(mem, mapped, heads, idles, m)
    }

    constructor ()
      ensures Valid() && m == SlabRuns.Empty
    {
      mem, mapped := map[], {};
      heads := seq(NCACHES, _ => 0);
      idles := seq(NCACHES, _ => 0);
      m := SlabRuns.Empty;
      SlabRuns.EmptyInv();
    }

    method Load(a: nat) returns (v: nat)
      requires a % 8 == 0 && PageOf(a) in mapped
      ensures v == Cell(mem, a)
    {
      v := if a in mem then mem[a] else 0;
    }

    method Store(a: nat, v: nat)
      requires a % 8 == 0 && PageOf(a) in mapped
      modifies this`mem
      ensures mem == old(mem)[a := v]
    {
      mem := mem[a := v];
    }

    /** `mmap` answered `mm`; anonymous pages start zeroed. */
    method AllocPage(n: nat, mm: nat)
      modifies this`mem, this`mapped
      ensures mm == 0 ==> mem == old(mem) && mapped == old(mapped)
      ensures mm != 0 ==> mapped == old(mapped) + PageSpan(mm, n)
      ensures mm != 0 ==> forall a: nat :: Cell(mem, a) == if PageOf(a) in PageSpan(mm, n) then 0 else Cell(old(mem), a)
    {
      if mm != 0 {
        mapped := mapped + PageSpan(mm, n);
        mem := map a | a in mem && PageOf(a) !in PageSpan(mm, n) :: mem[a];
      }
    }

    method FreePage(p: nat, n: nat)
      requires PageSpan(p, n) <= mapped
      modifies this`mapped
      ensures mapped == old(mapped) - PageSpan(p, n)
    {
      mapped := mapped - PageSpan(p, n);
    }

    method FreelistFree(p: nat, b: nat)
      requires PageAligned(p) && p in mapped && PageOf(b) == p && b % 8 == 0
      modifies this`mem
      ensures mem == Push(old(mem), p, b)
    {
      hide PageOf, PageAligned;
      SlabRuns.WordAligned(p);
      InPage(p, p + 8);
      InPage(p, p + 16);
      var first := Load(p + 8);
      Store(b, first);
      if first == 0 {
        Store(p + 16, b);
      }
      Store(p + 8, b);
    }

    method PageHeaderInit(k: nat, p: nat)
      requires k < NCACHES && PageAligned(p) && p in mapped
      requires forall a: nat :: PageOf(a) == p ==> Cell(mem, a) == 0
      modifies this`mem
      ensures HeaderAt(mem, p, Small(k, FreshList(p, k, Total(k))))
      ensures forall a: nat :: PageOf(a) != p ==> Cell(mem, a) == Cell(old(mem), a)
    {
      hide PageOf, PageAligned, Block, BlockSize, Total, IsBlock, Pack, AvailOf, MagicOf, TotalOf, FreshList, Linked,
           Carve, ListAt, Cell, FirstOffset;
      var bsize := BlockSize(k);
      var offset := FirstBlockOffset(k);
      NothingCarved(p, k);
      HeaderClear(k, p);
      ghost var i := 0;
      while offset < PGSIZE
        invariant i <= Total(k) && p + offset == Block(p, k, i)
        invariant Cell(mem, p) == k + 1 && ListAt(mem, p, FreshList(p, k, i))
        invariant Cell(mem, p + 24) == Pack(i, MAGIC, 0)
        invariant forall a: nat :: PageOf(a) != p ==> Cell(mem, a) == Cell(old(mem), a)
        decreases Total(k) - i
      {
        PageEnd(p, k, i);
        CarveStep(mem, p, k, i);
        CarveBlock(p, p + offset);
        offset := offset + bsize;
        i := i + 1;
      }
      PageEnd(p, k, i);
      FreshAbove(p, k, i);
      HeaderSeal(p, i, FreshList(p, k, i));
    }

    method HeaderClear(k: nat, p: nat)
      requires PageAligned(p) && p in mapped
      requires forall a: nat :: PageOf(a) == p ==> Cell(mem, a) == 0
      modifies this`mem
      ensures Cell(mem, p) == k + 1 && ListAt(mem, p, []) && Cell(mem, p + 24) == Pack(0, MAGIC, 0)
      ensures forall a: nat :: PageOf(a) != p ==> Cell(mem, a) == Cell(old(mem), a)
    {
      hide PageOf, PageAligned, Pack, AvailOf, MagicOf, TotalOf;
      InPage(p, p); InPage(p, p + 8); InPage(p, p + 16); InPage(p, p + 24);
      SlabRuns.WordAligned(p);
      Unpack(0, 0, 0);
      Unpack(0, MAGIC, 0);
      ZeroWord();
      Store(p, k + 1);
      var w := Load(p + 24);
      Store(p + 24, SetAvail(SetMagic(w, MAGIC), 0));
      Store(p + 8, 0);
      Store(p + 16, 0);
    }

    /** Records how many blocks were carved. */
    method HeaderSeal(p: nat, ghost n: nat, ghost s: seq<nat>)
      requires PageAligned(p) && p in mapped && n < U16 && ListAt(mem, p, s)
      requires Cell(mem, p + 24) == Pack(n, MAGIC, 0)
      requires forall c :: c in s ==> p + HEADER <= c
      modifies this`mem
      ensures Cell(mem, p) == Cell(old(mem), p) && ListAt(mem, p, s) && Cell(mem, p + 24) == Pack(n, MAGIC, n)
      ensures forall a: nat :: PageOf(a) != p ==> Cell(mem, a) == Cell(old(mem), a)
    {
      hide PageOf, PageAligned, Pack, AvailOf, MagicOf, TotalOf, Linked;
      InPage(p, p + 24);
      SlabRuns.WordAligned(p);
      Unpack(n, MAGIC, 0);
      var w := Load(p + 24);
      Store(p + 24, SetTotal(w, AvailOf(w)));
      LinkedFrame(old(mem), mem, s);
    }

    method CarveBlock(p: nat, b: nat)
      requires PageAligned(p) && p in mapped && PageOf(b) == p && b % 8 == 0
      modifies this`mem
      ensures mem == Carve(old(mem), p, b)
    {
      hide PageOf, PageAligned, Pack, AvailOf, MagicOf, TotalOf;
      SlabRuns.WordAligned(p);
      InPage(p, p + 24);
      Store(b, 0);
      FreelistFree(p, b);
      var w := Load(p + 24);
      Store(p + 24, SetAvail(w, AvailOf(w) + 1));
    }

    static method FirstBlockOffset(k: nat) returns (offset: nat)
      requires k < NCACHES
      ensures offset == FirstOffset(k) && HEADER <= offset
    {
      offset := 0;
      while offset < HEADER
        invariant offset == 0 || offset == FirstOffset(k) || (k == 0 && offset == 16)
        decreases 2 * HEADER - offset
      {
        offset := offset + BlockSize(k);
      }
    }

    // -------------------------------------------------------------- arenas

    /** Maps and carves a page for an arena that has neither a list nor an idle page. */
    method NewIdlePage(k: nat, mm: nat)
      requires Valid() && k < NCACHES && m.idle[k] == 0 && Fresh(m, mm, 1)
      modifies this
      ensures Valid() && m == MapPage(old(m), k, mm) && heads == old(heads)
      ensures Untouched(old(mem), mem, old(m), 0)
    {
      hide Partition, PageLists, ArenaList, Idle, Live, Pack, IsBlock, FreshList, Total, PageAligned, PageOf, Linked,
           HeaderAt;
      OnePage(mm);
      AllocPage(1, mm);
      PageHeaderInit(k, mm);
      idles := idles[k := mm];
      m := MapPage(m, k, mm);
      MapPageInv(old(m), k, mm);
      InOnePage(old(mem), mem, mm);
      MapRep(old(mem), mem, heads, old(m), m, mm);
    }

    /** Moves the idle page's whole list to the arena. */
    method SeizeIdle(k: nat)
      requires Valid() && k < NCACHES && m.idle[k] != 0 && m.arenas[k] == []
      modifies this
      ensures Valid() && m == Seize(old(m), k) && m.arenas[k] != []
      ensures Untouched(old(mem), mem, old(m), 0)
    {
      hide Rep, SeizeMem, PageOf, PageAligned, Untouched, Partition, PageLists, ArenaList, Live;
      SeizeInv(m, k);
      SeizeDone(mem, mapped, heads, idles, m, k);
      var first := TakeList(idles[k], heads[k]);
      heads := heads[k := first];
      idles := idles[k := 0];
      m := Seize(m, k);
    }

    method TakeList(p: nat, head: nat) returns (first: nat)
      requires PageAligned(p) && p in mapped
      requires InBlocks(p, Cell(mem, p + 16))
      modifies this`mem
      ensures mem == SeizeMem(old(mem), p, head) && first == Cell(old(mem), p + 8)
    {
      hide PageOf, PageAligned, Pack, AvailOf, MagicOf, TotalOf;
      InPage(p, p + 8); InPage(p, p + 16); InPage(p, p + 24);
      SlabRuns.WordAligned(p);
      var w := Load(p + 24);
      Store(p + 24, SetAvail(w, 0));
      var last := Load(p + 16);
      Store(last, head);
      first := Load(p + 8);
      Store(p + 8, 0);
      Store(p + 16, 0);
    }

    method ArenaAlloc(k: nat, ghost size: nat, mm: nat) returns (b: nat)
      requires Valid() && k < NCACHES && size <= BlockSize(k) && Mmap(m, 1, mm)
      modifies this
      ensures Valid() && (m, b) == AllocSmall(old(m), k, size, mm)
      ensures Untouched(old(mem), mem, old(m), 0)
    {
      hide Partition, PageLists, ArenaList, Idle, Live, RepRegions, PagesOf, BlockSize, Linked;
      HeadZero(m, heads, mem, k);
      ghost var m0, mem0 := m, mem;
      if heads[k] == 0 {
        if idles[k] == 0 {
          if mm == 0 { return 0; }
          NewIdlePage(k, mm);
          MapPageKeeps(m0, k, mm);
        }
        ghost var m1, mem1 := m, mem;
        SeizeIdle(k);
        UntouchedTrans(mem0, mem1, mem, m0, m1, 0);
      }
      assert m == Refill(m0, k, mm);
      PopRep(mem, mapped, heads, idles, m, k, size);
      PopInv(m, k, size);
      b := heads[k];
      var next := Load(b);
      heads := heads[k := next];
      m := Pop(m, k, size);
    }

    // -------------------------------------------------------------- entry points

    method Malloc(size: nat, mm: nat) returns (b: nat)
      requires Valid() && Mmap(m, MallocPages(size), mm)
      requires size + HEADER + PGSIZE - 1 < 0x1_0000_0000_0000_0000
      modifies this
      ensures Valid() && (m, b) == SlabModel.Malloc(old(m), size, mm)
      ensures Untouched(old(mem), mem, old(m), 0)
    {
      hide Partition, PageLists, ArenaList, Idle, Live, RepRegions, RepArenas, PagesOf, BlockSize, AllocSmall;
      if size > SMALL_MAX {
        var pages := (size + HEADER + PGSIZE - 1) / PGSIZE;
        if mm == 0 { return 0; }
        NewRegion(Large(pages), mm, mm + HEADER, size);
        return mm + HEADER;
      }
      var k := ArenaIndex(size);
      b := ArenaAlloc(k, size, mm);
    }

    static method ArenaIndex(size: nat) returns (k: nat)
      requires size <= SMALL_MAX
      ensures k < NCACHES && k == ArenaFor(size)
    {
      k := 0;
      while BlockSize(k) < size
        invariant k < NCACHES && forall j: nat :: j < k ==> BlockSize(j) < size
        invariant ArenaFrom(size, k) == ArenaFor(size)
        decreases NCACHES - k
      {
        LastArena(k, size);
        k := k + 1;
      }
    }

    /** Maps a region of its own for one pointer and writes the header of a large allocation. */
    method NewRegion(r: Region, p: nat, ghost b: nat, ghost size: nat)
      requires Valid() && !r.Small? && Fresh(m, p, r.pages) && Held(p, r, b, size)
      modifies this
      ensures Valid() && m == MapRegion(old(m), p, r, b, size)
      ensures Untouched(old(mem), mem, old(m), 0)
    {
      hide Partition, PageLists, ArenaList, Idle, Live, RepRegions, RepArenas, PagesOf, PageOf, Pack, MagicOf,
           AvailOf, TotalOf, PageSpan, Held;
      AllocPage(r.pages, p);
      FreshSpan(old(mem), mem, p, r.pages);
      if r.Large? {
        LargeHeader(p, r.pages);
      }
      MapRegionInv(m, p, r, b, size);
      m := MapRegion(m, p, r, b, size);
      MapRep(old(mem), mem, heads, old(m), m, p);
    }

    method LargeHeader(p: nat, pages: nat)
      requires PageAligned(p) && p in mapped && Cell(mem, p + 24) == 0
      modifies this`mem
      ensures HeaderAt(mem, p, Large(pages)) && OnlyHeader(old(mem), mem, p, p)
    {
      hide PageOf, PageAligned, Pack, AvailOf, MagicOf, TotalOf;
      InPage(p, p); InPage(p, p + 8); InPage(p, p + 24);
      SlabRuns.WordAligned(p);
      ZeroWord();
      Unpack(0, 0, 0);
      Unpack(0, MAGIC, 0);
      Store(p, 0);
      Store(p + 8, pages * PGSIZE);
      var w := Load(p + 24);
      Store(p + 24, SetMagic(w, MAGIC));
    }

    method CppAlloc(size: nat, mm: nat) returns (b: nat)
      requires Valid() && Mmap(m, if size > SMALL_MAX then RawPages(size) else 1, mm)
      requires size + HEADER + PGSIZE - 1 < 0x1_0000_0000_0000_0000
      modifies this
      ensures Valid() && (m, b) == SlabModel.CppAlloc(old(m), size, mm)
      ensures Untouched(old(mem), mem, old(m), 0)
    {
      hide Partition, PageLists, ArenaList, Idle, Live, RepRegions, RepArenas, PagesOf, BlockSize, AllocSmall;
      if size > SMALL_MAX {
        var pages := (size + PGSIZE - 1) / PGSIZE;
        if mm == 0 { return 0; }
        NewRegion(Raw(pages), mm, mm, size);
        return mm;
      }
      b := Malloc(size, mm);
    }

    method Free(pt: nat)
      requires Valid() && (pt == 0 || Freeable(m, pt))
      modifies this
      ensures Valid() && m == SlabModel.Free(old(m), pt)
      ensures Untouched(old(mem), mem, old(m), pt)
    {
      if pt == 0 { return; }
      var p := pt - pt % PGSIZE;
      hide Partition, PageLists, ArenaList, Idle, Live, RepArenas, PagesOf, PageOf, Pack, Total, BlockSize, IsBlock,
           Return, Linked;
      HeaderReadable(mem, mapped, heads, idles, m, pt);
      InPage(p, p); InPage(p, p + 8); InPage(p, p + 24);
      SlabRuns.WordAligned(p);
      var w := Load(p + 24);
      assert MagicOf(w) == MAGIC;  // otherwise the program aborts
      var are := Load(p);
      if are == 0 {
        var size := Load(p + 8);
        FreeRegion(p, size / PGSIZE, pt);
      } else {
        FreeSmall(p, pt);
      }
    }

    method FreeRegion(p: nat, n: nat, ghost b: nat)
      requires Valid() && b in m.live && p == PageOf(b) && p in m.regions
      requires !m.regions[p].Small? && n == m.regions[p].pages
      modifies this
      ensures Valid() && m == UnmapRegion(old(m), b) && mem == old(mem)
    {
      hide Partition, PageLists, ArenaList, Idle, Live, PageOf, Pack, Total, PagesOf, PageSpan;
      RegionMapped(m, mapped, p);
      FreePage(p, n);
      UnmapRegionInv(m, b);
      PagesRemove(m, p);
      m := UnmapRegion(m, b);
    }

    method FreeSmall(p: nat, b: nat)
      requires Valid() && b in m.live && p == PageOf(b) && p in m.regions && m.regions[p].Small?
      modifies this
      ensures Valid() && m == Return(old(m), b)
      ensures Untouched(old(mem), mem, old(m), b)
    {
      hide Partition, PageLists, ArenaList, Idle, Live, PageOf, HeaderAt, PagesOf, PageSpan, RepRegions, RepArenas,
           Total;
      ReturnInv(m, b);
      ReturnRep(mem, heads, m, b);
      RegionMapped(m, mapped, p);
      ghost var k, whole := m.regions[p].k, Whole(m, b);
      if whole && idles[k] != 0 {
        ReturnUnmaps(mem, mapped, heads, idles, m, b);
      } else {
        ReturnStays(mem, mapped, heads, idles, m, b);
      }
      ghost var m' := Return(m, b);
      assert m'.idle == if whole && idles[k] == 0 then idles[k := p] else idles;
      hide Inv, Rep, RepArenas, HeaderAt, ReturnMem, PageOf, PageAligned, Untouched, PageSpan, AvailOf, TotalOf,
           Return, Whole;
      ReturnBlock(p, b, k, whole);
      m := m';
    }

    /** Counts and links the block; a page that is whole again goes to `ArenaAddIdle`. */
    method ReturnBlock(p: nat, b: nat, ghost k: nat, ghost whole: bool)
      requires PageAligned(p) && p in mapped && PageOf(b) == p && b % 8 == 0
      requires k < |idles| && PageSpan(p, 1) <= mapped
      requires Cell(ReturnMem(mem, p, b), p) == k + 1
      requires var w := Cell(ReturnMem(mem, p, b), p + 24); whole <==> AvailOf(w) == TotalOf(w)
      modifies this`mem, this`idles, this`mapped
      ensures mem == ReturnMem(old(mem), p, b)
      ensures mapped == if whole && old(idles[k]) != 0 then old(mapped) - PageSpan(p, 1) else old(mapped)
      ensures idles == if whole && old(idles[k]) == 0 then old(idles)[k := p] else old(idles)
    {
      hide ReturnMem, PageOf, PageAligned, PageSpan, AvailOf, TotalOf;
      InPage(p, p); InPage(p, p + 24);
      SlabRuns.WordAligned(p);
      CountBlock(p, b);
      var w := Load(p + 24);
      if AvailOf(w) == TotalOf(w) {
        var are := Load(p);
        ArenaAddIdle(are - 1, p);
      }
    }

    method ArenaAddIdle(k: nat, p: nat)
      requires k < |idles| && PageSpan(p, 1) <= mapped
      modifies this`idles, this`mapped
      ensures mapped == if old(idles[k]) != 0 then old(mapped) - PageSpan(p, 1) else old(mapped)
      ensures idles == if old(idles[k]) == 0 then old(idles)[k := p] else old(idles)
    {
      if idles[k] != 0 {
        FreePage(p, 1);
      } else {
        idles := idles[k := p];
      }
    }

    method CountBlock(p: nat, b: nat)
      requires PageAligned(p) && p in mapped && PageOf(b) == p && b % 8 == 0
      modifies this`mem
      ensures mem == ReturnMem(old(mem), p, b)
    {
      hide PageOf, PageAligned, Pack, AvailOf, MagicOf, TotalOf;
      InPage(p, p + 24);
      SlabRuns.WordAligned(p);
      var w := Load(p + 24);
      Store(p + 24, SetAvail(w, AvailOf(w) + 1));
      FreelistFree(p, b);
    }

    method CppFree(pt: nat, size: nat)
      requires Valid() && (pt == 0 || CppFreeable(m, pt, size))
      modifies this
      ensures Valid() && m == SlabModel.CppFree(old(m), pt, size)
      ensures Untouched(old(mem), mem, old(m), pt)
    {
      hide Partition, PageLists, ArenaList, Idle, RepRegions, RepArenas, PagesOf, PageOf, Return;
      if size > SMALL_MAX {
        if pt != 0 {
          assert HeldIn(m, pt);
          FreeRegion(pt, (size + PGSIZE - 1) / PGSIZE, pt);
        }
      } else {
        Free(pt);
      }
    }

    /** Word by word, as every size copied is a multiple of 8. */
    method MemCopy(dst: nat, src: nat, n: nat)
      requires dst % 8 == 0 && src % 8 == 0 && (dst + 8 * n <= src || src + 8 * n <= dst)
      requires forall a: nat :: dst <= a < dst + 8 * n || src <= a < src + 8 * n ==> PageOf(a) in mapped
      modifies this`mem
      ensures forall i: nat :: i < n ==> Cell(mem, dst + 8 * i) == Cell(old(mem), src + 8 * i)
      ensures forall a: nat :: !(dst <= a < dst + 8 * n) ==> Cell(mem, a) == Cell(old(mem), a)
    {
      hide PageOf;
      for i := 0 to n
        invariant forall j: nat :: j < i ==> Cell(mem, dst + 8 * j) == Cell(old(mem), src + 8 * j)
        invariant forall a: nat :: !(dst <= a < dst + 8 * n) ==> Cell(mem, a) == Cell(old(mem), a)
      {
        Eights(src + 8 * i, src / 8 + i);
        Eights(dst + 8 * i, dst / 8 + i);
        var v := Load(src + 8 * i);
        Store(dst + 8 * i, v);
      }
    }

    method Realloc(pt: nat, size: nat, mm: nat) returns (b: nat)
      requires Valid() && (pt == 0 || Freeable(m, pt)) && Mmap(m, MallocPages(size), mm)
      requires size + HEADER + PGSIZE - 1 < 0x1_0000_0000_0000_0000
      modifies this
      ensures Valid() && (m, b) == SlabModel.Realloc(old(m), pt, size, mm)
      ensures Untouched(old(mem), mem, old(m), pt)
      ensures b == pt || b == 0 ==> pt != 0 ==> SameBytes(old(mem), mem, pt, Capacity(old(m), pt))
      ensures b != 0 && pt != 0 ==> forall i: nat :: 8 * i < Capacity(old(m), pt) ==>
                Cell(mem, b + 8 * i) == Cell(old(mem), pt + 8 * i)
    {
      hide Inv, Rep, PageOf, Capacity, SlabModel.Free, SlabModel.Malloc, Freeable, Mmap;
      if pt == 0 { b := Malloc(size, mm); return; }
      var cap := UsableSize(pt);
      if size <= cap {
        ResizeInv(m, pt, size);
        RepLive(mem, mapped, heads, idles, m, Resize(m, pt, size));
        m := Resize(m, pt, size);
        return pt;
      }
      b := Move(pt, size, cap, mm);
    }

    /** What the header says about how many bytes the caller may use. */
    method UsableSize(pt: nat) returns (cap: nat)
      requires Valid() && Freeable(m, pt)
      ensures cap == Capacity(m, pt)
    {
      var p := pt - pt % PGSIZE;
      assert p == PageOf(pt);
      HeaderReadable(mem, mapped, heads, idles, m, pt);
      hide Inv, Rep, PageOf, PageAligned, BlockSize, Capacity;
      InPage(p, p); InPage(p, p + 8);
      SlabRuns.WordAligned(p);
      var are := Load(p);
      if are == 0 {
        var alloc := Load(p + 8);
        cap := alloc - HEADER;
      } else {
        cap := BlockSize(are - 1);
      }
    }

    /** Allocates, copies the whole old capacity and frees. */
    method Move(pt: nat, size: nat, cap: nat, mm: nat) returns (b: nat)
      requires Valid() && Freeable(m, pt) && Mmap(m, MallocPages(size), mm)
      requires cap == Capacity(m, pt) < size
      requires size + HEADER + PGSIZE - 1 < 0x1_0000_0000_0000_0000
      modifies this
      ensures Valid() && (m, b) == SlabModel.Realloc(old(m), pt, size, mm)
      ensures Untouched(old(mem), mem, old(m), pt)
      ensures b != pt && (b == 0 ==> SameBytes(old(mem), mem, pt, cap))
      ensures b != 0 ==> forall i: nat :: 8 * i < cap ==> Cell(mem, b + 8 * i) == Cell(old(mem), pt + 8 * i)
    {
      hide Partition, PageLists, ArenaList, Idle, Live, RepRegions, RepArenas, PagesOf, PageOf, SlabModel.Malloc,
           SlabModel.Free, Capacity, MallocPages, Mmap;
      ghost var m0, mem0 := m, mem;
      MallocLive(m0, size, mm);
      SlabRuns.NoNull(m0);
      SlabRuns.LiveInside(m0, pt);
      b := Malloc(size, mm);
      ghost var m1, mem1 := m, mem;
      assert SameBytes(mem0, mem1, pt, Capacity(m0, pt));
      if b == 0 { return; }
      KeepsCapacity(m0, m1, pt);
      SlabRuns.LiveInside(m1, b);
      SlabRuns.LiveDisjoint(m1, pt, b);
      LiveMapped(m1, mapped, pt);
      LiveMapped(m1, mapped, b);
      MemCopy(b, pt, cap / 8);
      WriteRep(mem1, mem, heads, m1, b, cap);
      ghost var mem2 := mem;
      Free(pt);
      assert SameBytes(mem2, mem, b, Capacity(m1, b));
      MoveUntouched(mem0, mem1, mem2, mem, m0, m1, pt, b);
    }

    // -------------------------------------------------------------- whole runs

    /** One operation: it refines the abstract one. The allocator changes no byte of any pointer but
        its own, a caller's write only the word it names. */
    method Do(op: SlabRuns.Op)
      requires Valid() && SlabRuns.Legal(m, op) && InRange(op)
      modifies this
      ensures Valid() && m == SlabRuns.Apply(old(m), op)
      ensures if op.DoWrite? then mem == old(mem)[op.b + op.at := op.value]
              else Untouched(old(mem), mem, old(m), SlabRuns.Target(op))
    {
      hide Inv, Rep, Untouched, Mmap, Freeable, CppFreeable, MallocPages, RawPages, Capacity;
      hide SlabModel.Malloc, SlabModel.Free, SlabModel.Realloc, SlabModel.CppAlloc, SlabModel.CppFree;
      match op {
        case DoMalloc(size, mm) => var _ := Malloc(size, mm);
        case DoFree(b) => Free(b);
        case DoRealloc(b, size, mm) => var _ := Realloc(b, size, mm);
        case DoCppAlloc(size, mm) => var _ := CppAlloc(size, mm);
        case DoCppFree(b, size) => CppFree(b, size);
        case DoWrite(b, at, value) => CallerWrite(b, at, value);
      }
    }

    method CallerWrite(b: nat, at: nat, value: nat)
      requires Valid() && b in m.live && at % 8 == 0 && at + 8 <= Capacity(m, b)
      modifies this`mem
      ensures Valid() && mem == old(mem)[b + at := value]
    {
      hide Inv, PageOf, Capacity;
      SlabRuns.LiveInside(m, b);
      LiveMapped(m, mapped, b);
      Eights(b + at, b / 8 + at / 8);
      Store(b + at, value);
      WriteRep(old(mem), mem, heads, m, b, Capacity(m, b));
    }

    /** Any run, from any point on: the memory represents the abstract state, and every pointer that no
        operation of the run gives up is still held with the same capacity. Each word behind it is
        what its holder last wrote there, or as it was. */
    method Run(ops: seq<SlabRuns.Op>, ghost before: seq<SlabRuns.Op>)
      requires Valid() && SlabRuns.LegalRun(before) && m == SlabRuns.After(before) && SlabRuns.LegalRun(before + ops)
      requires forall i :: 0 <= i < |ops| ==> InRange(ops[i])
      modifies this
      ensures Valid() && m == SlabRuns.After(before + ops)
      ensures forall c :: c in old(m).live && (forall i :: 0 <= i < |ops| ==> SlabRuns.Target(ops[i]) != c) ==>
                Kept(old(mem), mem, old(m), m, c, ops)
    {
      hide Inv, Rep, Kept, SlabRuns.After, SlabRuns.LegalRun, SlabRuns.Target, InRange;
      ghost var m0, mem0 := m, mem;
      assert before + ops[..0] == before;
      forall c | c in m0.live ensures Kept(mem0, mem, m0, m, c, ops[..0]) { KeptSame(mem, m, c); }
      for i := 0 to |ops|
        invariant Valid() && SlabRuns.LegalRun(before + ops[..i]) && m == SlabRuns.After(before + ops[..i])
        invariant forall c :: c in m0.live && (forall j :: 0 <= j < i ==> SlabRuns.Target(ops[j]) != c) ==>
                    Kept(mem0, mem, m0, m, c, ops[..i])
      {
        ghost var m1, mem1 := m, mem;
        NextLegal(before, ops, i);
        Do(ops[i]);
        assert ops[..i + 1] == ops[..i] + [ops[i]];
        forall c | c in m0.live && (forall j :: 0 <= j < i + 1 ==> SlabRuns.Target(ops[j]) != c)
          ensures Kept(mem0, mem, m0, m, c, ops[..i + 1])
        {
          assert Kept(mem0, mem1, m0, m1, c, ops[..i]) && SlabRuns.Target(ops[i]) != c;
          KeptStep(mem0, mem1, mem, m0, m1, ops[..i], ops[i], c);
        }
      }
      assert ops[..|ops|] == ops;
    }
  }

  /** Sizes for which the page count does not wrap around 64 bits. */
  predicate InRange(op: SlabRuns.Op) {
    op.DoMalloc? || op.DoRealloc? || op.DoCppAlloc? ==> op.size + HEADER + PGSIZE - 1 < 0x1_0000_0000_0000_0000
  }

  /** What word `a` holds after the caller's writes among `ops`, if it held `x` before. */
  function Written(ops: seq<SlabRuns.Op>, a: nat, x: nat): nat {
    if ops == [] then x
    else
      var op := ops[|ops| - 1];
      if op.DoWrite? && op.b + op.at == a then op.value else Written(ops[..|ops| - 1], a, x)
  }

  /** `c` is held as before, and its words hold what the callers wrote. */
  ghost predicate Kept(mem0: Memory, mem1: Memory, m0: Model, m1: Model, c: nat, ops: seq<SlabRuns.Op>)
    requires Inv(m0) && Inv(m1)
  {
    && c in m0.live && c in m1.live && Capacity(m1, c) == Capacity(m0, c)
    && forall a: nat :: c <= a < c + Capacity(m0, c) ==> Cell(mem1, a) == Written(ops, a, Cell(mem0, a))
  }

  lemma KeptSame(mem: Memory, m: Model, c: nat)
    requires Inv(m) && c in m.live
    ensures Kept(mem, mem, m, m, c, [])
  {
  }

  lemma KeptStep(mem0: Memory, mem1: Memory, mem2: Memory, m0: Model, m1: Model, ops: seq<SlabRuns.Op>,
                 op: SlabRuns.Op, c: nat)
    requires Inv(m0) && Inv(m1) && SlabRuns.Legal(m1, op) && c != SlabRuns.Target(op)
             && Kept(mem0, mem1, m0, m1, c, ops)
    requires if op.DoWrite? then mem2 == mem1[op.b + op.at := op.value]
             else Untouched(mem1, mem2, m1, SlabRuns.Target(op))
    ensures Kept(mem0, mem2, m0, SlabRuns.Apply(m1, op), c, ops + [op])
  {
    hide Inv, Capacity, SlabRuns.Apply, SlabRuns.Legal, SlabRuns.Target;
    SlabRuns.HeldKept(m1, op, c);
    assert (ops + [op])[..|ops|] == ops;
    if !op.DoWrite? { assert SameBytes(mem1, mem2, c, Capacity(m1, c)); }
  }

  lemma NextLegal(before: seq<SlabRuns.Op>, ops: seq<SlabRuns.Op>, i: nat)
    requires i < |ops| && SlabRuns.LegalRun(before + ops) && SlabRuns.LegalRun(before + ops[..i])
    ensures SlabRuns.Legal(SlabRuns.After(before + ops[..i]), ops[i])
    ensures SlabRuns.LegalRun(before + ops[..i + 1])
    ensures SlabRuns.After(before + ops[..i + 1]) == SlabRuns.Apply(SlabRuns.After(before + ops[..i]), ops[i])
  {
    hide SlabRuns.Legal, SlabRuns.Apply, Inv;
    var all, n := before + ops, |before| + i;
    SlabRuns.LegalPrefix(all, n + 1);
    assert all[..n + 1] == before + ops[..i + 1];
    var run := before + ops[..i + 1];
    assert run[..n] == before + ops[..i] && run[n] == ops[i] && |run| == n + 1;
  }
}
