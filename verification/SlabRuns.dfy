/** What holds in every run of the allocator. */
module SlabRuns {
  import opened SlabModel

  datatype Op =
    | DoMalloc(size: nat, mm: nat)
    | DoFree(b: nat)
    | DoRealloc(b: nat, size: nat, mm: nat)
    | DoCppAlloc(size: nat, mm: nat)
    | DoCppFree(b: nat, size: nat)
    | DoWrite(b: nat, at: nat, value: nat)  // the caller stores a word behind a pointer it holds

  const Empty := Model(map[], [[], [], [], [], [], [], []], [0, 0, 0, 0, 0, 0, 0], map[])

  /** What callers and the kernel promise: pointers are live and go back the way they came, callers
      write behind their own pointers only, new mappings are fresh. */
  ghost predicate Legal(m: Model, op: Op) {
    match op
    case DoMalloc(size, mm) => Mmap(m, MallocPages(size), mm)
    case DoFree(b) => b == 0 || Freeable(m, b)
    case DoRealloc(b, size, mm) => (b == 0 || Freeable(m, b)) && Mmap(m, MallocPages(size), mm)
    case DoCppAlloc(size, mm) => Mmap(m, if size > SMALL_MAX then RawPages(size) else 1, mm)
    case DoCppFree(b, size) => b == 0 || CppFreeable(m, b, size)
    case DoWrite(b, at, _) => Inv(m) && b in m.live && at % 8 == 0 && at + 8 <= Capacity(m, b)
  }

  ghost function Apply(m: Model, op: Op): (m': Model)
    requires Inv(m) && Legal(m, op)
    ensures Inv(m')
  {
    match op
    case DoMalloc(size, mm) => Malloc(m, size, mm).0
    case DoFree(b) => Free(m, b)
    case DoRealloc(b, size, mm) => Realloc(m, b, size, mm).0
    case DoCppAlloc(size, mm) => CppAlloc(m, size, mm).0
    case DoCppFree(b, size) => CppFree(m, b, size)
    case DoWrite(_, _, _) => m
  }

  ghost predicate LegalRun(ops: seq<Op>)
    decreases |ops|, 0
  {
    ops == [] || (var n := |ops| - 1; LegalRun(ops[..n]) && Legal(After(ops[..n]), ops[n]))
  }

  /** The state a run reaches; that the invariant survives every legal run is its contract. */
  ghost function After(ops: seq<Op>): (m: Model)
    requires LegalRun(ops)
    ensures Inv(m)
    decreases |ops|, 1
  {
    if ops == [] then EmptyInv(); Empty
    else var n := |ops| - 1; Apply(After(ops[..n]), ops[n])
  }

  lemma EmptyInv()
    ensures Inv(Empty)
  {
    forall p ensures Owned(Empty, p) {}
    forall k: nat | k < NCACHES ensures ArenaList(Empty, k) {}
  }

  // ---------------------------------------------------------------- where pointers lie

  lemma WordAligned(p: nat)
    requires PageAligned(p)
    ensures p % 8 == 0
  {
    Eights(p, 512 * (p / PGSIZE));
  }

  /** The bytes of a held pointer lie in its own region, behind the header if there is one. */
  lemma LiveInside(m: Model, b: nat)
    requires Inv(m) && b in m.live
    ensures PageOf(b) in m.regions && m.live[b] <= Capacity(m, b)
    ensures b + Capacity(m, b) <= PageOf(b) + Extent(m.regions[PageOf(b)])
    ensures !m.regions[PageOf(b)].Raw? ==> PageOf(b) + HEADER <= b
    ensures b % 8 == 0 && Capacity(m, b) % 8 == 0 && PageOf(b) <= b
  {
    hide Partition, PageLists, ArenaList, Idle, Apart, PageOf, PageAligned;
    assert HeldIn(m, b);
    var p := PageOf(b);
    match m.regions[p]
    case Small(k, _) =>
      BlockPage(p, k, b);
      BlockInside(p, k, b);
      Eights(BlockSize(k), BlockSize(k) / 8);
    case Large(n) =>
      WordAligned(p);
      Eights(Capacity(m, b), 512 * n - 4);
      Eights(b, p / 8 + 4);
    case Raw(n) =>
      WordAligned(p);
      Eights(Capacity(m, b), 512 * n);
  }

  /** Bytes of two held pointers never overlap. */
  lemma LiveDisjoint(m: Model, b: nat, c: nat)
    requires Inv(m) && b in m.live && c in m.live && b != c
    ensures b + Capacity(m, b) <= c || c + Capacity(m, c) <= b
  {
    hide Partition, PageLists, ArenaList, Idle, Capacity, PageOf, IsBlock, BlockSize;
    LiveInside(m, b);
    LiveInside(m, c);
    var p, q := PageOf(b), PageOf(c);
    if p != q {
      assert Apart(p, m.regions[p], q, m.regions[q]);
    } else {
      SamePageDisjoint(m, b, c);
    }
  }

  lemma SamePageDisjoint(m: Model, b: nat, c: nat)
    requires Inv(m) && b in m.live && c in m.live && b != c && PageOf(b) == PageOf(c)
    ensures b + Capacity(m, b) <= c || c + Capacity(m, c) <= b
  {
    hide Partition, PageLists, ArenaList, Idle, PageOf, IsBlock, BlockSize;
    assert HeldIn(m, b) && HeldIn(m, c);
    BlocksApart(PageOf(b), m.regions[PageOf(b)].k, b, c);
  }

  // ---------------------------------------------------------------- how much is retained

  ghost function ListPage(m: Model, k: nat): nat
    requires Geometry(m) && k < NCACHES
  {
    if m.arenas[k] == [] then 0 else PageOf(m.arenas[k][0])
  }

  /** The mapped pages of an arena. */
  function PagesOf(m: Model, k: nat): set<nat> { set p | p in m.regions && m.regions[p].Small? && m.regions[p].k == k }

  /** A mapped page none of whose blocks is held is its arena's idle page or the one page its
      arena's list was seized from. */
  lemma DeadPage(m: Model, p: nat)
    requires Inv(m) && p in m.regions && m.regions[p].Small?
    requires forall b :: b in m.live ==> PageOf(b) != p
    ensures p == m.idle[m.regions[p].k] || p == ListPage(m, m.regions[p].k)
  {
    hide IsBlock, Total, BlockSize, PageOf, PageAligned, Extent, Apart, Held;
    var k := m.regions[p].k;
    assert ArenaList(m, k);
    if p != ListPage(m, k) {
      forall b: nat | IsBlock(p, k, b) ensures b in m.regions[p].free {
        BlockPage(p, k, b);
        assert BlockOf(m, p, b) && OnePlace(m, p, b);
      }
      FullList(p, k, m.regions[p].free);
    }
  }

  lemma ElemsBound(s: seq<nat>)
    ensures |Elems(s)| <= |s|
  {
    if s != [] {
      ElemsBound(s[1..]);
      assert Elems(s) == Elems(s[1..]) + {s[0]};
    }
  }

  /** Once the caller has given everything back, at most two pages per arena stay mapped. */
  lemma Retained(m: Model)
    requires Inv(m) && m.live == map[]
    ensures forall p :: p in m.regions ==> m.regions[p].Small?
    ensures |m.regions| <= 2 * NCACHES
    ensures forall k: nat :: k < NCACHES ==> PagesOf(m, k) <= {m.idle[k], ListPage(m, k)}
  {
    hide PageOf, IsBlock, Total, BlockSize, PageAligned, Extent, Apart, Held, Partition, PageLists;
    var pages := seq(NCACHES, k requires 0 <= k < NCACHES => ListPage(m, k));
    forall p | p in m.regions ensures m.regions[p].Small? && p in Elems(m.idle) + Elems(pages) {
      assert Owned(m, p);
      DeadPage(m, p);
      assert pages[m.regions[p].k] == ListPage(m, m.regions[p].k);
    }
    ElemsBound(m.idle);
    ElemsBound(pages);
    Subset(m.regions.Keys, Elems(m.idle) + Elems(pages));
    forall k: nat, p | k < NCACHES && p in PagesOf(m, k)
      ensures p in {m.idle[k], ListPage(m, k)}
    {
      DeadPage(m, p);
    }
  }

  // ---------------------------------------------------------------- what a caller gets

  /** Freeing takes one pointer away and keeps all others, with their capacities. */
  lemma FreeLive(m: Model, b: nat, c: nat)
    requires Inv(m) && Freeable(m, b)
    ensures Free(m, b).live == m.live - {b}
    ensures c in m.live && c != b ==> Capacity(Free(m, b), c) == Capacity(m, c)
  {
    hide Inv, PageOf, Capacity, Total;
    NoNull(m);
    if c in m.live && c != b {
      HeldRegion(m, c);
      HeldRegion(Free(m, b), c);
      FreeShape(m, b, PageOf(c));
      ShapeCapacity(m, Free(m, b), c);
    }
  }

  lemma HeldRegion(m: Model, c: nat)
    requires Inv(m) && c in m.live
    ensures PageOf(c) in m.regions
  {
    hide PageOf, Partition, PageLists, ArenaList, Idle;
    assert HeldIn(m, c);
  }

  lemma FreeShape(m: Model, b: nat, q: nat)
    requires Inv(m) && Freeable(m, b) && b != 0 && q in Free(m, b).regions
    ensures q in m.regions && SameShape(m.regions[q], Free(m, b).regions[q])
  {
    hide Inv, PageOf, Total;
  }

  lemma ShapeCapacity(m: Model, m': Model, c: nat)
    requires Inv(m) && Inv(m') && c in m.live && c in m'.live && PageOf(c) in m.regions && PageOf(c) in m'.regions
    requires SameShape(m.regions[PageOf(c)], m'.regions[PageOf(c)])
    ensures Capacity(m', c) == Capacity(m, c)
  {
    hide Inv, PageOf;
  }

  /** `myrealloc` succeeds with room for `size`, or changes nothing at all. */
  lemma ReallocLive(m: Model, b: nat, size: nat, mm: nat)
    requires Inv(m) && (b == 0 || Freeable(m, b)) && Mmap(m, MallocPages(size), mm)
    ensures var (m', q) := Realloc(m, b, size, mm);
            if q == 0 then m' == m && mm == 0
            else
              && q in m'.live && m'.live[q] == size && size <= Capacity(m', q)
              && (q == b || q !in m.live)
              && m'.live == (m.live - {b})[q := size]
  {
    hide IsBlock, Total, BlockSize, PageOf, PageAligned, Partition, PageLists, ArenaList, Idle, Malloc, Free, Mmap,
         MallocPages, Geometry, Live;
    if b == 0 {
      MallocLive(m, size, mm);
      NoNull(m);
    } else if size <= Capacity(m, b) {
      ResizeInv(m, b, size);
    } else {
      MallocLive(m, size, mm);
      var (m1, q) := Malloc(m, size, mm);
      if q != 0 {
        MovedFreeable(m, m1, b);
        FreeLive(m1, b, q);
      }
    }
  }

  /** The pointer an operation gives up, 0 if none. */
  function Target(op: Op): nat {
    match op
    case DoFree(b) => b
    case DoRealloc(b, _, _) => b
    case DoCppFree(b, _) => b
    case _ => 0
  }

  /** Every other pointer stays held, with its capacity. */
  lemma HeldKept(m: Model, op: Op, c: nat)
    requires Inv(m) && Legal(m, op) && c in m.live && c != Target(op)
    ensures c in Apply(m, op).live && Capacity(Apply(m, op), c) == Capacity(m, c)
  {
    hide Malloc, Free, Mmap, Inv, Capacity, LargePages, RawPages, PageOf;
    match op
    case DoMalloc(size, mm) => MallocKept(m, size, mm, c);
    case DoFree(b) => if b != 0 { FreeLive(m, b, c); } else { FreeNothing(m); }
    case DoRealloc(b, size, mm) => ReallocKept(m, b, size, mm, c);
    case DoCppAlloc(size, mm) =>
      if size <= SMALL_MAX { MallocKept(m, size, mm, c); } else { RawKept(m, size, mm, c); }
    case DoCppFree(b, size) =>
      if b != 0 && size > SMALL_MAX { UnmapRegionInv(m, b); UnmapKept(m, b, c); } else if b != 0 { FreeLive(m, b, c); }
    case DoWrite(_, _, _) =>
  }

  lemma FreeNothing(m: Model)
    requires Inv(m)
    ensures Free(m, 0) == m
  {
  }

  lemma MallocKept(m: Model, size: nat, mm: nat, c: nat)
    requires Inv(m) && Mmap(m, MallocPages(size), mm) && c in m.live
    ensures c in Malloc(m, size, mm).0.live && Capacity(Malloc(m, size, mm).0, c) == Capacity(m, c)
  {
    hide Malloc, Mmap, MallocPages, Capacity, Inv;
    MallocLive(m, size, mm);
    var m' := Malloc(m, size, mm).0;
    if m' != m { KeepsCapacity(m, m', c); }
  }

  lemma ReallocKept(m: Model, b: nat, size: nat, mm: nat, c: nat)
    requires Inv(m) && (b == 0 || Freeable(m, b)) && Mmap(m, MallocPages(size), mm) && c in m.live && c != b
    ensures var m' := Realloc(m, b, size, mm).0; c in m'.live && Capacity(m', c) == Capacity(m, c)
  {
    hide Malloc, Free, Mmap, MallocPages, Inv, Capacity, PageOf;
    MallocKept(m, size, mm, c);
    if b != 0 && size <= Capacity(m, b) {
      ResizeInv(m, b, size);
      Resized(m, b, size, c);
    } else if b != 0 {
      MallocLive(m, size, mm);
      var (m1, q) := Malloc(m, size, mm);
      if q != 0 {
        MovedFreeable(m, m1, b);
        FreeLive(m1, b, c);
      }
    }
  }

  lemma Resized(m: Model, b: nat, size: nat, c: nat)
    requires Inv(m) && Inv(Resize(m, b, size)) && c in m.live && c != b
    ensures Capacity(Resize(m, b, size), c) == Capacity(m, c)
  {
    hide Inv, PageOf;
  }

  lemma RawKept(m: Model, size: nat, mm: nat, c: nat)
    requires Inv(m) && size > SMALL_MAX && Mmap(m, RawPages(size), mm) && c in m.live
    ensures var m' := CppAlloc(m, size, mm).0; c in m'.live && Capacity(m', c) == Capacity(m, c)
  {
    hide IsBlock, Total, BlockSize, PageOf, PageAligned, Partition, PageLists, ArenaList, Idle;
    if mm != 0 {
      FreshNew(m, mm, RawPages(size));
      MapRegionInv(m, mm, Raw(RawPages(size)), mm, size);
      KeepsCapacity(m, CppAlloc(m, size, mm).0, c);
    }
  }

  lemma UnmapKept(m: Model, b: nat, c: nat)
    requires Inv(m) && b in m.live && PageOf(b) in m.regions && !m.regions[PageOf(b)].Small? && c in m.live && c != b
    requires Inv(UnmapRegion(m, b))
    ensures c in UnmapRegion(m, b).live && Capacity(UnmapRegion(m, b), c) == Capacity(m, c)
  {
    hide IsBlock, Total, BlockSize, PageOf, PageAligned, Extent, Apart, Partition, PageLists, ArenaList, Idle;
    assert HeldIn(m, c) && HeldIn(UnmapRegion(m, b), c);
  }

  lemma {:induction false} LegalPrefix(ops: seq<Op>, n: nat)
    requires LegalRun(ops) && n <= |ops|
    ensures LegalRun(ops[..n])
    decreases |ops|
  {
    hide Legal, After;
    if n < |ops| {
      var k := |ops| - 1;
      LegalPrefix(ops[..k], n);
      assert ops[..k][..n] == ops[..n];
    } else {
      assert ops[..n] == ops;
    }
  }

  lemma MovedFreeable(m: Model, m1: Model, b: nat)
    requires Freeable(m, b) && Keeps(m, m1)
    ensures Freeable(m1, b)
  {
  }

  lemma NoNull(m: Model)
    requires Inv(m)
    ensures 0 !in m.live && m.live - {0} == m.live
  {
    hide Partition, PageLists, ArenaList, Idle, IsBlock;
    forall b | b in m.live ensures b != 0 { assert HeldIn(m, b); }
  }

  // ---------------------------------------------------------------- over whole runs

  /** In every legal run: held pointers lie inside mapped memory, are as large as asked for and
      disjoint; every block is in one place; an arena's list stays in one mapped page; a fully
      returned page is the arena's idle page; and with nothing held at most two pages per arena
      stay mapped. */
  lemma EveryRun(ops: seq<Op>)
    requires LegalRun(ops)
    ensures var m := After(ops);
      && (forall b :: b in m.live ==>
            PageOf(b) in m.regions && m.live[b] <= Capacity(m, b)
            && b + Capacity(m, b) <= PageOf(b) + Extent(m.regions[PageOf(b)])
            && (!m.regions[PageOf(b)].Raw? ==> PageOf(b) + HEADER <= b))
      && (forall b, c :: b in m.live && c in m.live && b != c ==>
            b + Capacity(m, b) <= c || c + Capacity(m, c) <= b)
      && (forall p, b :: BlockOf(m, p, b) ==> OnePlace(m, p, b))
      && (forall k: nat, b :: k < NCACHES && b in m.arenas[k] ==>
            PageOf(b) in m.regions && PageOf(b) == PageOf(m.arenas[k][0]))
      && (forall p :: p in m.regions && m.regions[p].Small? && |m.regions[p].free| == Total(m.regions[p].k) ==>
            m.idle[m.regions[p].k] == p)
      && (m.live == map[] ==>
            && |m.regions| <= 2 * NCACHES
            && forall k: nat :: k < NCACHES ==> PagesOf(m, k) <= {m.idle[k], ListPage(m, k)})
  {
    var m := After(ops);
    hide After, LegalRun, PageOf, Capacity, IsBlock, Extent, Geometry, Total;
    forall k: nat, b | k < NCACHES && b in m.arenas[k]
      ensures PageOf(b) in m.regions && PageOf(b) == PageOf(m.arenas[k][0])
    {
      assert ArenaList(m, k) && BlockOf(m, PageOf(b), b);
    }
    forall b | b in m.live
      ensures PageOf(b) in m.regions && m.live[b] <= Capacity(m, b)
              && b + Capacity(m, b) <= PageOf(b) + Extent(m.regions[PageOf(b)])
              && (!m.regions[PageOf(b)].Raw? ==> PageOf(b) + HEADER <= b)
    {
      LiveInside(m, b);
    }
    forall b, c | b in m.live && c in m.live && b != c
      ensures b + Capacity(m, b) <= c || c + Capacity(m, c) <= b
    {
      LiveDisjoint(m, b, c);
    }
    if m.live == map[] { Retained(m); }
  }
}
