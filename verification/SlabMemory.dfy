/** How allocator metadata sits in memory: 8-byte words at 8-aligned addresses.

    A page header is four words: arena (index + 1, 0 for none), first free block or allocation
    size, last free block, and the three 16-bit fields `avail`, `magic`, `total`. A free block
    keeps the address of the next one in its first word. */
module SlabMemory {
  import opened SlabModel
  import SlabRuns

  const MAGIC: nat := 0x55aa
  const U16: nat := 0x1_0000

  type Memory = map<nat, nat>

  function Cell(mem: Memory, a: nat): nat { if a in mem then mem[a] else 0 }

  // ---------------------------------------------------------------- packed 16-bit fields

  function Pack(avail: nat, magic: nat, total: nat): nat { avail + magic * U16 + total * (U16 * U16) }

  function AvailOf(w: nat): nat { w % U16 }

  function MagicOf(w: nat): nat { w / U16 % U16 }

  function TotalOf(w: nat): nat { w / (U16 * U16) % U16 }

  function SetAvail(w: nat, v: nat): nat { Pack(v % U16, MagicOf(w), TotalOf(w)) }

  function SetMagic(w: nat, v: nat): nat { Pack(AvailOf(w), v % U16, TotalOf(w)) }

  function SetTotal(w: nat, v: nat): nat { Pack(AvailOf(w), MagicOf(w), v % U16) }

  lemma Unpack(avail: nat, magic: nat, total: nat)
    requires avail < U16 && magic < U16 && total < U16
    ensures AvailOf(Pack(avail, magic, total)) == avail
    ensures MagicOf(Pack(avail, magic, total)) == magic
    ensures TotalOf(Pack(avail, magic, total)) == total
  {
  }

  lemma ZeroWord()
    ensures Pack(0, 0, 0) == 0
  {
  }

  // ---------------------------------------------------------------- lists in memory

  function Head(s: seq<nat>): nat { if s == [] then 0 else s[0] }

  function Tail(s: seq<nat>): nat { if s == [] then 0 else s[|s| - 1] }

  function NextIn(s: seq<nat>, i: nat): nat { if i + 1 < |s| then s[i + 1] else 0 }

  /** Following `next` from each element of `s` gives the element after it, and 0 at the end. */
  ghost predicate Linked(mem: Memory, s: seq<nat>) {
    forall i: nat :: i < |s| ==> Cell(mem, s[i]) == NextIn(s, i)
  }

  ghost predicate ListAt(mem: Memory, p: nat, s: seq<nat>) {
    Cell(mem, p + 8) == Head(s) && Cell(mem, p + 16) == Tail(s) && Linked(mem, s)
  }

  /** Memory after `freelist_free` links `b` in front of the list kept in the header at `p`. */
  function Push(mem: Memory, p: nat, b: nat): Memory {
    var first := Cell(mem, p + 8);
    var m1 := mem[b := first];
    var m2 := if first == 0 then m1[p + 16 := b] else m1;
    m2[p + 8 := b]
  }

  lemma PushList(mem: Memory, p: nat, b: nat, s: seq<nat>)
    requires ListAt(mem, p, s) && p + HEADER <= b && b !in s
    requires forall c :: c in s ==> p + HEADER <= c
    ensures ListAt(Push(mem, p, b), p, [b] + s)
  {
    var mem', t := Push(mem, p, b), [b] + s;
    assert s != [] ==> s[0] in s;
    assert forall c :: c in s ==> Cell(mem', c) == Cell(mem, c);
    LinkedFrame(mem, mem', s);
    assert Cell(mem', b) == Head(s);
    LinkedCons(mem', b, s);
  }

  lemma LinkedCons(mem: Memory, b: nat, s: seq<nat>)
    requires Linked(mem, s) && Cell(mem, b) == Head(s)
    ensures Linked(mem, [b] + s)
  {
  }

  lemma LinkedFrame(mem: Memory, mem': Memory, s: seq<nat>)
    requires Linked(mem, s) && forall b :: b in s ==> Cell(mem', b) == Cell(mem, b)
    ensures Linked(mem', s)
  {
  }

  // ---------------------------------------------------------------- representation

  ghost predicate HeaderAt(mem: Memory, p: nat, r: Region) {
    match r
    case Small(k, free) =>
      && k < NCACHES && Cell(mem, p) == k + 1 && ListAt(mem, p, free)
      && Cell(mem, p + 24) == Pack(|free|, MAGIC, Total(k))
    case Large(n) => Cell(mem, p) == 0 && Cell(mem, p + 8) == n * PGSIZE && MagicOf(Cell(mem, p + 24)) == MAGIC
    case Raw(_) => true
  }

  ghost predicate RepRegions(mem: Memory, m: Model) {
    forall p :: p in m.regions ==> HeaderAt(mem, p, m.regions[p])
  }

  ghost predicate RepArenas(mem: Memory, heads: seq<nat>, m: Model) {
    && |heads| == |m.arenas|
    && forall k :: 0 <= k < |heads| ==> heads[k] == Head(m.arenas[k]) && Linked(mem, m.arenas[k])
  }

  function PageSpan(p: nat, n: nat): set<nat> { set i | 0 <= i < n :: p + i * PGSIZE }

  /** The pages the kernel has mapped for us. */
  ghost function PagesOf(regions: map<nat, Region>): set<nat> {
    set p, a | p in regions && a in PageSpan(p, PagesIn(regions[p])) :: a
  }

  ghost predicate Rep(mem: Memory, mapped: set<nat>, heads: seq<nat>, idles: seq<nat>, m: Model) {
    && RepRegions(mem, m) && RepArenas(mem, heads, m) && idles == m.idle && mapped == PagesOf(m.regions)
  }

  ghost predicate SameBytes(mem: Memory, mem': Memory, b: nat, n: nat) {
    forall a :: b <= a < b + n ==> Cell(mem', a) == Cell(mem, a)
  }

  /** No word behind a held pointer other than `b` changed. */
  ghost predicate Untouched(mem: Memory, mem': Memory, m: Model, b: nat)
    requires Inv(m)
  {
    forall c :: c in m.live && c != b ==> SameBytes(mem, mem', c, Capacity(m, c))
  }

  // ---------------------------------------------------------------- framing

  lemma InPage(p: nat, a: nat)
    requires PageAligned(p) && p <= a < p + PGSIZE
    ensures PageOf(a) == p
  {
  }

  /** Word `a` is neither in a header, page `p`'s own aside, nor a link on a list. */
  ghost predicate Elsewhere(m: Model, p: nat, a: nat)
    requires Geometry(m)
  {
    && (forall q :: q in m.regions && q != p && !m.regions[q].Raw? ==> !(q <= a < q + HEADER))
    && (BlockOf(m, PageOf(a), a) ==> a in m.live)
  }

  /** Changing such words leaves all lists and all other headers as they were. */
  lemma RepFrame(mem: Memory, mem': Memory, heads: seq<nat>, m: Model, p: nat)
    requires Inv(m) && RepRegions(mem, m) && RepArenas(mem, heads, m)
    requires forall a: nat :: Cell(mem', a) != Cell(mem, a) ==> Elsewhere(m, p, a)
    ensures RepArenas(mem', heads, m)
    ensures forall q :: q in m.regions && q != p ==> HeaderAt(mem', q, m.regions[q])
  {
    hide PageOf, IsBlock, BlockSize, Idle, Live, Pack, PageAligned, Apart, Total, Linked;
    forall q | q in m.regions && q != p ensures HeaderAt(mem', q, m.regions[q]) {
      HeaderFrame(mem, mem', m, p, q);
    }
    forall k: nat | k < NCACHES ensures Linked(mem', m.arenas[k]) {
      forall b | b in m.arenas[k] ensures Cell(mem', b) == Cell(mem, b) {
        assert ArenaList(m, k) && BlockOf(m, PageOf(b), b) && OnePlace(m, PageOf(b), b);
      }
      assert heads[k] == Head(m.arenas[k]);
      LinkedFrame(mem, mem', m.arenas[k]);
    }
  }

  lemma HeaderFrame(mem: Memory, mem': Memory, m: Model, p: nat, q: nat)
    requires Inv(m) && RepRegions(mem, m) && q in m.regions && q != p
    requires forall a: nat :: Cell(mem', a) != Cell(mem, a) ==> Elsewhere(m, p, a)
    ensures HeaderAt(mem', q, m.regions[q])
  {
    hide PageOf, IsBlock, BlockSize, Idle, Live, ArenaList, Pack, PageAligned, Apart, Total, Linked, MagicOf;
    assert HeaderAt(mem, q, m.regions[q]);
    if m.regions[q].Small? {
      forall b | b in m.regions[q].free ensures Cell(mem', b) == Cell(mem, b) {
        assert BlockOf(m, q, b) && OnePlace(m, q, b);
        BlockPage(q, m.regions[q].k, b);
      }
      LinkedFrame(mem, mem', m.regions[q].free);
    }
  }

  lemma FreshElsewhere(m: Model, p: nat, n: nat, a: nat)
    requires Inv(m) && Fresh(m, p, n) && p <= a < p + n * PGSIZE
    ensures Elsewhere(m, p, a)
  {
    hide Partition, PageLists, ArenaList, Idle, Live, IsBlock;
    forall q | q in m.regions && q != p && !m.regions[q].Raw? ensures !(q <= a < q + HEADER) {
      assert Apart(p, Raw(n), q, m.regions[q]);
    }
    var q := PageOf(a);
    assert q in m.regions ==> Apart(p, Raw(n), q, m.regions[q]);
  }

  lemma HeaderElsewhere(m: Model, p: nat, a: nat)
    requires Inv(m) && p in m.regions && p <= a < p + HEADER
    ensures Elsewhere(m, p, a)
  {
    hide Partition, PageLists, ArenaList, Idle, Live, PageOf, IsBlock, PageAligned;
    forall q | q in m.regions && q != p && !m.regions[q].Raw? ensures !(q <= a < q + HEADER) {
      assert Apart(p, m.regions[p], q, m.regions[q]);
    }
    InPage(p, a);
    if BlockOf(m, p, a) { BlockPage(p, m.regions[p].k, a); }
  }

  lemma LiveElsewhere(m: Model, b: nat, a: nat)
    requires Inv(m) && b in m.live && b <= a < b + Capacity(m, b)
    ensures Elsewhere(m, 0, a)
  {
    hide Partition, PageLists, ArenaList, Idle, Live, PageOf, IsBlock, PageAligned, Capacity, BlockOf;
    LiveCell(m, b, a);
  }

  /** Metadata words are not behind any held pointer. */
  lemma LiveCell(m: Model, b: nat, a: nat)
    requires Inv(m) && b in m.live && b <= a < b + Capacity(m, b)
    ensures forall q :: q in m.regions && !m.regions[q].Raw? ==> !(q <= a < q + HEADER)
    ensures BlockOf(m, PageOf(a), a) ==> a == b
    ensures forall p: nat, n: nat :: Fresh(m, p, n) ==> !(p <= a < p + n * PGSIZE)
  {
    hide Partition, PageLists, ArenaList, Idle, PageOf, IsBlock, BlockSize, PageAligned, Capacity;
    SlabRuns.LiveInside(m, b);
    var p := PageOf(b);
    forall q | q in m.regions && !m.regions[q].Raw? ensures !(q <= a < q + HEADER) {
      if q != p { assert Apart(q, m.regions[q], p, m.regions[p]); }
    }
    if BlockOf(m, PageOf(a), a) { LiveBlock(m, b, a); }
  }

  lemma LiveBlock(m: Model, b: nat, a: nat)
    requires Inv(m) && b in m.live && b <= a < b + Capacity(m, b) && BlockOf(m, PageOf(a), a)
    ensures a == b
  {
    hide Partition, PageLists, ArenaList, Idle, PageOf, BlockSize, PageAligned, Capacity, Total, Held, IsBlock;
    SlabRuns.LiveInside(m, b);
    var p, q := PageOf(b), PageOf(a);
    BlockInside(q, m.regions[q].k, a);
    if q == p { LiveBlockSame(m, b, a); }
  }

  lemma LiveBlockSame(m: Model, b: nat, a: nat)
    requires Inv(m) && b in m.live && b <= a < b + Capacity(m, b)
    requires BlockOf(m, PageOf(a), a) && PageOf(a) == PageOf(b)
    ensures a == b
  {
    hide Partition, PageLists, ArenaList, Idle, PageOf, IsBlock, PageAligned, Total;
    assert HeldIn(m, b);
    BlocksApart(PageOf(b), m.regions[PageOf(b)].k, a, b);
  }

  /** Changes confined to headers, to blocks that are not held, to `b` itself or to fresh pages
      leave every other held pointer's bytes alone. */
  lemma Harmless(mem: Memory, mem': Memory, m: Model, b: nat)
    requires Inv(m)
    requires forall a: nat :: Cell(mem', a) != Cell(mem, a) ==>
      || (exists q :: q in m.regions && !m.regions[q].Raw? && q <= a < q + HEADER)
      || (BlockOf(m, PageOf(a), a) && (a == b || a !in m.live))
      || (exists p: nat, n: nat :: Fresh(m, p, n) && p <= a < p + n * PGSIZE)
    ensures Untouched(mem, mem', m, b)
  {
    hide PageOf, IsBlock, BlockSize, Capacity, Geometry, Partition, PageLists, ArenaList, Idle, Live, BlockOf, Fresh;
    forall c | c in m.live && c != b ensures SameBytes(mem, mem', c, Capacity(m, c)) {
      forall a | c <= a < c + Capacity(m, c) ensures Cell(mem', a) == Cell(mem, a) {
        LiveCell(m, c, a);
      }
    }
  }

  // ---------------------------------------------------------------- carving a page

  lemma PageEnd(p: nat, k: nat, i: nat)
    requires k < NCACHES && i <= Total(k)
    ensures Block(p, k, i) < p + PGSIZE <==> i < Total(k)
    ensures Block(p, k, i + 1) == Block(p, k, i) + BlockSize(k)
  {
  }

  lemma FreshAbove(p: nat, k: nat, i: nat)
    requires k < NCACHES
    ensures Block(p, k, i) !in FreshList(p, k, i)
    ensures forall c :: c in FreshList(p, k, i) ==> p + HEADER <= c
  {
    hide BlockSet, FreshList;
    FreshListIs(p, k, i);
    BlockSetIs(p, k, i);
  }

  lemma NothingCarved(p: nat, k: nat)
    requires k < NCACHES
    ensures FreshList(p, k, 0) == [] && p + FirstOffset(k) == Block(p, k, 0)
  {
  }

  /** Memory after one turn of the carving loop. */
  function Carve(mem: Memory, p: nat, b: nat): Memory {
    var mem1 := Push(mem[b := 0], p, b);
    var w := Cell(mem1, p + 24);
    mem1[p + 24 := SetAvail(w, AvailOf(w) + 1)]
  }

  lemma CarveCells(mem: Memory, p: nat, b: nat, i: nat)
    requires PageAligned(p) && PageOf(b) == p && p + HEADER <= b && i < 256
    requires Cell(mem, p + 24) == Pack(i, MAGIC, 0)
    ensures var mem' := Carve(mem, p, b);
            && Cell(mem', p) == Cell(mem, p) && Cell(mem', p + 24) == Pack(i + 1, MAGIC, 0)
            && forall a: nat :: PageOf(a) != p ==> Cell(mem', a) == Cell(mem, a)
  {
    hide PageAligned, Pack, AvailOf, MagicOf, TotalOf, PageOf;
    Unpack(i, MAGIC, 0);
    InPage(p, p + 8); InPage(p, p + 16); InPage(p, p + 24);
  }

  lemma CarveList(mem: Memory, p: nat, b: nat, s: seq<nat>)
    requires ListAt(mem, p, s) && p + HEADER <= b && b !in s
    requires forall c :: c in s ==> p + HEADER <= c
    ensures ListAt(Carve(mem, p, b), p, [b] + s)
  {
    hide Pack, AvailOf, MagicOf, TotalOf, Linked;
    LinkedFrame(mem, mem[b := 0], s);
    PushList(mem[b := 0], p, b, s);
    LinkedFrame(Push(mem[b := 0], p, b), Carve(mem, p, b), [b] + s);
  }

  /** It links block `i` in front of the earlier ones. */
  lemma CarveStep(mem: Memory, p: nat, k: nat, i: nat)
    requires k < NCACHES && PageAligned(p) && i < Total(k)
    requires Cell(mem, p) == k + 1 && ListAt(mem, p, FreshList(p, k, i))
    requires Cell(mem, p + 24) == Pack(i, MAGIC, 0)
    ensures PageOf(Block(p, k, i)) == p && Block(p, k, i) % 8 == 0
    ensures var mem' := Carve(mem, p, Block(p, k, i));
            && Cell(mem', p) == k + 1 && ListAt(mem', p, FreshList(p, k, i + 1))
            && Cell(mem', p + 24) == Pack(i + 1, MAGIC, 0)
            && forall a: nat :: PageOf(a) != p ==> Cell(mem', a) == Cell(mem, a)
  {
    var b, s := Block(p, k, i), FreshList(p, k, i);
    assert FreshList(p, k, i + 1) == [b] + s;
    hide PageAligned, IsBlock, Total, BlockSize, Block, Pack, PageOf, FreshList, ListAt, Carve;
    assert IsBlock(p, k, b);
    BlockPage(p, k, b);
    FreshAbove(p, k, i);
    CarveCells(mem, p, b, i);
    CarveList(mem, p, b, s);
  }

  // ---------------------------------------------------------------- mapped pages

  lemma PageMapped(regions: map<nat, Region>, p: nat, a: nat)
    requires p in regions && PageAligned(p) && p <= a < p + Extent(regions[p])
    ensures PageOf(a) in PagesOf(regions)
  {
    var i := (a - p) / PGSIZE;
    assert PageOf(a) == p + i * PGSIZE;
    assert i < PagesIn(regions[p]);
    assert PageOf(a) in PageSpan(p, PagesIn(regions[p]));
  }

  lemma PagesAdd(regions: map<nat, Region>, p: nat, r: Region)
    requires p !in regions
    ensures PagesOf(regions[p := r]) == PagesOf(regions) + PageSpan(p, PagesIn(r))
  {
    var bigger := regions[p := r];
    forall q, a | q in bigger && a in PageSpan(q, PagesIn(bigger[q]))
      ensures a in PagesOf(regions) + PageSpan(p, PagesIn(r)) {}
    forall q, a | q in regions && a in PageSpan(q, PagesIn(regions[q])) ensures a in PagesOf(bigger) {
      assert q in bigger && bigger[q] == regions[q];
    }
    forall a | a in PageSpan(p, PagesIn(r)) ensures a in PagesOf(bigger) {
      assert p in bigger && bigger[p] == r;
    }
  }

  lemma PagesRelist(regions: map<nat, Region>, p: nat, r: Region)
    requires p in regions && PagesIn(r) == PagesIn(regions[p])
    ensures PagesOf(regions[p := r]) == PagesOf(regions)
  {
    var other := regions[p := r];
    forall q, a | q in other && a in PageSpan(q, PagesIn(other[q])) ensures a in PagesOf(regions) {
      assert a in PageSpan(q, PagesIn(regions[q]));
    }
    forall q, a | q in regions && a in PageSpan(q, PagesIn(regions[q])) ensures a in PagesOf(other) {
      assert a in PageSpan(q, PagesIn(other[q]));
    }
  }

  lemma SpanBounds(p: nat, n: nat, a: nat)
    requires a in PageSpan(p, n)
    ensures p <= a && a + PGSIZE <= p + n * PGSIZE
  {
  }

  /** Unmapping one region takes exactly its pages away. */
  lemma PagesRemove(m: Model, p: nat)
    requires Geometry(m) && p in m.regions
    ensures PagesOf(m.regions - {p}) == PagesOf(m.regions) - PageSpan(p, PagesIn(m.regions[p]))
  {
    hide PageSpan, PageAligned;
    var rest := m.regions - {p};
    var gone := PageSpan(p, PagesIn(m.regions[p]));
    forall q, a | q in rest && a in PageSpan(q, PagesIn(rest[q])) ensures a in PagesOf(m.regions) - gone {
      assert a in PageSpan(q, PagesIn(m.regions[q]));
      SpanBounds(q, PagesIn(m.regions[q]), a);
      assert Apart(q, m.regions[q], p, m.regions[p]);
      if a in gone { SpanBounds(p, PagesIn(m.regions[p]), a); }
    }
    forall q, a | q in m.regions && a in PageSpan(q, PagesIn(m.regions[q])) && a !in gone
      ensures a in PagesOf(rest)
    {
      assert a in PageSpan(q, PagesIn(rest[q]));
    }
  }

  // ---------------------------------------------------------------- the steps keep the representation

  /** Only words of `n` fresh pages at `p` changed. */
  ghost predicate OnlyPages(mem: Memory, mem': Memory, p: nat, n: nat) {
    forall a: nat :: Cell(mem', a) != Cell(mem, a) ==> p <= a < p + n * PGSIZE
  }

  lemma MapRep(mem: Memory, mem': Memory, heads: seq<nat>, m: Model, m': Model, p: nat)
    requires Inv(m) && RepRegions(mem, m) && RepArenas(mem, heads, m)
    requires p in m'.regions && m'.regions == m.regions[p := m'.regions[p]] && m'.arenas == m.arenas
    requires Fresh(m, p, PagesIn(m'.regions[p])) && OnlyPages(mem, mem', p, PagesIn(m'.regions[p]))
    requires HeaderAt(mem', p, m'.regions[p])
    ensures RepRegions(mem', m') && RepArenas(mem', heads, m') && Untouched(mem, mem', m, 0)
    ensures PagesOf(m'.regions) == PagesOf(m.regions) + PageSpan(p, PagesIn(m'.regions[p]))
  {
    hide PageOf, IsBlock, Pack, PageAligned, Apart, Total, Linked, HeaderAt, Elsewhere, BlockOf, PageSpan, PagesOf,
         Partition, PageLists, ArenaList, Idle, Live;
    var n := PagesIn(m'.regions[p]);
    forall a: nat | Cell(mem', a) != Cell(mem, a) ensures Elsewhere(m, p, a) { FreshElsewhere(m, p, n, a); }
    RepFrame(mem, mem', heads, m, p);
    FreshNew(m, p, n);
    PagesAdd(m.regions, p, m'.regions[p]);
    Harmless(mem, mem', m, 0);
  }

  /** Only the header at `p` and word `b` changed. */
  ghost predicate OnlyHeader(mem: Memory, mem': Memory, p: nat, b: nat) {
    forall a: nat :: Cell(mem', a) != Cell(mem, a) ==> p <= a < p + HEADER || a == b
  }

  lemma RelistRep(mem: Memory, mem': Memory, heads: seq<nat>, m: Model, p: nat, b: nat)
    requires Inv(m) && RepRegions(mem, m) && RepArenas(mem, heads, m)
    requires p in m.regions && m.regions[p].Small? && OnlyHeader(mem, mem', p, b)
    requires b in m.live || b == p
    requires b in m.live ==> BlockOf(m, p, b) && PageOf(b) == p
    ensures RepArenas(mem', heads, m) && Untouched(mem, mem', m, b)
    ensures forall q :: q in m.regions && q != p ==> HeaderAt(mem', q, m.regions[q])
  {
    hide PageOf, IsBlock, Pack, PageAligned, Apart, Total, Linked, HeaderAt, BlockOf, PageSpan, PagesOf, Partition,
         PageLists, ArenaList, Idle, Live;
    forall a: nat | Cell(mem', a) != Cell(mem, a) ensures Elsewhere(m, p, a) {
      if p <= a < p + HEADER {
        HeaderElsewhere(m, p, a);
      } else {
        LiveElsewhere(m, b, b);
      }
    }
    RepFrame(mem, mem', heads, m, p);
    Harmless(mem, mem', m, b);
  }

  /** Memory after a block comes back: `avail` counts it and the page's list starts with it. */
  function ReturnMem(mem: Memory, p: nat, b: nat): Memory {
    var w := Cell(mem, p + 24);
    Push(mem[p + 24 := SetAvail(w, AvailOf(w) + 1)], p, b)
  }

  lemma ReturnHeader(mem: Memory, p: nat, k: nat, free: seq<nat>, b: nat)
    requires HeaderAt(mem, p, Small(k, free)) && |free| < Total(k)
    requires p + HEADER <= b && b !in free && forall c :: c in free ==> p + HEADER <= c
    ensures HeaderAt(ReturnMem(mem, p, b), p, Small(k, [b] + free))
    ensures OnlyHeader(mem, ReturnMem(mem, p, b), p, b)
    ensures var w := Cell(ReturnMem(mem, p, b), p + 24);
            AvailOf(w) == |free| + 1 && TotalOf(w) == Total(k) && MagicOf(w) == MAGIC
    ensures MagicOf(Cell(mem, p + 24)) == MAGIC
  {
    hide Pack, AvailOf, MagicOf, TotalOf, Total, Linked;
    Unpack(|free|, MAGIC, Total(k));
    Unpack(|free| + 1, MAGIC, Total(k));
    var w := Cell(mem, p + 24);
    var mem1 := mem[p + 24 := SetAvail(w, AvailOf(w) + 1)];
    LinkedFrame(mem, mem1, free);
    PushList(mem1, p, b, free);
  }

  lemma LiveMapped(m: Model, mapped: set<nat>, b: nat)
    requires Inv(m) && mapped == PagesOf(m.regions) && b in m.live
    ensures PageOf(b) in mapped
    ensures forall a: nat :: b <= a < b + Capacity(m, b) ==> PageOf(a) in mapped
  {
    hide Partition, PageLists, ArenaList, Idle, PageOf, Capacity, PageAligned, PagesOf;
    SlabRuns.LiveInside(m, b);
    var p := PageOf(b);
    InPage(p, p);
    PageMapped(m.regions, p, p);
    forall a: nat | b <= a < b + Capacity(m, b) ensures PageOf(a) in mapped { PageMapped(m.regions, p, a); }
  }

  lemma RegionMapped(m: Model, mapped: set<nat>, p: nat)
    requires Inv(m) && mapped == PagesOf(m.regions) && p in m.regions
    ensures p in mapped && PageSpan(p, PagesIn(m.regions[p])) <= mapped
  {
    hide Partition, PageLists, ArenaList, Idle, Live, PageSpan, PageOf, PageAligned;
    forall a | a in PageSpan(p, PagesIn(m.regions[p])) ensures a in mapped {}
    PageMapped(m.regions, p, p);
    InPage(p, p);
  }

  lemma OnePage(p: nat)
    ensures PageSpan(p, 1) == {p}
  {
    forall a ensures a in PageSpan(p, 1) <==> a == p {
      if a == p { assert a == p + 0 * PGSIZE; }
    }
  }

  lemma InOnePage(mem: Memory, mem': Memory, p: nat)
    requires forall a: nat :: PageOf(a) != p ==> Cell(mem', a) == Cell(mem, a)
    ensures OnlyPages(mem, mem', p, 1)
  {
  }

  /** Memory after the idle page at `p` gave its list away; `head` is the arena's old list. */
  function SeizeMem(mem: Memory, p: nat, head: nat): Memory {
    var mem1 := mem[p + 24 := SetAvail(Cell(mem, p + 24), 0)];
    mem1[Cell(mem1, p + 16) := head][p + 8 := 0][p + 16 := 0]
  }

  lemma SeizeRep(mem: Memory, heads: seq<nat>, m: Model, k: nat)
    requires Inv(m) && RepRegions(mem, m) && RepArenas(mem, heads, m)
    requires k < NCACHES && m.idle[k] != 0 && m.arenas[k] == []
    ensures var p := m.idle[k];
            var last, first, mem' := Cell(mem, p + 16), Cell(mem, p + 8), SeizeMem(mem, p, 0);
            && InBlocks(p, last)
            && RepArenas(mem', heads[k := first], Seize(m, k))
            && RepRegions(mem', Seize(m, k)) && Untouched(mem, mem', m, 0)
  {
    var p := m.idle[k];
    var s := m.regions[p].free;
    SeizeCells(mem, m, k);
    hide Inv, Pack, IsBlock, Total, PageOf, SeizeMem, Linked, InBlocks;
    RelistRep(mem, SeizeMem(mem, p, 0), heads, m, p, p);
    UntouchedWeaken(mem, SeizeMem(mem, p, 0), m, p);
  }

  /** A page address is a held pointer only for mappings without blocks. */
  lemma UntouchedWeaken(mem: Memory, mem': Memory, m: Model, p: nat)
    requires Inv(m) && Untouched(mem, mem', m, p) && p in m.regions && m.regions[p].Small?
    ensures Untouched(mem, mem', m, 0)
  {
    hide Capacity, SameBytes, Partition, PageLists, ArenaList, Idle, PageOf, IsBlock;
    if p in m.live {
      assert HeldIn(m, p);
      InPage(p, p);
      BlockPage(p, m.regions[p].k, p);
    }
  }

  /** A word of page `p` behind the header. */
  ghost predicate InBlocks(p: nat, a: nat) { PageOf(a) == p && a % 8 == 0 && p + HEADER <= a }

  lemma PageListWord(m: Model, p: nat, c: nat)
    requires Inv(m) && p in m.regions && m.regions[p].Small? && c in m.regions[p].free
    ensures InBlocks(p, c) && p + HEADER <= c
  {
    hide IsBlock, PageOf, PageAligned, Partition, ArenaList, Live, Idle, Apart;
    assert BlockOf(m, p, c);
    BlockPage(p, m.regions[p].k, c);
  }

  lemma ListAbove(m: Model, p: nat)
    requires Inv(m) && p in m.regions && m.regions[p].Small?
    ensures forall c :: c in m.regions[p].free ==> p + HEADER <= c
  {
    hide Inv;
    forall c | c in m.regions[p].free ensures p + HEADER <= c { PageListWord(m, p, c); }
  }

  lemma SeizeCells(mem: Memory, m: Model, k: nat)
    requires Inv(m) && RepRegions(mem, m) && k < NCACHES && m.idle[k] != 0
    ensures var p := m.idle[k];
            var last, mem' := Cell(mem, p + 16), SeizeMem(mem, p, 0);
            && InBlocks(p, last)
            && OnlyHeader(mem, mem', p, p) && Linked(mem', m.regions[p].free)
            && HeaderAt(mem', p, Small(k, []))
            && Cell(mem, p + 8) == Head(m.regions[p].free)
  {
    hide PageOf, RepRegions, Total, SeizeMem, Linked, OnlyHeader, HeaderAt, Head, Cell, InBlocks;
    hide Partition, PageLists, ArenaList, Live, Idle, Apart, PageAligned;
    IdleHeader(mem, m, k);
    var p := m.idle[k];
    var s := m.regions[p].free;
    ListAbove(m, p);
    SeizeHeader(mem, p, k, s);
    PageListWord(m, p, Cell(mem, p + 16));
  }

  lemma IdleHeader(mem: Memory, m: Model, k: nat)
    requires Inv(m) && RepRegions(mem, m) && k < NCACHES && m.idle[k] != 0
    ensures var p := m.idle[k];
            && p in m.regions && m.regions[p].Small? && |m.regions[p].free| == Total(k)
            && HeaderAt(mem, p, Small(k, m.regions[p].free)) && Cell(mem, p + 8) == Head(m.regions[p].free)
  {
    hide PageOf, Partition, ArenaList, Live, PageLists, Geometry, Total, Pack;
  }

  lemma SeizeHeader(mem: Memory, p: nat, k: nat, s: seq<nat>)
    requires HeaderAt(mem, p, Small(k, s)) && |s| == Total(k)
    requires forall c :: c in s ==> p + HEADER <= c
    ensures var mem' := SeizeMem(mem, p, 0);
            && s != [] && Cell(mem, p + 16) in s && OnlyHeader(mem, mem', p, p) && Linked(mem', s)
            && HeaderAt(mem', p, Small(k, []))
  {
    hide Pack, AvailOf, MagicOf, TotalOf, Total;
    var n := |s| - 1;
    assert Tail(s) == s[n] && s[n] in s && Cell(mem, s[n]) == NextIn(s, n);
    Unpack(|s|, MAGIC, Total(k));
    LinkedFrame(mem, SeizeMem(mem, p, 0), s);
  }

  lemma UntouchedTrans(mem0: Memory, mem1: Memory, mem2: Memory, m0: Model, m1: Model, b: nat)
    requires Inv(m0) && Inv(m1) && Keeps(m0, m1)
    requires Untouched(mem0, mem1, m0, b) && Untouched(mem1, mem2, m1, b)
    ensures Untouched(mem0, mem2, m0, b)
  {
    hide Inv;
    forall c | c in m0.live && c != b ensures SameBytes(mem0, mem2, c, Capacity(m0, c)) {
      KeepsCapacity(m0, m1, c);
      assert SameBytes(mem0, mem1, c, Capacity(m0, c)) && SameBytes(mem1, mem2, c, Capacity(m1, c));
    }
  }

  /** The first word of the first block is the rest of the list. */
  lemma PopRep(mem: Memory, mapped: set<nat>, heads: seq<nat>, idles: seq<nat>, m: Model, k: nat, size: nat)
    requires Inv(m) && Rep(mem, mapped, heads, idles, m) && k < NCACHES && m.arenas[k] != []
    ensures var b := heads[k];
            && b == m.arenas[k][0] && b % 8 == 0 && PageOf(b) in mapped
            && Rep(mem, mapped, heads[k := Cell(mem, b)], idles, Pop(m, k, size))
  {
    hide IsBlock, PageOf, PageAligned, Partition, PageLists, Idle, Live, Apart, HeaderAt, PagesOf;
    var s := m.arenas[k];
    assert ArenaList(m, k) && BlockOf(m, PageOf(s[0]), s[0]);
    BlockPage(PageOf(s[0]), k, s[0]);
    RegionMapped(m, mapped, PageOf(s[0]));
    assert Linked(mem, s) && Cell(mem, s[0]) == NextIn(s, 0);
    forall i: nat | i < |s[1..]| ensures Cell(mem, s[1..][i]) == NextIn(s[1..], i) {
      assert Cell(mem, s[i + 1]) == NextIn(s, i + 1);
    }
  }

  lemma HeadZero(m: Model, heads: seq<nat>, mem: Memory, k: nat)
    requires Inv(m) && RepArenas(mem, heads, m) && k < NCACHES
    ensures heads[k] == 0 <==> m.arenas[k] == []
  {
    hide IsBlock, PageOf, PageAligned, Partition, PageLists, Idle, Live, Apart;
    var s := m.arenas[k];
    if s != [] {
      assert ArenaList(m, k) && s[0] in s && BlockOf(m, PageOf(s[0]), s[0]);
      BlockPage(PageOf(s[0]), k, s[0]);
    }
  }

  lemma LastArena(k: nat, size: nat)
    requires k < NCACHES && BlockSize(k) < size <= SMALL_MAX
    ensures k + 1 < NCACHES
  {
  }

  lemma FreshSpan(mem: Memory, mem': Memory, p: nat, n: nat)
    requires PageAligned(p) && n > 0
    requires forall a: nat :: Cell(mem', a) == if PageOf(a) in PageSpan(p, n) then 0 else Cell(mem, a)
    ensures OnlyPages(mem, mem', p, n) && p in PageSpan(p, n) && Cell(mem', p + 24) == 0
  {
    hide PageSpan;
    assert p in PageSpan(p, n) by { SpanStart(p, n); }
    InPage(p, p + 24);
    forall a: nat | Cell(mem', a) != Cell(mem, a) ensures p <= a < p + n * PGSIZE {
      SpanBounds(p, n, PageOf(a));
    }
  }

  lemma SpanStart(p: nat, n: nat)
    requires n > 0
    ensures p in PageSpan(p, n)
  {
    assert p == p + 0 * PGSIZE;
  }

  /** The header of a pointer that may be freed is mapped and says what the pointer is. */
  lemma HeaderReadable(mem: Memory, mapped: set<nat>, heads: seq<nat>, idles: seq<nat>, m: Model, b: nat)
    requires Inv(m) && Rep(mem, mapped, heads, idles, m) && Freeable(m, b)
    ensures var p := PageOf(b);
            && PageAligned(p) && p in mapped && MagicOf(Cell(mem, p + 24)) == MAGIC
            && (Cell(mem, p) == 0 <==> m.regions[p].Large?)
            && (m.regions[p].Large? ==>
                  Cell(mem, p + 8) == m.regions[p].pages * PGSIZE && Capacity(m, b) == Cell(mem, p + 8) - HEADER
                  && Cell(mem, p + 8) / PGSIZE == m.regions[p].pages && HEADER <= Cell(mem, p + 8))
            && (m.regions[p].Small? ==>
                  Cell(mem, p) == m.regions[p].k + 1 && Capacity(m, b) == BlockSize(m.regions[p].k))
  {
    var p := PageOf(b);
    hide Partition, ArenaList, PageOf, Pack, Total, IsBlock, Linked, BlockSize;
    assert HeldIn(m, b) && HeaderAt(mem, p, m.regions[p]);
    RegionMapped(m, mapped, p);
    if m.regions[p].Small? {
      var k, s := m.regions[p].k, m.regions[p].free;
      ShortList(m, p);
      Unpack(|s|, MAGIC, Total(k));
    }
  }

  lemma ShortList(m: Model, p: nat)
    requires Inv(m) && p in m.regions && m.regions[p].Small?
    ensures |m.regions[p].free| <= Total(m.regions[p].k) < 256
  {
    hide Partition, ArenaList, PageOf, Total, IsBlock, Live, Idle, PageAligned, Apart;
    forall c | c in m.regions[p].free ensures IsBlock(p, m.regions[p].k, c) { assert BlockOf(m, p, c); }
    FullList(p, m.regions[p].k, m.regions[p].free);
  }

  /** Everything `Return` needs to know about memory. */
  lemma ReturnRep(mem: Memory, heads: seq<nat>, m: Model, b: nat)
    requires Inv(m) && RepRegions(mem, m) && RepArenas(mem, heads, m)
    requires b in m.live && PageOf(b) in m.regions && m.regions[PageOf(b)].Small?
    ensures var p := PageOf(b);
            var k, free, mem' := m.regions[p].k, m.regions[p].free, ReturnMem(mem, p, b);
            && PageAligned(p) && b % 8 == 0 && (p + 24) % 8 == 0 && p % 8 == 0 && PageOf(p + 24) == p && PageOf(p) == p
            && Cell(mem', p) == k + 1
            && AvailOf(Cell(mem', p + 24)) == |free| + 1 && TotalOf(Cell(mem', p + 24)) == Total(k)
            && HeaderAt(mem', p, Small(k, [b] + free))
            && RepArenas(mem', heads, m) && Untouched(mem, mem', m, b)
            && (forall q :: q in m.regions && q != p ==> HeaderAt(mem', q, m.regions[q]))
  {
    var p := PageOf(b);
    var k, free := m.regions[p].k, m.regions[p].free;
    hide PageOf, Pack, Total, IsBlock, Linked, BlockSize, ReturnMem, AvailOf, TotalOf, MagicOf, PageAligned, Apart,
         ArenaList, Idle;
    assert HeldIn(m, b) && BlockOf(m, p, b) && OnePlace(m, p, b) && HeaderAt(mem, p, Small(k, free));
    hide Partition, Live, PageLists;
    BlockPage(p, k, b);
    ListAbove(m, p);
    ReturnPlaces(m, b);
    SlabRuns.WordAligned(p);
    InPage(p, p); InPage(p, p + 24);
    ReturnHeader(mem, p, k, free, b);
    RelistRep(mem, ReturnMem(mem, p, b), heads, m, p, b);
  }

  /** Writing behind a held pointer disturbs neither metadata nor other pointers. */
  lemma WriteRep(mem: Memory, mem': Memory, heads: seq<nat>, m: Model, b: nat, n: nat)
    requires Inv(m) && RepRegions(mem, m) && RepArenas(mem, heads, m)
    requires b in m.live && n <= Capacity(m, b)
    requires forall a: nat :: !(b <= a < b + n) ==> Cell(mem', a) == Cell(mem, a)
    ensures RepRegions(mem', m) && RepArenas(mem', heads, m) && Untouched(mem, mem', m, b)
  {
    hide PageOf, Pack, Total, IsBlock, Linked, PageAligned, Apart, Partition, PageLists, ArenaList, Idle, Live,
         HeaderAt, Capacity, Elsewhere;
    forall a: nat | Cell(mem', a) != Cell(mem, a) ensures Elsewhere(m, 0, a) { LiveElsewhere(m, b, a); }
    RepFrame(mem, mem', heads, m, 0);
    forall c | c in m.live && c != b ensures SameBytes(mem, mem', c, Capacity(m, c)) {
      SlabRuns.LiveDisjoint(m, b, c);
    }
  }

  /** The three stages of moving a block leave every third pointer alone. */
  lemma MoveUntouched(mem0: Memory, mem1: Memory, mem2: Memory, mem3: Memory, m0: Model, m1: Model, b: nat, q: nat)
    requires Inv(m0) && Inv(m1) && Keeps(m0, m1) && q !in m0.live
    requires Untouched(mem0, mem1, m0, 0) && Untouched(mem1, mem2, m1, q) && Untouched(mem2, mem3, m1, b)
    requires 0 !in m0.live
    ensures Untouched(mem0, mem3, m0, b)
  {
    hide Inv, Capacity;
    forall c | c in m0.live && c != b ensures SameBytes(mem0, mem3, c, Capacity(m0, c)) {
      KeepsCapacity(m0, m1, c);
      assert SameBytes(mem0, mem1, c, Capacity(m0, c)) && SameBytes(mem1, mem2, c, Capacity(m1, c))
          && SameBytes(mem2, mem3, c, Capacity(m1, c));
    }
  }

  lemma SeizeDone(mem: Memory, mapped: set<nat>, heads: seq<nat>, idles: seq<nat>, m: Model, k: nat)
    requires Inv(m) && Rep(mem, mapped, heads, idles, m)
    requires k < NCACHES && m.idle[k] != 0 && m.arenas[k] == []
    ensures |heads| == |idles| == NCACHES && idles[k] == m.idle[k] && heads[k] == 0
    ensures var p := m.idle[k];
            var last, mem' := Cell(mem, p + 16), SeizeMem(mem, p, 0);
            && PageAligned(p) && p in mapped && InBlocks(p, last)
            && Rep(mem', mapped, heads[k := Cell(mem, p + 8)], idles[k := 0], Seize(m, k))
            && Untouched(mem, mem', m, 0)
  {
    var p := m.idle[k];
    hide Partition, PageLists, ArenaList, Live, Pack, IsBlock, Total, PageOf, PagesOf, SeizeMem, Linked, PageAligned,
         HeaderAt, InBlocks;
    SeizeRep(mem, heads, m, k);
    PagesRelist(m.regions, p, Small(k, []));
    RegionMapped(m, mapped, p);
    HeadZero(m, heads, mem, k);
  }

  ghost predicate Whole(m: Model, b: nat)
    requires PageOf(b) in m.regions && m.regions[PageOf(b)].Small? && m.regions[PageOf(b)].k < NCACHES
  {
    |m.regions[PageOf(b)].free| + 1 == Total(m.regions[PageOf(b)].k)
  }

  lemma ReturnUnmaps(mem: Memory, mapped: set<nat>, heads: seq<nat>, idles: seq<nat>, m: Model, b: nat)
    requires Inv(m) && Rep(mem, mapped, heads, idles, m)
    requires b in m.live && PageOf(b) in m.regions && m.regions[PageOf(b)].Small?
    requires Whole(m, b) && idles[m.regions[PageOf(b)].k] != 0
    ensures Rep(ReturnMem(mem, PageOf(b), b), mapped - PageSpan(PageOf(b), 1), heads, idles, Return(m, b))
  {
    hide Partition, PageLists, ArenaList, Idle, Live, PageOf, Pack, Total, PagesOf, PageSpan, ReturnMem, HeaderAt,
         Linked, AvailOf, TotalOf, PageAligned, Untouched;
    ReturnRep(mem, heads, m, b);
    PagesRemove(m, PageOf(b));
  }

  lemma ReturnStays(mem: Memory, mapped: set<nat>, heads: seq<nat>, idles: seq<nat>, m: Model, b: nat)
    requires Inv(m) && Rep(mem, mapped, heads, idles, m)
    requires b in m.live && PageOf(b) in m.regions && m.regions[PageOf(b)].Small?
    requires Whole(m, b) ==> idles[m.regions[PageOf(b)].k] == 0
    ensures Rep(ReturnMem(mem, PageOf(b), b), mapped, heads, Return(m, b).idle, Return(m, b))
  {
    hide Partition, PageLists, ArenaList, Idle, Live, PageOf, Pack, Total, PagesOf, PageSpan, ReturnMem, HeaderAt,
         Linked, AvailOf, TotalOf, PageAligned, Untouched;
    var p := PageOf(b);
    ReturnRep(mem, heads, m, b);
    PagesRelist(m.regions, p, Small(m.regions[p].k, [b] + m.regions[p].free));
  }

  lemma RepLive(mem: Memory, mapped: set<nat>, heads: seq<nat>, idles: seq<nat>, m: Model, m': Model)
    requires Rep(mem, mapped, heads, idles, m)
    requires m'.regions == m.regions && m'.arenas == m.arenas && m'.idle == m.idle
    ensures Rep(mem, mapped, heads, idles, m')
  {
  }
}
