/** The slab allocator as a state machine over regions, free lists and live pointers.

    A region is one mapping obtained from `mmap`: a 4096-byte page carved into blocks of one of
    seven sizes, a large allocation behind a 32-byte header, or a bare mapping made for C++ `new`.
    Every operation is a function on `Model`; `Slab` proves that the code over raw memory
    performs exactly these functions. */
module SlabModel {

  const PGSIZE: nat := 4096
  const HEADER: nat := 32
  const NCACHES: nat := 7
  const SMALL_MAX: nat := 1024

  datatype Region =
    | Small(k: nat, free: seq<nat>)  // page of arena `k` with its own free list
    | Large(pages: nat)              // header followed by one allocation
    | Raw(pages: nat)                // no header

  datatype Model = Model(
    regions: map<nat, Region>,       // by base address
    arenas: seq<seq<nat>>,           // free list of each arena
    idle: seq<nat>,                  // cached idle page of each arena, 0 if none
    live: map<nat, nat>)             // pointers held by the caller, with the size asked for

  // ---------------------------------------------------------------- geometry

  function BlockSize(k: nat): (r: nat)
    requires k < NCACHES
  {
    if k == 0 then 16 else if k == 1 then 32 else if k == 2 then 64 else if k == 3 then 128
    else if k == 4 then 256 else if k == 5 then 512 else 1024
  }

  /** The first multiple of the block size that clears the header. */
  function FirstOffset(k: nat): nat
    requires k < NCACHES
  {
    if k == 0 then 32 else BlockSize(k)
  }

  /** How many blocks fit; header and blocks tile the page. */
  function Total(k: nat): (n: nat)
    requires k < NCACHES
    ensures FirstOffset(k) + n * BlockSize(k) == PGSIZE && 1 < n < 256
  {
    if k == 0 then 254 else if k == 1 then 127 else if k == 2 then 63 else if k == 3 then 31
    else if k == 4 then 15 else if k == 5 then 7 else 3
  }

  predicate PageAligned(p: nat) { p % PGSIZE == 0 }

  function PageOf(a: nat): nat { a - a % PGSIZE }

  function PagesIn(r: Region): nat { if r.Small? then 1 else r.pages }

  function Extent(r: Region): nat { PagesIn(r) * PGSIZE }

  function Block(p: nat, k: nat, i: nat): nat
    requires k < NCACHES
  {
    p + FirstOffset(k) + i * BlockSize(k)
  }

  ghost predicate IsBlock(p: nat, k: nat, b: nat)
    requires k < NCACHES
  {
    exists i: nat :: i < Total(k) && b == Block(p, k, i)
  }

  lemma MultiplesApart(i: nat, j: nat, s: nat)
    ensures i == j || i * s + s <= j * s || j * s + s <= i * s
  {
    if i < j { assert (i + 1) * s <= j * s; }
    if j < i { assert (j + 1) * s <= i * s; }
  }

  lemma BlockInside(p: nat, k: nat, b: nat)
    requires k < NCACHES && IsBlock(p, k, b)
    ensures p + HEADER <= p + FirstOffset(k) <= b && b + BlockSize(k) <= p + PGSIZE
  {
  }

  /** Distinct blocks of one page never overlap. */
  lemma BlocksApart(p: nat, k: nat, a: nat, b: nat)
    requires k < NCACHES && IsBlock(p, k, a) && IsBlock(p, k, b)
    ensures a == b || a + BlockSize(k) <= b || b + BlockSize(k) <= a
  {
    hide Total, BlockSize, FirstOffset;
    var i: nat :| i < Total(k) && a == Block(p, k, i);
    var j: nat :| j < Total(k) && b == Block(p, k, j);
    MultiplesApart(i, j, BlockSize(k));
  }

  lemma BlockPage(p: nat, k: nat, b: nat)
    requires k < NCACHES && PageAligned(p) && IsBlock(p, k, b)
    ensures PageOf(b) == p && b % 8 == 0 && p + HEADER <= b
  {
    hide PageOf;
    BlockInside(p, k, b);
    PageOfOffset(p, b - p);
    var i: nat :| i < Total(k) && b == Block(p, k, i);
    hide Total;
    Eights(b, 512 * (p / PGSIZE) + (if k == 0 then 4 + 2 * i else BlockSize(k) / 8 * (i + 1)));
  }

  lemma Eights(x: nat, n: nat)
    requires x == 8 * n
    ensures x % 8 == 0
  {
  }

  lemma PageOfOffset(p: nat, off: nat)
    requires PageAligned(p) && off < PGSIZE
    ensures PageOf(p + off) == p
  {
  }

  // ---------------------------------------------------------------- blocks of a page as a set

  function BlockSet(p: nat, k: nat, n: nat): set<nat>
    requires k < NCACHES
  {
    if n == 0 then {} else BlockSet(p, k, n - 1) + {Block(p, k, n - 1)}
  }

  lemma BlockSetIs(p: nat, k: nat, n: nat)
    requires k < NCACHES
    ensures |BlockSet(p, k, n)| == n
    ensures forall b: nat :: b in BlockSet(p, k, n) <==> exists i: nat :: i < n && b == Block(p, k, i)
  {
    hide Block, BlockSet;
    BlockSetSize(p, k, n);
    forall b: nat ensures b in BlockSet(p, k, n) <==> exists i: nat :: i < n && b == Block(p, k, i) {
      BlockSetHas(p, k, n, b);
    }
  }

  lemma {:induction false} BlockSetSize(p: nat, k: nat, n: nat)
    requires k < NCACHES
    ensures |BlockSet(p, k, n)| == n
  {
    hide Block;
    if n > 0 {
      BlockSetSize(p, k, n - 1);
      BlockSetBelow(p, k, n - 1, n - 1);
    }
  }

  lemma {:induction false} BlockSetHas(p: nat, k: nat, n: nat, b: nat)
    requires k < NCACHES
    ensures b in BlockSet(p, k, n) <==> exists i: nat :: i < n && b == Block(p, k, i)
  {
    hide Block;
    if n > 0 {
      BlockSetHas(p, k, n - 1, b);
      if i: nat :| i < n && b == Block(p, k, i) { assert i < n - 1 || i == n - 1; }
    }
  }

  lemma {:induction false} BlockSetBelow(p: nat, k: nat, n: nat, j: nat)
    requires k < NCACHES && n <= j
    ensures Block(p, k, j) !in BlockSet(p, k, n)
  {
    hide Block;
    if n > 0 {
      BlockSetBelow(p, k, n - 1, j);
      BlocksIncrease(p, k, n - 1, j);
    }
  }

  lemma BlocksIncrease(p: nat, k: nat, i: nat, j: nat)
    requires k < NCACHES && i < j
    ensures Block(p, k, i) < Block(p, k, j)
  {
  }

  // ---------------------------------------------------------------- invariant

  predicate NoDup(s: seq<nat>) { forall i, j :: 0 <= i < j < |s| ==> s[i] != s[j] }

  ghost predicate Apart(p: nat, r: Region, q: nat, t: Region) {
    p + Extent(r) <= q || q + Extent(t) <= p
  }

  ghost predicate Geometry(m: Model) {
    && |m.arenas| == NCACHES && |m.idle| == NCACHES
    && (forall p :: p in m.regions ==>
          p > 0 && PageAligned(p) && PagesIn(m.regions[p]) > 0
          && (m.regions[p].Small? ==> m.regions[p].k < NCACHES))
    && (forall p, q :: p in m.regions && q in m.regions && p != q ==>
          Apart(p, m.regions[p], q, m.regions[q]))
  }

  /** `b` is a block of the mapped page `p`. */
  ghost predicate BlockOf(m: Model, p: nat, b: nat)
    requires Geometry(m)
  {
    p in m.regions && m.regions[p].Small? && IsBlock(p, m.regions[p].k, b)
  }

  /** Page lists hold distinct blocks of their page. */
  ghost predicate PageLists(m: Model)
    requires Geometry(m)
  {
    forall p :: p in m.regions && m.regions[p].Small? ==>
      NoDup(m.regions[p].free) && forall b :: b in m.regions[p].free ==> BlockOf(m, p, b)
  }

  /** Arena lists hold distinct blocks of the arena, all from one page. */
  ghost predicate ArenaList(m: Model, k: nat)
    requires Geometry(m) && k < NCACHES
  {
    && NoDup(m.arenas[k])
    && forall b :: b in m.arenas[k] ==>
         BlockOf(m, PageOf(b), b) && m.regions[PageOf(b)].k == k && PageOf(b) == PageOf(m.arenas[k][0])
  }

  /** A block of a mapped page is held by the caller, on its arena's list or on its page's list,
      and in one of these places only. */
  ghost predicate OnePlace(m: Model, p: nat, b: nat)
    requires Geometry(m) && p in m.regions && m.regions[p].Small?
  {
    var held, queued, returned := b in m.live, b in m.arenas[m.regions[p].k], b in m.regions[p].free;
    (held || queued || returned)
    && !(held && queued) && !(held && returned) && !(queued && returned)
  }

  ghost predicate Partition(m: Model)
    requires Geometry(m)
  {
    forall p, b {:trigger BlockOf(m, p, b)} :: BlockOf(m, p, b) ==> OnePlace(m, p, b)
  }

  /** The idle page of an arena is exactly its fully returned page. */
  ghost predicate Idle(m: Model)
    requires Geometry(m)
  {
    && (forall k: nat :: k < NCACHES && m.idle[k] != 0 ==>
          var p := m.idle[k];
          p in m.regions && m.regions[p].Small? && m.regions[p].k == k && |m.regions[p].free| == Total(k))
    && (forall p :: p in m.regions && m.regions[p].Small? && |m.regions[p].free| == Total(m.regions[p].k) ==>
          m.idle[m.regions[p].k] == p)
  }

  /** What a pointer held by the caller looks like, given the region it falls in. */
  ghost predicate Held(p: nat, r: Region, b: nat, size: nat) {
    match r
    case Small(k, _) => k < NCACHES && IsBlock(p, k, b) && size <= BlockSize(k)
    case Large(n) => b == p + HEADER && size + HEADER <= n * PGSIZE
    case Raw(n) => b == p && size > SMALL_MAX && n == (size + PGSIZE - 1) / PGSIZE
  }

  ghost predicate HeldIn(m: Model, b: nat) {
    PageOf(b) in m.regions && Held(PageOf(b), m.regions[PageOf(b)], b, if b in m.live then m.live[b] else 0)
  }

  /** A mapping that is not carved into blocks belongs to the one pointer handed out for it. */
  ghost predicate Owned(m: Model, p: nat) {
    p in m.regions ==>
      match m.regions[p]
      case Small(_, _) => true
      case Large(_) => p + HEADER in m.live
      case Raw(_) => p in m.live
  }

  ghost predicate Live(m: Model)
  {
    && (forall b :: b in m.live ==> HeldIn(m, b))
    && (forall p {:trigger Owned(m, p)} :: Owned(m, p))
  }

  ghost predicate Inv(m: Model) {
    && Geometry(m) && PageLists(m) && (forall k: nat :: k < NCACHES ==> ArenaList(m, k))
    && Partition(m) && Idle(m) && Live(m)
  }

  // ---------------------------------------------------------------- operations

  /** Blocks of a new page in the order `page_header_init` links them: highest address first. */
  function FreshList(p: nat, k: nat, n: nat): (s: seq<nat>)
    requires k < NCACHES
    ensures |s| == n
  {
    if n == 0 then [] else [Block(p, k, n - 1)] + FreshList(p, k, n - 1)
  }

  function MapPage(m: Model, k: nat, p: nat): Model
    requires k < |m.idle| && k < NCACHES
  {
    m.(regions := m.regions[p := Small(k, FreshList(p, k, Total(k)))], idle := m.idle[k := p])
  }

  /** The whole list of the idle page becomes the arena's list. */
  function Seize(m: Model, k: nat): Model
    requires k < |m.idle| && k < |m.arenas|
    requires m.idle[k] in m.regions && m.regions[m.idle[k]].Small?
  {
    var p := m.idle[k];
    m.(regions := m.regions[p := Small(k, [])],
       arenas := m.arenas[k := m.regions[p].free],
       idle := m.idle[k := 0])
  }

  function Pop(m: Model, k: nat, size: nat): Model
    requires k < |m.arenas| && m.arenas[k] != []
  {
    m.(arenas := m.arenas[k := m.arenas[k][1..]], live := m.live[m.arenas[k][0] := size])
  }

  /** A block comes back to its page; a page that is whole again is cached or unmapped. */
  function Return(m: Model, b: nat): Model
    requires PageOf(b) in m.regions && m.regions[PageOf(b)].Small?
    requires m.regions[PageOf(b)].k < NCACHES && |m.idle| == NCACHES
  {
    var p := PageOf(b);
    var k := m.regions[p].k;
    var free := [b] + m.regions[p].free;
    var m1 := m.(live := m.live - {b});
    if |free| == Total(k) && m.idle[k] != 0 then m1.(regions := m.regions - {p})
    else m1.(regions := m.regions[p := Small(k, free)],
             idle := if |free| == Total(k) then m.idle[k := p] else m.idle)
  }

  function MapRegion(m: Model, p: nat, r: Region, b: nat, size: nat): Model {
    m.(regions := m.regions[p := r], live := m.live[b := size])
  }

  function UnmapRegion(m: Model, b: nat): Model {
    m.(regions := m.regions - {PageOf(b)}, live := m.live - {b})
  }

  /** What `mmap` promises of `n` new pages at `p`. */
  ghost predicate Fresh(m: Model, p: nat, n: nat) {
    && p > 0 && PageAligned(p) && n > 0
    && forall q :: q in m.regions ==> Apart(p, Raw(n), q, m.regions[q])
  }

  // ---------------------------------------------------------------- preservation

  lemma {:induction false} FreshListIs(p: nat, k: nat, n: nat)
    requires k < NCACHES
    ensures NoDup(FreshList(p, k, n))
    ensures forall b: nat :: b in FreshList(p, k, n) <==> b in BlockSet(p, k, n)
  {
    hide Block;
    if n > 0 {
      FreshListIs(p, k, n - 1);
      BlockSetBelow(p, k, n - 1, n - 1);
      assert FreshList(p, k, n) == [Block(p, k, n - 1)] + FreshList(p, k, n - 1);
      NoDupCons(Block(p, k, n - 1), FreshList(p, k, n - 1));
    }
  }

  lemma NoDupCons(b: nat, s: seq<nat>)
    requires NoDup(s) && b !in s
    ensures NoDup([b] + s)
  {
  }

  lemma AllBlocks(p: nat, k: nat)
    requires k < NCACHES
    ensures |BlockSet(p, k, Total(k))| == Total(k)
    ensures forall b: nat :: b in BlockSet(p, k, Total(k)) <==> IsBlock(p, k, b)
  {
    hide Block, BlockSet, Total;
    BlockSetIs(p, k, Total(k));
  }

  /** A duplicate-free list of blocks is complete exactly when it is as long as the page allows. */
  lemma FullList(p: nat, k: nat, s: seq<nat>)
    requires k < NCACHES && PageAligned(p)
    requires NoDup(s) && forall b :: b in s ==> IsBlock(p, k, b)
    ensures |s| <= Total(k)
    ensures |s| == Total(k) <==> forall b: nat :: IsBlock(p, k, b) ==> b in s
  {
    hide IsBlock, BlockSet, Total;
    var all := BlockSet(p, k, Total(k));
    AllBlocks(p, k);
    SetOf(s);
    var here := Elems(s);
    assert here <= all;
    Subset(here, all);
    if |s| == Total(k) { assert here == all; }
    if forall b: nat :: IsBlock(p, k, b) ==> b in s { assert here == all; }
  }

  function Elems(s: seq<nat>): set<nat> { set b | b in s }

  lemma {:induction false} SetOf(s: seq<nat>)
    requires NoDup(s)
    ensures |Elems(s)| == |s|
  {
    if s != [] {
      SetOf(s[1..]);
      assert s[0] !in Elems(s[1..]);
      assert Elems(s) == Elems(s[1..]) + {s[0]};
    }
  }

  lemma {:induction false} Subset(a: set<nat>, b: set<nat>)
    requires a <= b
    ensures |a| <= |b|
    ensures |a| == |b| ==> a == b
  {
    assert b == a + (b - a);
    assert |b| == |a| + |b - a|;
  }

  lemma FreshPage(p: nat, k: nat)
    requires k < NCACHES
    ensures NoDup(FreshList(p, k, Total(k)))
    ensures forall b: nat :: b in FreshList(p, k, Total(k)) <==> IsBlock(p, k, b)
  {
    hide Block, BlockSet, Total, FreshList, IsBlock;
    FreshListIs(p, k, Total(k));
    AllBlocks(p, k);
  }

  lemma MapPageInv(m: Model, k: nat, p: nat)
    requires Inv(m) && k < NCACHES && Fresh(m, p, 1) && m.idle[k] == 0
    ensures Inv(MapPage(m, k, p))
  {
    hide IsBlock, Block, Total, BlockSize, FreshList, PageOf, PageAligned, Held, Extent, Apart;
    var m' := MapPage(m, k, p);
    FreshPage(p, k);
    GeometryExtend(m, m', p);
    assert ArenaList(m, k);
    forall q ensures Owned(m', q) { assert Owned(m, q); }
    forall q, b | BlockOf(m', q, b) ensures OnePlace(m', q, b) {
      BlockPage(q, m'.regions[q].k, b);
      assert q != p ==> BlockOf(m, q, b);
    }
    assert PageLists(m');
    forall j: nat | j < NCACHES ensures ArenaList(m', j) { assert ArenaList(m, j); }
  }

  lemma GeometryExtend(m: Model, m': Model, p: nat)
    requires Geometry(m) && p in m'.regions && Fresh(m, p, PagesIn(m'.regions[p]))
    requires m'.regions == m.regions[p := m'.regions[p]]
    requires |m'.arenas| == |m'.idle| == NCACHES
    requires m'.regions[p].Small? ==> m'.regions[p].k < NCACHES
    ensures p !in m.regions && Geometry(m')
  {
    hide PageAligned;
    assert p in m.regions ==> Apart(p, Raw(PagesIn(m'.regions[p])), p, m.regions[p]);
    forall q, t | q in m'.regions && t in m'.regions && q != t
      ensures Apart(q, m'.regions[q], t, m'.regions[t])
    {
      assert q != p && t != p ==> Apart(q, m.regions[q], t, m.regions[t]);
    }
  }

  lemma SeizeInv(m: Model, k: nat)
    requires Inv(m) && k < NCACHES && m.arenas[k] == [] && m.idle[k] != 0
    ensures Inv(Seize(m, k))
    ensures Seize(m, k).arenas[k] != []
  {
    assert Total(k) > 0;
    SeizePlaces(m, k);
    SeizeLive(m, k);
    hide IsBlock, Block, Total, BlockSize, PageOf, PageAligned, Extent, Apart, Live, Partition;
    var p, m' := m.idle[k], Seize(m, k);
    forall j: nat | j < NCACHES ensures ArenaList(m', j) {
      assert ArenaList(m, j);
      if j == k { SeizeList(m, k); }
    }
  }

  lemma SeizeList(m: Model, k: nat)
    requires Inv(m) && k < NCACHES && m.arenas[k] == [] && m.idle[k] != 0 && Geometry(Seize(m, k))
    ensures ArenaList(Seize(m, k), k)
  {
    hide IsBlock, Block, Total, BlockSize, PageOf, PageAligned, Extent, Apart, Live, Partition, ArenaList;
    var p, m' := m.idle[k], Seize(m, k);
    forall b | b in m.regions[p].free ensures PageOf(b) == p && BlockOf(m', p, b) {
      assert BlockOf(m, p, b);
      BlockPage(p, k, b);
    }
    ListIs(m', k, p);
  }

  lemma ListIs(m: Model, k: nat, p: nat)
    requires Geometry(m) && k < NCACHES && p in m.regions && m.regions[p].Small? && m.regions[p].k == k
    requires NoDup(m.arenas[k]) && forall b :: b in m.arenas[k] ==> PageOf(b) == p && BlockOf(m, p, b)
    ensures ArenaList(m, k)
  {
    hide IsBlock, PageOf;
  }

  lemma SeizePlaces(m: Model, k: nat)
    requires Inv(m) && k < NCACHES && m.arenas[k] == [] && m.idle[k] != 0
    ensures Geometry(Seize(m, k)) && PageLists(Seize(m, k)) && Partition(Seize(m, k))
  {
    hide IsBlock, Block, Total, BlockSize, PageOf, PageAligned, Extent, Held, Live, Apart;
    var p, m' := m.idle[k], Seize(m, k);
    GeometryRelist(m, m', p);
    forall b | b in m.regions[p].free ensures PageOf(b) == p {
      assert BlockOf(m, p, b);
      BlockPage(p, k, b);
    }
    forall q, b | BlockOf(m', q, b) ensures OnePlace(m', q, b) {
      assert BlockOf(m, q, b);
      BlockPage(q, m.regions[q].k, b);
    }
  }

  lemma SeizeLive(m: Model, k: nat)
    requires Inv(m) && k < NCACHES && m.arenas[k] == [] && m.idle[k] != 0
    ensures Live(Seize(m, k))
  {
    hide IsBlock, Block, Total, BlockSize, PageOf, PageAligned, Extent, Held, Partition, PageLists, Apart;
    var m' := Seize(m, k);
    forall q ensures Owned(m', q) { assert Owned(m, q); }
    forall b | b in m'.live ensures HeldIn(m', b) { assert HeldIn(m, b); HeldAnyList(m, m', b); }
  }

  /** Replacing the list of a page moves nothing. */
  lemma GeometryRelist(m: Model, m': Model, p: nat)
    requires Geometry(m) && p in m.regions && m.regions[p].Small?
    requires |m'.arenas| == |m'.idle| == NCACHES && m'.regions.Keys == m.regions.Keys
    requires m'.regions[p].Small? && m'.regions[p].k == m.regions[p].k
    requires forall q :: q in m.regions && q != p ==> m'.regions[q] == m.regions[q]
    ensures Geometry(m')
  {
    hide PageAligned;
    forall q, t | q in m'.regions && t in m'.regions && q != t
      ensures Apart(q, m'.regions[q], t, m'.regions[t])
    {
      assert Apart(q, m.regions[q], t, m.regions[t]);
    }
  }

  /** Whether a pointer is well placed does not depend on the page's list. */
  lemma HeldAnyList(m: Model, m': Model, b: nat)
    requires HeldIn(m, b) && m'.live == m.live && PageOf(b) in m'.regions
    requires m'.regions[PageOf(b)] == m.regions[PageOf(b)]
          || (m.regions[PageOf(b)].Small? && m'.regions[PageOf(b)].Small?
              && m'.regions[PageOf(b)].k == m.regions[PageOf(b)].k)
    ensures HeldIn(m', b)
  {
  }

  lemma PopInv(m: Model, k: nat, size: nat)
    requires Inv(m) && k < NCACHES && m.arenas[k] != [] && size <= BlockSize(k)
    ensures Inv(Pop(m, k, size))
    ensures m.arenas[k][0] !in m.live
  {
    hide IsBlock, Block, Total, PageOf, PageAligned, Extent, BlockSize, Apart, Held;
    PopPlaces(m, k, size);
    PopLive(m, k, size);
    hide Live, Partition;
    var m', s := Pop(m, k, size), m.arenas[k];
    assert s == [s[0]] + s[1..];
    forall j: nat | j < NCACHES ensures ArenaList(m', j) { assert ArenaList(m, j); }
  }

  lemma PopPlaces(m: Model, k: nat, size: nat)
    requires Inv(m) && k < NCACHES && m.arenas[k] != []
    ensures Geometry(Pop(m, k, size)) && PageLists(Pop(m, k, size)) && Partition(Pop(m, k, size))
    ensures m.arenas[k][0] !in m.live
  {
    hide IsBlock, Block, Total, PageOf, PageAligned, Extent, BlockSize, Apart, Held, Live, Idle;
    var m', s := Pop(m, k, size), m.arenas[k];
    assert Geometry(m') && s == [s[0]] + s[1..];
    assert ArenaList(m, k) && BlockOf(m, PageOf(s[0]), s[0]) && OnePlace(m, PageOf(s[0]), s[0]);
    forall q, b | BlockOf(m', q, b) ensures OnePlace(m', q, b) {
      assert BlockOf(m, q, b);
      BlockPage(q, m.regions[q].k, b);
    }
  }

  lemma PopLive(m: Model, k: nat, size: nat)
    requires Inv(m) && k < NCACHES && m.arenas[k] != [] && size <= BlockSize(k)
    ensures Live(Pop(m, k, size))
  {
    hide IsBlock, Block, Total, PageOf, PageAligned, Extent, BlockSize, Apart, Partition, PageLists, Idle;
    var m', b := Pop(m, k, size), m.arenas[k][0];
    assert ArenaList(m, k) && BlockOf(m, PageOf(b), b);
    forall q ensures Owned(m', q) { assert Owned(m, q); }
    forall c | c in m'.live ensures HeldIn(m', c) { assert c != b ==> HeldIn(m, c); }
  }

  lemma HeldPage(p: nat, r: Region, b: nat, size: nat)
    requires PageAligned(p) && Held(p, r, b, size)
    ensures PageOf(b) == p
  {
    if r.Small? { BlockPage(p, r.k, b); } else { PageOfOffset(p, b - p); }
  }

  lemma MapRegionLive(m: Model, p: nat, r: Region, b: nat, size: nat)
    requires Inv(m) && !r.Small? && Fresh(m, p, r.pages) && Held(p, r, b, size)
    ensures Live(MapRegion(m, p, r, b, size)) && Geometry(MapRegion(m, p, r, b, size))
    ensures b !in m.live && PageOf(b) == p && p !in m.regions
  {
    hide IsBlock, Block, Total, BlockSize, PageOf, PageAligned, Extent, Apart, Held, Partition, PageLists, ArenaList,
         Idle;
    HeldPage(p, r, b, size);
    var m' := MapRegion(m, p, r, b, size);
    GeometryExtend(m, m', p);
    assert b in m.live ==> HeldIn(m, b);
    HeldShape(p, r, b, size);
    forall q ensures Owned(m', q) { assert Owned(m, q); }
    forall c | c in m'.live ensures HeldIn(m', c) { assert c != b ==> HeldIn(m, c); }
  }

  lemma HeldShape(p: nat, r: Region, b: nat, size: nat)
    requires Held(p, r, b, size)
    ensures r.Large? ==> b == p + HEADER
    ensures r.Raw? ==> b == p
  {
  }

  lemma MapRegionInv(m: Model, p: nat, r: Region, b: nat, size: nat)
    requires Inv(m) && !r.Small? && Fresh(m, p, r.pages) && Held(p, r, b, size)
    ensures Inv(MapRegion(m, p, r, b, size))
    ensures b !in m.live && PageOf(b) == p
  {
    hide IsBlock, Block, Total, BlockSize, PageOf, PageAligned, Extent, Apart, Held, Live;
    var m' := MapRegion(m, p, r, b, size);
    MapRegionLive(m, p, r, b, size);
    forall q, c | BlockOf(m', q, c) ensures OnePlace(m', q, c) {
      assert BlockOf(m, q, c);
      BlockPage(q, m.regions[q].k, c);
    }
    forall j: nat | j < NCACHES ensures ArenaList(m', j) { assert ArenaList(m, j); }
  }

  lemma UnmapRegionInv(m: Model, b: nat)
    requires Inv(m) && b in m.live && !m.regions[PageOf(b)].Small?
    ensures Inv(UnmapRegion(m, b))
  {
    hide IsBlock, Block, Total, BlockSize, PageOf, PageAligned, Extent, Apart;
    var m' := UnmapRegion(m, b);
    assert Geometry(m');
    UnmapRegionLive(m, b);
    hide Live;
    forall q, c | BlockOf(m', q, c) ensures OnePlace(m', q, c) {
      assert BlockOf(m, q, c);
      BlockPage(q, m.regions[q].k, c);
    }
    assert PageLists(m');
    forall j: nat | j < NCACHES ensures ArenaList(m', j) { assert ArenaList(m, j); }
  }

  lemma UnmapRegionLive(m: Model, b: nat)
    requires Inv(m) && b in m.live && !m.regions[PageOf(b)].Small?
    ensures Live(UnmapRegion(m, b))
  {
    hide IsBlock, Block, Total, BlockSize, PageOf, PageAligned, Extent, Apart, Partition, PageLists, ArenaList, Idle;
    var m', p := UnmapRegion(m, b), PageOf(b);
    assert HeldIn(m, b);
    forall q ensures Owned(m', q) {
      assert Owned(m, q);
      if q in m'.regions { PageOfOffset(q, HEADER); PageOfOffset(q, 0); }
    }
    forall c | c in m'.live ensures HeldIn(m', c) { assert HeldIn(m, c); }
  }

  lemma ReturnPlaces(m: Model, b: nat)
    requires Inv(m) && b in m.live && m.regions[PageOf(b)].Small?
    ensures Geometry(Return(m, b)) && PageLists(Return(m, b)) && Partition(Return(m, b))
    ensures |m.regions[PageOf(b)].free| < Total(m.regions[PageOf(b)].k)
  {
    hide IsBlock, Block, Total, BlockSize, PageOf, PageAligned, Extent, Apart, Live, Idle, ArenaList, PageLists;
    ReturnLists(m, b);
    var m', p := Return(m, b), PageOf(b);
    forall q, c | BlockOf(m', q, c) ensures OnePlace(m', q, c) {
      assert BlockOf(m, q, c) && OnePlace(m, q, c);
      BlockPage(q, m.regions[q].k, c);
    }
  }

  lemma ReturnLists(m: Model, b: nat)
    requires Inv(m) && b in m.live && m.regions[PageOf(b)].Small?
    ensures Geometry(Return(m, b)) && PageLists(Return(m, b))
    ensures |m.regions[PageOf(b)].free| < Total(m.regions[PageOf(b)].k)
    ensures BlockOf(m, PageOf(b), b)
  {
    hide IsBlock, Block, Total, BlockSize, PageOf, PageAligned, Extent, Apart, Idle, ArenaList;
    var m', p := Return(m, b), PageOf(b);
    assert HeldIn(m, b) && BlockOf(m, p, b) && OnePlace(m, p, b);
    hide Live, Partition;
    FullList(p, m.regions[p].k, [b] + m.regions[p].free);
    if p in m'.regions { GeometryRelist(m, m', p); }
  }

  lemma ReturnLive(m: Model, b: nat)
    requires Inv(m) && b in m.live && m.regions[PageOf(b)].Small?
    ensures Live(Return(m, b))
  {
    hide IsBlock, Block, Total, BlockSize, PageOf, PageAligned, Extent, Apart;
    var m', p, k := Return(m, b), PageOf(b), m.regions[PageOf(b)].k;
    assert HeldIn(m, b) && BlockOf(m, p, b) && OnePlace(m, p, b);
    if |m.regions[p].free| + 1 == Total(k) { ReturnFull(m, b); }
    forall q ensures Owned(m', q) {
      assert Owned(m, q);
      if q in m'.regions { PageOfOffset(q, HEADER); PageOfOffset(q, 0); }
    }
    forall c | c in m'.live ensures HeldIn(m', c) { assert HeldIn(m, c); }
  }

  lemma ReturnInv(m: Model, b: nat)
    requires Inv(m) && b in m.live && m.regions[PageOf(b)].Small?
    ensures Inv(Return(m, b))
  {
    hide IsBlock, Block, Total, BlockSize, PageOf, PageAligned, Extent, Apart, Held, ArenaList, Idle;
    ReturnPlaces(m, b);
    ReturnLive(m, b);
    ReturnIdle(m, b);
    hide Live, PageLists, Partition;
    forall j: nat | j < NCACHES ensures ArenaList(Return(m, b), j) { ReturnArena(m, b, j); }
  }

  lemma ReturnArena(m: Model, b: nat, j: nat)
    requires Inv(m) && b in m.live && m.regions[PageOf(b)].Small? && j < NCACHES && Geometry(Return(m, b))
    ensures ArenaList(Return(m, b), j)
  {
    hide IsBlock, Block, Total, BlockSize, PageOf, PageAligned, Extent, Apart, Held, Idle, PageLists, Partition;
    assert HeldIn(m, b) && ArenaList(m, j);
    hide Live;
    if |m.regions[PageOf(b)].free| + 1 == Total(m.regions[PageOf(b)].k) { ReturnFull(m, b); }
  }

  lemma ReturnIdle(m: Model, b: nat)
    requires Inv(m) && b in m.live && m.regions[PageOf(b)].Small? && Geometry(Return(m, b))
    ensures Idle(Return(m, b))
  {
    hide IsBlock, Block, Total, BlockSize, PageOf, PageAligned, Extent, Apart, Held, PageLists, Partition, ArenaList;
    ReturnPlaces(m, b);
    assert HeldIn(m, b);
    hide Live;
  }

  /** When a page is whole again, none of its blocks is queued or, after this return, held. */
  lemma ReturnFull(m: Model, b: nat)
    requires Inv(m) && b in m.live && m.regions[PageOf(b)].Small?
    requires |m.regions[PageOf(b)].free| + 1 == Total(m.regions[PageOf(b)].k)
    ensures forall j: nat, c :: j < NCACHES && c in m.arenas[j] ==> PageOf(c) != PageOf(b)
    ensures forall c :: c in m.live && c != b ==> PageOf(c) != PageOf(b)
  {
    hide IsBlock, Block, Total, BlockSize, PageOf, PageAligned, Extent, Apart;
    var p, k := PageOf(b), m.regions[PageOf(b)].k;
    assert HeldIn(m, b) && BlockOf(m, p, b) && OnePlace(m, p, b);
    FullList(p, k, [b] + m.regions[p].free);
    forall j: nat, c | j < NCACHES && c in m.arenas[j] ensures PageOf(c) != p {
      assert ArenaList(m, j) && BlockOf(m, PageOf(c), c) && OnePlace(m, PageOf(c), c);
    }
    forall c | c in m.live && c != b ensures PageOf(c) != p {
      assert HeldIn(m, c);
    }
  }

  // ---------------------------------------------------------------- entry points

  /** The smallest arena whose blocks hold `size` bytes, searching upwards from `k`. */
  function ArenaFrom(size: nat, k: nat): (r: nat)
    requires size <= SMALL_MAX && k < NCACHES
    requires forall j: nat :: j < k ==> BlockSize(j) < size
    ensures r < NCACHES && size <= BlockSize(r)
    ensures forall j: nat :: j < r ==> BlockSize(j) < size
    decreases NCACHES - k
  {
    if size <= BlockSize(k) then k else ArenaFrom(size, k + 1)
  }

  function ArenaFor(size: nat): (r: nat)
    requires size <= SMALL_MAX
    ensures r < NCACHES && size <= BlockSize(r)
    ensures forall j: nat :: j < r ==> BlockSize(j) < size
  {
    ArenaFrom(size, 0)
  }

  function LargePages(size: nat): nat { (size + HEADER + PGSIZE - 1) / PGSIZE }

  function RawPages(size: nat): nat { (size + PGSIZE - 1) / PGSIZE }

  /** `mm` is what `mmap` answers if asked for `n` pages: 0 for failure. */
  ghost predicate Mmap(m: Model, n: nat, mm: nat) { mm == 0 || Fresh(m, mm, n) }

  function MallocPages(size: nat): nat { if size > SMALL_MAX then LargePages(size) else 1 }

  ghost predicate OutOfMemory(m: Model, k: nat, mm: nat)
    requires Geometry(m) && k < NCACHES
  {
    m.arenas[k] == [] && m.idle[k] == 0 && mm == 0
  }

  /** Makes the arena's list non-empty: from the idle page, which is mapped first if need be. */
  ghost function Refill(m: Model, k: nat, mm: nat): (r: Model)
    requires Inv(m) && k < NCACHES && Mmap(m, 1, mm) && !OutOfMemory(m, k, mm)
    ensures Inv(r) && r.arenas[k] != []
  {
    var m1 := if m.arenas[k] == [] && m.idle[k] == 0 then MapPageInv(m, k, mm); MapPage(m, k, mm) else m;
    if m.arenas[k] == [] then SeizeInv(m1, k); Seize(m1, k) else m1
  }

  ghost function AllocSmall(m: Model, k: nat, size: nat, mm: nat): (r: (Model, nat))
    requires Inv(m) && k < NCACHES && size <= BlockSize(k) && Mmap(m, 1, mm)
    ensures Inv(r.0)
  {
    if OutOfMemory(m, k, mm) then (m, 0)
    else
      var m2 := Refill(m, k, mm);
      PopInv(m2, k, size);
      (Pop(m2, k, size), m2.arenas[k][0])
  }

  ghost function Malloc(m: Model, size: nat, mm: nat): (r: (Model, nat))
    requires Inv(m) && Mmap(m, MallocPages(size), mm)
    ensures Inv(r.0)
  {
    if size <= SMALL_MAX then AllocSmall(m, ArenaFor(size), size, mm)
    else if mm == 0 then (m, 0)
    else
      var r, b := Large(LargePages(size)), mm + HEADER;
      MapRegionInv(m, mm, r, b, size);
      (MapRegion(m, mm, r, b, size), b)
  }

  ghost function CppAlloc(m: Model, size: nat, mm: nat): (r: (Model, nat))
    requires Inv(m) && Mmap(m, if size > SMALL_MAX then RawPages(size) else 1, mm)
    ensures Inv(r.0)
  {
    if size <= SMALL_MAX then Malloc(m, size, mm)
    else if mm == 0 then (m, 0)
    else
      MapRegionInv(m, mm, Raw(RawPages(size)), mm, size);
      (MapRegion(m, mm, Raw(RawPages(size)), mm, size), mm)
  }

  /** The caller owns `b` and got it with a header in front of its page. */
  ghost predicate Freeable(m: Model, b: nat) {
    b in m.live && PageOf(b) in m.regions && !m.regions[PageOf(b)].Raw?
  }

  ghost function Free(m: Model, b: nat): (r: Model)
    requires Inv(m) && (b == 0 || Freeable(m, b))
    ensures Inv(r)
  {
    if b == 0 then m
    else if m.regions[PageOf(b)].Small? then ReturnInv(m, b); Return(m, b)
    else UnmapRegionInv(m, b); UnmapRegion(m, b)
  }

  ghost predicate CppFreeable(m: Model, b: nat, size: nat) {
    if size > SMALL_MAX then b in m.live && m.live[b] == size && PageOf(b) in m.regions && m.regions[PageOf(b)].Raw?
    else Freeable(m, b)
  }

  ghost function CppFree(m: Model, b: nat, size: nat): (r: Model)
    requires Inv(m) && (b == 0 || CppFreeable(m, b, size))
    ensures Inv(r)
  {
    if b == 0 then m
    else if size > SMALL_MAX then UnmapRegionInv(m, b); UnmapRegion(m, b)
    else Free(m, b)
  }

  /** How many bytes behind `b` belong to the caller. */
  ghost function Capacity(m: Model, b: nat): nat
    requires Inv(m) && b in m.live
  {
    assert HeldIn(m, b);
    match m.regions[PageOf(b)]
    case Small(k, _) => BlockSize(k)
    case Large(n) => n * PGSIZE - HEADER
    case Raw(n) => n * PGSIZE
  }

  function Resize(m: Model, b: nat, size: nat): Model { m.(live := m.live[b := size]) }

  lemma ResizeInv(m: Model, b: nat, size: nat)
    requires Inv(m) && Freeable(m, b) && size <= Capacity(m, b)
    ensures Inv(Resize(m, b, size))
  {
    hide IsBlock, Block, Total, PageOf, PageAligned, Extent, Apart;
    var m' := Resize(m, b, size);
    assert Geometry(m') && HeldIn(m, b);
    forall q ensures Owned(m', q) { assert Owned(m, q); }
    forall c | c in m'.live ensures HeldIn(m', c) { assert HeldIn(m, c); }
    forall q, c | BlockOf(m', q, c) ensures OnePlace(m', q, c) { assert BlockOf(m, q, c); }
    forall j: nat | j < NCACHES ensures ArenaList(m', j) { assert ArenaList(m, j); }
  }

  /** `m'` keeps every pointer of `m` alive and in a region of the same shape. */
  ghost predicate Keeps(m: Model, m': Model) {
    && (forall c :: c in m.live ==> c in m'.live && m'.live[c] == m.live[c])
    && (forall q :: q in m.regions ==> q in m'.regions && SameShape(m.regions[q], m'.regions[q]))
  }

  predicate SameShape(r: Region, t: Region) {
    if r.Small? then t.Small? && t.k == r.k else r == t
  }

  lemma KeepsCapacity(m0: Model, m1: Model, c: nat)
    requires Inv(m0) && Inv(m1) && Keeps(m0, m1) && c in m0.live
    ensures Capacity(m1, c) == Capacity(m0, c)
  {
    assert HeldIn(m0, c);
  }

  lemma MapPageKeeps(m: Model, k: nat, p: nat)
    requires Inv(m) && k < NCACHES && Fresh(m, p, 1)
    ensures Keeps(m, MapPage(m, k, p))
  {
    hide FreshList, Total;
    FreshNew(m, p, 1);
  }

  lemma RefillKeeps(m: Model, k: nat, mm: nat)
    requires Inv(m) && k < NCACHES && Mmap(m, 1, mm) && !OutOfMemory(m, k, mm)
    ensures Refill(m, k, mm).live == m.live && Keeps(m, Refill(m, k, mm))
  {
    hide IsBlock, Block, Total, BlockSize, PageOf, PageAligned, Extent, Apart, Held, FreshList;
    if m.arenas[k] == [] && m.idle[k] == 0 { FreshNew(m, mm, 1); }
  }

  /** A successful allocation adds one pointer that nobody held and keeps all others. */
  lemma AllocSmallLive(m: Model, k: nat, size: nat, mm: nat)
    requires Inv(m) && k < NCACHES && size <= BlockSize(k) && Mmap(m, 1, mm)
    ensures var (m', q) := AllocSmall(m, k, size, mm);
            if q == 0 then m' == m && OutOfMemory(m, k, mm)
            else q !in m.live && m'.live == m.live[q := size] && Keeps(m, m')
                 && BlockOf(m', PageOf(q), q) && m'.regions[PageOf(q)].k == k
  {
    hide IsBlock, Block, Total, BlockSize, PageOf, PageAligned, Extent, Apart, Held, Refill, Partition, PageLists,
         Live, Idle;
    if !OutOfMemory(m, k, mm) {
      RefillKeeps(m, k, mm);
      var m2 := Refill(m, k, mm);
      var q := m2.arenas[k][0];
      PopInv(m2, k, size);
      assert ArenaList(m2, k) && BlockOf(m2, PageOf(q), q);
      BlockPage(PageOf(q), k, q);
    }
  }

  lemma FreshNew(m: Model, p: nat, n: nat)
    requires Geometry(m) && Fresh(m, p, n)
    ensures p !in m.regions
  {
  }

  lemma MallocLargeLive(m: Model, size: nat, mm: nat)
    requires Inv(m) && size > SMALL_MAX && Fresh(m, mm, LargePages(size))
    ensures var (m', q) := Malloc(m, size, mm);
            q == mm + HEADER && q !in m.live && m'.live == m.live[q := size] && Keeps(m, m')
            && Freeable(m', q) && size <= Capacity(m', q)
  {
    hide PageOf, PageAligned, Extent, Apart, Partition, PageLists, ArenaList, Idle;
    FreshNew(m, mm, LargePages(size));
    MapRegionInv(m, mm, Large(LargePages(size)), mm + HEADER, size);
  }

  lemma MallocLive(m: Model, size: nat, mm: nat)
    requires Inv(m) && Mmap(m, MallocPages(size), mm)
    ensures var (m', q) := Malloc(m, size, mm);
            if q == 0 then m' == m && mm == 0
            else q !in m.live && m'.live == m.live[q := size] && Keeps(m, m')
                 && Freeable(m', q) && size <= Capacity(m', q)
  {
    hide IsBlock, Block, Total, PageOf, PageAligned, Extent, Apart, AllocSmall, BlockSize, LargePages, Held;
    if size <= SMALL_MAX {
      AllocSmallLive(m, ArenaFor(size), size, mm);
    } else if mm != 0 {
      MallocLargeLive(m, size, mm);
    }
  }

  ghost function Realloc(m: Model, b: nat, size: nat, mm: nat): (r: (Model, nat))
    requires Inv(m) && (b == 0 || Freeable(m, b)) && Mmap(m, MallocPages(size), mm)
    ensures Inv(r.0)
  {
    if b == 0 then Malloc(m, size, mm)
    else if size <= Capacity(m, b) then ResizeInv(m, b, size); (Resize(m, b, size), b)
    else
      var (m1, q) := Malloc(m, size, mm);
      if q == 0 then (m, 0)
      else MallocLive(m, size, mm); (Free(m1, b), q)
  }
}
