/** The price-level index as a value: page arena, roots, owners, page and book summaries and
    both bitmap tiers, with the invariant that ties them to the resident levels. */
module PriceIndex {
  import opened Types
  import opened BookTypes
  import opened FiniteSets
  import PB = PriceBitmap

  const PARTS: nat := 0x1_0000
  const LOCATES: nat := 0x1_0000
  const ROOT_SLOTS: nat := 0x1_0000_0000

  type Side = s: OrderSide | s != NoSide witness Buy

  // ----- Prices ------------------------------------------------------------------------

  function PageOf(raw: u32): u16 { raw / PARTS }
  function LevelOf(raw: u32): u16 { raw % PARTS }
  function JoinPrice(page: u16, level: u16): u32 { page * PARTS + level }
  function RootIndex(locate: u16, page: u16): (r: nat)
    ensures r < ROOT_SLOTS
  {
    locate * PARTS + page
  }

  /** Splitting and joining are inverse. */
  lemma SplitJoin(page: u16, level: u16, raw: u32)
    ensures PageOf(JoinPrice(page, level)) == page && LevelOf(JoinPrice(page, level)) == level
    ensures JoinPrice(PageOf(raw), LevelOf(raw)) == raw
  {
  }

  lemma RootIndexInjective(l1: u16, p1: u16, l2: u16, p2: u16)
    requires RootIndex(l1, p1) == RootIndex(l2, p2)
    ensures l1 == l2 && p1 == p2
  {
  }

  // ----- Records -----------------------------------------------------------------------

  datatype Level = Level(total: u64, count: u32)

  const NO_LEVEL: Level := Level(0, 0)

  datatype Pair<T> = Pair(buy: T, sell: T) {
    function Get(s: Side): T { if s == Buy then buy else sell }
    function Put(s: Side, v: T): Pair<T> { if s == Buy then Pair(v, sell) else Pair(buy, v) }
  }

  datatype PageOwner = PageOwner(locate: u16, page: u16, committed: bool)
  datatype PageSummary = PageSummary(best: u32, active: u32)
  datatype BookSummary = BookSummary(bestRaw: u32, bestHandle: u32, activePages: u32)
  datatype Address = Address(handle: u32, level: u16)

  datatype Arena = Arena(
    capacity: nat,
    committed: u32,
    roots: seq<u32>,
    prepared: seq<bool>,
    pages: seq<Pair<seq<Level>>>,
    owners: seq<PageOwner>,
    pageSums: seq<Pair<PageSummary>>,
    pageOcc: seq<PB.Storage>,
    bookSums: seq<Pair<BookSummary>>,
    bookOcc: seq<PB.Storage>)

  function SideIndex(s: Side): (r: nat) ensures r < 2 { if s == Buy then 0 else 1 }

  ghost predicate Shape(a: Arena) {
    && 1 <= a.capacity < U32_MAX && a.committed <= a.capacity
    && |a.roots| == ROOT_SLOTS && |a.prepared| == LOCATES
    && |a.pages| == a.capacity
    && |a.owners| == |a.pageSums| == a.capacity + 1
    && |a.pageOcc| == 2 * (a.capacity + 1)
    && |a.bookSums| == LOCATES && |a.bookOcc| == 2 * LOCATES
    && (forall r :: 0 <= r < |a.roots| ==> a.roots[r] <= a.committed)
    && (forall h, s: Side :: 0 <= h < |a.pages| ==> |a.pages[h].Get(s)| == PARTS)
  }

  function Levels(a: Arena, h: u32, s: Side): seq<Level>
    requires 1 <= h <= |a.pages|
  {
    a.pages[h - 1].Get(s)
  }

  function PageSum(a: Arena, h: u32, s: Side): PageSummary
    requires h < |a.pageSums|
  {
    a.pageSums[h].Get(s)
  }

  function PageOcc(a: Arena, h: u32, s: Side): PB.Storage
    requires 2 * h + 1 < |a.pageOcc|
  {
    a.pageOcc[2 * h + SideIndex(s)]
  }

  function BookSum(a: Arena, l: u16, s: Side): BookSummary
    requires |a.bookSums| == LOCATES
  {
    a.bookSums[l].Get(s)
  }

  function BookOcc(a: Arena, l: u16, s: Side): PB.Storage
    requires |a.bookOcc| == 2 * LOCATES
  {
    a.bookOcc[2 * l + SideIndex(s)]
  }

  function Root(a: Arena, l: u16, p: u16): u32
    requires |a.roots| == ROOT_SLOTS
  {
    a.roots[RootIndex(l, p)]
  }

  /** The aggregate at a price: the reference view of the whole index. */
  function LevelAt(a: Arena, l: u16, s: Side, raw: u32): Level
    requires Shape(a)
  {
    var h := Root(a, l, PageOf(raw));
    if h == INVALID_HANDLE then NO_LEVEL else Levels(a, h, s)[LevelOf(raw)]
  }

  // ----- Order of prices ---------------------------------------------------------------

  predicate Better(s: Side, x: int, y: int) {
    if s == Buy then x > y else x < y
  }

  ghost predicate IsBest(xs: set<nat>, s: Side, b: nat) {
    b in xs && forall x :: x in xs && x != b ==> Better(s, b, x)
  }

  /** `b` is the best member strictly worse than `from`. */
  ghost predicate IsNext(xs: set<nat>, s: Side, from: nat, b: nat) {
    && b in xs && Better(s, from, b)
    && forall x :: x in xs && Better(s, from, x) && x != b ==> Better(s, b, x)
  }

  ghost predicate NothingWorse(xs: set<nat>, s: Side, from: nat) {
    forall x :: x in xs ==> !Better(s, from, x)
  }

  // ----- Invariant ---------------------------------------------------------------------

  ghost function ActiveLevels(levels: seq<Level>): set<nat> {
    set i: nat | i < |levels| && levels[i].count != 0
  }

  ghost predicate LevelOk(v: Level) {
    v.count == 0 <==> v.total == 0
  }

  /** A page's summary and bitmap describe its active levels; the bitmap stays empty until
      there are two of them. */
  ghost predicate PageOk(levels: seq<Level>, sum: PageSummary, bits: set<nat>, s: Side) {
    && |levels| == PARTS
    && (forall i :: 0 <= i < |levels| ==> LevelOk(levels[i]))
    && SummaryOk(ActiveLevels(levels), sum, bits, s)
  }

  ghost predicate SummaryOk(active: set<nat>, sum: PageSummary, bits: set<nat>, s: Side) {
    && sum.active == |active|
    && sum.best < PARTS
    && (active != {} ==> IsBest(active, s, sum.best))
    && bits == if sum.active <= 1 then {} else active
  }

  ghost function ActivePages(a: Arena, l: u16, s: Side): set<nat>
    requires Shape(a)
  {
    set p: u16 | 0 <= p < PARTS && Root(a, l, p) != INVALID_HANDLE && PageSum(a, Root(a, l, p), s).active != 0
  }

  /** A book's summary and bitmap describe its active pages, and the cached best is the best
      level of the best page. */
  ghost predicate BookOk(a: Arena, l: u16, s: Side)
    requires Shape(a)
  {
    var pages := ActivePages(a, l, s);
    var sum := BookSum(a, l, s);
    && sum.activePages == |pages|
    && PB.Bits(BookOcc(a, l, s)) == pages
    && (pages == {} ==> sum.bestHandle == INVALID_HANDLE)
    && (pages != {} ==>
         && IsBest(pages, s, PageOf(sum.bestRaw))
         && sum.bestHandle == Root(a, l, PageOf(sum.bestRaw))
         && LevelOf(sum.bestRaw) == PageSum(a, sum.bestHandle, s).best)
  }

  /** Roots and owners are inverse to each other on handles 1..committed, and every later
      handle is blank. */
  ghost predicate OwnersOk(a: Arena)
    requires Shape(a)
  {
    && (forall h :: 1 <= h <= a.committed ==> OwnerOk(a, h))
    && (forall l: u16, p: u16 :: Root(a, l, p) != INVALID_HANDLE ==>
         var o := a.owners[Root(a, l, p)]; o.locate == l && o.page == p)
    && (forall h :: a.committed < h <= a.capacity ==>
         !a.owners[h].committed && PageSum(a, h, Buy).active == 0 && PageSum(a, h, Sell).active == 0)
  }

  ghost predicate OwnerOk(a: Arena, h: u32)
    requires Shape(a) && 1 <= h <= a.committed
  {
    var o := a.owners[h];
    o.committed && o.locate != 0 && a.prepared[o.locate] && Root(a, o.locate, o.page) == h
  }

  ghost predicate Wf(a: Arena) {
    && Shape(a)
    && OwnersOk(a)
    && (forall k :: 0 <= k < |a.pageOcc| ==> PB.Valid(a.pageOcc[k]))
    && (forall k :: 0 <= k < |a.bookOcc| ==> PB.Valid(a.bookOcc[k]))
    && (forall h: u32, s: Side :: 1 <= h <= a.capacity ==>
         PageOk(Levels(a, h, s), PageSum(a, h, s), PB.Bits(PageOcc(a, h, s)), s))
    && (forall l: u16, s: Side :: BookOk(a, l, s))
  }

  // ----- One page and one book change ---------------------------------------------------

  /** The arena after one page side and its book side were rewritten. */
  function Poke(a: Arena, h: u32, s: Side, lv: seq<Level>, ps: PageSummary, po: PB.Storage,
                bs: BookSummary, bo: PB.Storage): Arena
    requires Shape(a) && 1 <= h <= a.committed
  {
    var l := a.owners[h].locate;
    a.(pages := a.pages[h - 1 := a.pages[h - 1].Put(s, lv)],
       pageSums := a.pageSums[h := a.pageSums[h].Put(s, ps)],
       pageOcc := a.pageOcc[2 * h + SideIndex(s) := po],
       bookSums := a.bookSums[l := a.bookSums[l].Put(s, bs)],
       bookOcc := a.bookOcc[2 * l + SideIndex(s) := bo])
  }

  /** What a poke leaves alone and what it sets. */
  lemma PokeFrame(a: Arena, h: u32, s: Side, lv: seq<Level>, ps: PageSummary, po: PB.Storage,
                  bs: BookSummary, bo: PB.Storage)
    requires Shape(a) && 1 <= h <= a.committed && |lv| == PARTS
    ensures var a' := Poke(a, h, s, lv, ps, po, bs, bo); var l := a.owners[h].locate;
            && Shape(a')
            && (forall h': u32, s': Side :: 1 <= h' <= a.capacity ==>
                 && Levels(a', h', s') == (if h' == h && s' == s then lv else Levels(a, h', s'))
                 && PageSum(a', h', s') == (if h' == h && s' == s then ps else PageSum(a, h', s'))
                 && PageOcc(a', h', s') == (if h' == h && s' == s then po else PageOcc(a, h', s')))
            && (forall l': u16, s': Side ::
                 && BookSum(a', l', s') == (if l' == l && s' == s then bs else BookSum(a, l', s'))
                 && BookOcc(a', l', s') == (if l' == l && s' == s then bo else BookOcc(a, l', s')))
            && (forall l': u16, p: u16 :: Root(a', l', p) == Root(a, l', p))
  {
    var a' := Poke(a, h, s, lv, ps, po, bs, bo);
    forall k, s': Side | 0 <= k < |a'.pages| ensures |a'.pages[k].Get(s')| == PARTS {
      assert |a.pages[k].Get(s')| == PARTS;
    }
  }

  /** The active pages after a poke. */
  lemma PokePages(a: Arena, h: u32, s: Side, lv: seq<Level>, ps: PageSummary, po: PB.Storage,
                  bs: BookSummary, bo: PB.Storage, l': u16, s': Side)
    requires Shape(a) && OwnersOk(a) && 1 <= h <= a.committed && |lv| == PARTS
    ensures var a' := Poke(a, h, s, lv, ps, po, bs, bo); var o := a.owners[h];
            Shape(a') &&
            ActivePages(a', l', s') ==
              if l' == o.locate && s' == s then
                (if ps.active != 0 then ActivePages(a, l', s') + {o.page} else ActivePages(a, l', s') - {o.page})
              else ActivePages(a, l', s')
  {
    PokeFrame(a, h, s, lv, ps, po, bs, bo);
    var a' := Poke(a, h, s, lv, ps, po, bs, bo);
    assert OwnerOk(a, h);
    hide Poke, Levels, PageSum, PageOcc, BookSum, BookOcc, Root;
    var o := a.owners[h];
    forall p: u16 ensures Root(a, l', p) == h <==> l' == o.locate && p == o.page {
    }
  }

  /** A poke that leaves its page and its book in order leaves the index in order. */
  lemma PokeWf(a: Arena, h: u32, s: Side, lv: seq<Level>, ps: PageSummary, po: PB.Storage,
               bs: BookSummary, bo: PB.Storage)
    requires Wf(a) && 1 <= h <= a.committed
    requires PB.Valid(po) && PB.Valid(bo) && PageOk(lv, ps, PB.Bits(po), s)
    requires var a' := Poke(a, h, s, lv, ps, po, bs, bo);
             Shape(a') && BookOk(a', a.owners[h].locate, s)
    ensures Wf(Poke(a, h, s, lv, ps, po, bs, bo))
  {
    hide PB.Valid, PB.Bits, Poke, Levels, PageSum, PageOcc, BookSum, BookOcc, Root, ActivePages, OwnersOk, SummaryOk;
    var a' := Poke(a, h, s, lv, ps, po, bs, bo);
    PokeFrame(a, h, s, lv, ps, po, bs, bo);
    PokeDirectory(a, h, s, lv, ps, po, bs, bo);
    forall l': u16, s': Side ensures BookOk(a', l', s') {
      if l' != a.owners[h].locate || s' != s {
        PokeOtherBook(a, h, s, lv, ps, po, bs, bo, l', s');
      }
    }
  }

  /** A poke leaves the owners and every bitmap in order. */
  lemma PokeDirectory(a: Arena, h: u32, s: Side, lv: seq<Level>, ps: PageSummary, po: PB.Storage,
                      bs: BookSummary, bo: PB.Storage)
    requires Wf(a) && 1 <= h <= a.committed && PB.Valid(po) && PB.Valid(bo) && |lv| == PARTS
    requires var a' := Poke(a, h, s, lv, ps, po, bs, bo); Shape(a')
    ensures var a' := Poke(a, h, s, lv, ps, po, bs, bo);
            && a'.capacity == a.capacity && OwnersOk(a')
            && (forall k :: 0 <= k < |a'.pageOcc| ==> PB.Valid(a'.pageOcc[k]))
            && (forall k :: 0 <= k < |a'.bookOcc| ==> PB.Valid(a'.bookOcc[k]))
  {
    hide PB.Valid, PB.Bits, PageOk, BookOk, ActivePages;
    var a' := Poke(a, h, s, lv, ps, po, bs, bo);
    PokeFrame(a, h, s, lv, ps, po, bs, bo);
    forall h' | 1 <= h' <= a'.committed ensures OwnerOk(a', h') {
      assert OwnerOk(a, h');
    }
  }

  lemma PokeOtherBook(a: Arena, h: u32, s: Side, lv: seq<Level>, ps: PageSummary, po: PB.Storage,
                      bs: BookSummary, bo: PB.Storage, l': u16, s': Side)
    requires Wf(a) && 1 <= h <= a.committed && |lv| == PARTS
    requires l' != a.owners[h].locate || s' != s
    ensures var a' := Poke(a, h, s, lv, ps, po, bs, bo); Shape(a') && BookOk(a', l', s')
  {
    PokeFrame(a, h, s, lv, ps, po, bs, bo);
    PokePages(a, h, s, lv, ps, po, bs, bo, l', s');
    assert BookOk(a, l', s');
    assert OwnerOk(a, h);
    hide PB.Valid, PB.Bits, Poke, Levels, PageSum, PageOcc, BookSum, BookOcc, Root, PageOk, ActivePages;
  }

  /** The levels after a poke: only the poked side of the poked page changed. */
  lemma PokeLevels(a: Arena, h: u32, s: Side, lv: seq<Level>, ps: PageSummary, po: PB.Storage,
                   bs: BookSummary, bo: PB.Storage, l': u16, s': Side, raw: u32)
    requires Shape(a) && OwnersOk(a) && 1 <= h <= a.committed && |lv| == PARTS
    ensures var a' := Poke(a, h, s, lv, ps, po, bs, bo); var o := a.owners[h];
            Shape(a') &&
            LevelAt(a', l', s', raw) ==
              if l' == o.locate && s' == s && PageOf(raw) == o.page then lv[LevelOf(raw)] else LevelAt(a, l', s', raw)
  {
    PokeFrame(a, h, s, lv, ps, po, bs, bo);
    assert OwnerOk(a, h);
    hide Poke, Levels, PageSum, PageOcc, BookSum, BookOcc, Root;
  }

  // ----- Activating a level -------------------------------------------------------------

  function ActivateSum(ps: PageSummary, s: Side, i: u16): PageSummary
    requires ps.active < U32_MAX
  {
    PageSummary(if ps.active == 0 || Better(s, i, ps.best) then i else ps.best, ps.active + 1)
  }

  /** The page bitmap is materialized on the step from one to two active levels. */
  function ActivateOcc(ps: PageSummary, po: PB.Storage, i: u16): PB.Storage
    requires ps.best < PARTS
  {
    if ps.active == 1 then PB.SetBit(PB.SetBit(po, ps.best), i)
    else if ps.active > 1 then PB.SetBit(po, i)
    else po
  }

  function ActivateBookSum(bs: BookSummary, ps: PageSummary, s: Side, raw: u32, h: u32): BookSummary
    requires bs.activePages < U32_MAX
  {
    var pages := if ps.active == 0 then bs.activePages + 1 else bs.activePages;
    if bs.activePages == 0 || bs.bestHandle == INVALID_HANDLE || Better(s, raw, bs.bestRaw)
    then BookSummary(raw, h, pages)
    else BookSummary(bs.bestRaw, bs.bestHandle, pages)
  }

  function ActivateBookOcc(bo: PB.Storage, ps: PageSummary, page: u16): PB.Storage {
    if ps.active == 0 then PB.SetBit(bo, page) else bo
  }

  /** The arena after level `i` of page side (h, s) went from empty to `v`. */
  function Activated(a: Arena, h: u32, s: Side, i: u16, v: Level): Arena
    requires Shape(a) && 1 <= h <= a.committed
    requires PageSum(a, h, s).best < PARTS && PageSum(a, h, s).active < U32_MAX
    requires BookSum(a, a.owners[h].locate, s).activePages < U32_MAX
  {
    var o := a.owners[h];
    var ps := PageSum(a, h, s);
    Poke(a, h, s, Levels(a, h, s)[i := v], ActivateSum(ps, s, i), ActivateOcc(ps, PageOcc(a, h, s), i),
         ActivateBookSum(BookSum(a, o.locate, s), ps, s, JoinPrice(o.page, i), h),
         ActivateBookOcc(BookOcc(a, o.locate, s), ps, o.page))
  }

  lemma ActiveLevelsPut(lv: seq<Level>, i: nat, v: Level)
    requires i < |lv|
    ensures ActiveLevels(lv[i := v]) == if v.count != 0 then ActiveLevels(lv) + {i} else ActiveLevels(lv) - {i}
  {
  }

  /** There are at most PARTS active levels, and fewer while one is inactive. */
  lemma ActiveLevelsBound(lv: seq<Level>, i: nat)
    requires |lv| == PARTS && i < PARTS
    ensures |ActiveLevels(lv)| <= PARTS
    ensures lv[i].count == 0 ==> |ActiveLevels(lv)| < PARTS
  {
    BoundedSize(ActiveLevels(lv), PARTS, i);
  }

  lemma ActivePagesBound(a: Arena, l: u16, s: Side, p: nat)
    requires Shape(a) && p < PARTS
    ensures |ActivePages(a, l, s)| <= PARTS
    ensures p !in ActivePages(a, l, s) ==> |ActivePages(a, l, s)| < PARTS
  {
    hide Root, PageSum;
    BoundedSize(ActivePages(a, l, s), PARTS, p);
  }

  lemma SingletonOnly(xs: set<nat>, x: nat)
    requires |xs| == 1 && x in xs
    ensures xs == {x}
  {
    assert |xs - {x}| == 0;
  }

  lemma PageActivate(lv: seq<Level>, ps: PageSummary, po: PB.Storage, s: Side, i: u16, v: Level)
    requires PageOk(lv, ps, PB.Bits(po), s) && PB.Valid(po)
    requires lv[i].count == 0 && v.count != 0 && LevelOk(v)
    ensures ps.active < PARTS
    ensures PB.Valid(ActivateOcc(ps, po, i))
    ensures PageOk(lv[i := v], ActivateSum(ps, s, i), PB.Bits(ActivateOcc(ps, po, i)), s)
  {
    hide PB.Valid, PB.Bits, SummaryOk;
    ActiveLevelsPut(lv, i, v);
    ActiveLevelsBound(lv, i);
    SummaryActivate(ActiveLevels(lv), ps, po, s, i);
  }

  lemma SummaryActivate(active: set<nat>, ps: PageSummary, po: PB.Storage, s: Side, i: u16)
    requires SummaryOk(active, ps, PB.Bits(po), s) && PB.Valid(po) && |active| < PARTS && i !in active
    ensures ps.active < PARTS && ps.best < PARTS
    ensures PB.Valid(ActivateOcc(ps, po, i))
    ensures SummaryOk(active + {i}, ActivateSum(ps, s, i), PB.Bits(ActivateOcc(ps, po, i)), s)
  {
    hide PB.Valid, PB.Bits, PB.SetBit;
    if ps.active == 1 {
      SingletonOnly(active, ps.best);
      PB.SetBitAddsOne(po, ps.best);
      PB.SetBitAddsOne(PB.SetBit(po, ps.best), i);
      assert PB.Bits(PB.SetBit(PB.SetBit(po, ps.best), i)) == active + {i};
    } else if ps.active > 1 {
      PB.SetBitAddsOne(po, i);
    }
  }

  /** What a poke did to the page and book it touched and to page handle `g`. */
  lemma PokeGets(a: Arena, h: u32, s: Side, lv: seq<Level>, ps: PageSummary, po: PB.Storage,
                 bs: BookSummary, bo: PB.Storage, g: u32, p: u16)
    requires Shape(a) && 1 <= h <= a.committed && |lv| == PARTS && g <= a.capacity
    ensures var a' := Poke(a, h, s, lv, ps, po, bs, bo); var l := a.owners[h].locate;
            && Shape(a') && BookSum(a', l, s) == bs && BookOcc(a', l, s) == bo
            && PageSum(a', g, s) == (if g == h then ps else PageSum(a, g, s))
            && Root(a', l, p) == Root(a, l, p)
  {
    PokeFrame(a, h, s, lv, ps, po, bs, bo);
  }

  lemma BookOkIntro(a: Arena, l: u16, s: Side, pages: set<nat>, sum: BookSummary)
    requires Shape(a) && pages == ActivePages(a, l, s) == PB.Bits(BookOcc(a, l, s)) && sum == BookSum(a, l, s)
    requires sum.activePages == |pages|
    requires pages == {} ==> sum.bestHandle == INVALID_HANDLE
    requires pages != {} ==>
               && IsBest(pages, s, PageOf(sum.bestRaw))
               && sum.bestHandle == Root(a, l, PageOf(sum.bestRaw))
               && LevelOf(sum.bestRaw) == PageSum(a, sum.bestHandle, s).best
    ensures BookOk(a, l, s)
  {
  }

  /** The cached book best after page `page` gained level `i`. */
  lemma BestAfterActivate(pages: set<nat>, bs: BookSummary, ps: PageSummary, s: Side, page: u16, i: u16, h: u32)
    requires bs.activePages == |pages| < U32_MAX && ps.active < U32_MAX
    requires pages != {} ==> IsBest(pages, s, PageOf(bs.bestRaw)) && bs.bestHandle != INVALID_HANDLE
    requires page in pages <==> ps.active != 0
    requires pages != {} && PageOf(bs.bestRaw) == page ==> bs.bestHandle == h && LevelOf(bs.bestRaw) == ps.best
    ensures var bs' := ActivateBookSum(bs, ps, s, JoinPrice(page, i), h);
            && IsBest(pages + {page}, s, PageOf(bs'.bestRaw))
            && bs'.activePages == |pages + {page}|
            && if bs'.bestHandle == h && PageOf(bs'.bestRaw) == page
               then LevelOf(bs'.bestRaw) == ActivateSum(ps, s, i).best
               else
                 pages != {} && PageOf(bs.bestRaw) != page && bs'.bestRaw == bs.bestRaw &&
                 bs'.bestHandle == bs.bestHandle
  {
    SplitJoin(page, i, bs.bestRaw);
    if page in pages { assert pages + {page} == pages; }
  }

  /** What the invariant says about one page side and the book side it belongs to. */
  lemma BookFacts(a: Arena, h: u32, s: Side)
    requires Wf(a) && 1 <= h <= a.committed
    ensures Shape(a) && OwnersOk(a)
    ensures var o := a.owners[h];
            && o.committed && o.locate != 0 && a.prepared[o.locate] && Root(a, o.locate, o.page) == h
            && |Levels(a, h, s)| == PARTS
            && PageOk(Levels(a, h, s), PageSum(a, h, s), PB.Bits(PageOcc(a, h, s)), s)
            && PB.Valid(PageOcc(a, h, s)) && PB.Valid(BookOcc(a, o.locate, s))
            && PageSum(a, h, s).best < PARTS && PageSum(a, h, s).active <= PARTS
    ensures var o := a.owners[h]; var pages := ActivePages(a, o.locate, s); var bs := BookSum(a, o.locate, s);
            && bs.activePages == |pages| <= PARTS
            && PB.Bits(BookOcc(a, o.locate, s)) == pages
            && (o.page in pages <==> PageSum(a, h, s).active != 0)
            && (o.page !in pages ==> |pages| < PARTS)
            && (pages == {} ==> bs.bestHandle == INVALID_HANDLE)
            && (pages != {} ==>
                 && 1 <= bs.bestHandle <= a.committed
                 && IsBest(pages, s, PageOf(bs.bestRaw))
                 && bs.bestHandle == Root(a, o.locate, PageOf(bs.bestRaw))
                 && PageSum(a, bs.bestHandle, s).active != 0
                 && LevelOf(bs.bestRaw) == PageSum(a, bs.bestHandle, s).best
                 && (PageOf(bs.bestRaw) == o.page <==> bs.bestHandle == h))
  {
    hide PB.Valid, PB.Bits;
    var o := a.owners[h];
    assert OwnerOk(a, h);
    assert BookOk(a, o.locate, s);
    ActiveLevelsBound(Levels(a, h, s), 0);
    ActivePagesBound(a, o.locate, s, o.page);
    assert ActivePages(a, o.locate, s) != {} ==>
        PageOf(BookSum(a, o.locate, s).bestRaw) in ActivePages(a, o.locate, s);
  }

  lemma BookActivate(a: Arena, h: u32, s: Side, i: u16, v: Level)
    requires Wf(a) && 1 <= h <= a.committed
    requires PageSum(a, h, s).best < PARTS && PageSum(a, h, s).active < U32_MAX
    ensures BookSum(a, a.owners[h].locate, s).activePages < U32_MAX
    ensures PB.Valid(ActivateBookOcc(BookOcc(a, a.owners[h].locate, s), PageSum(a, h, s), a.owners[h].page))
    ensures var a' := Activated(a, h, s, i, v); Shape(a') && BookOk(a', a.owners[h].locate, s)
  {
    hide Wf, OwnersOk, PB.Valid, PB.Bits, PB.SetBit, ActivePages, Poke, PageSum, BookSum, BookOcc, Root, Levels;
    hide PageOcc, PageOk, BookOk, IsBest;
    BookFacts(a, h, s);
    var o := a.owners[h];
    var l := o.locate;
    var lv, ps, po := Levels(a, h, s), PageSum(a, h, s), PageOcc(a, h, s);
    var bs, bo := BookSum(a, l, s), BookOcc(a, l, s);
    var pages := ActivePages(a, l, s);
    PB.SetBitAddsOne(bo, o.page);
    if ps.active != 0 { assert pages + {o.page} == pages; }
    var ps', po' := ActivateSum(ps, s, i), ActivateOcc(ps, po, i);
    var bs', bo' := ActivateBookSum(bs, ps, s, JoinPrice(o.page, i), h), ActivateBookOcc(bo, ps, o.page);
    BestAfterActivate(pages, bs, ps, s, o.page, i, h);
    PokeGets(a, h, s, lv[i := v], ps', po', bs', bo', bs'.bestHandle, PageOf(bs'.bestRaw));
    PokePages(a, h, s, lv[i := v], ps', po', bs', bo', l, s);
    BookOkIntro(Poke(a, h, s, lv[i := v], ps', po', bs', bo'), l, s, pages + {o.page}, bs');
  }

  /** Activating a level keeps the index in order and changes exactly that level. */
  lemma ActivatedWf(a: Arena, h: u32, s: Side, i: u16, v: Level)
    requires Wf(a) && 1 <= h <= a.committed
    requires Levels(a, h, s)[i].count == 0 && v.count != 0 && LevelOk(v)
    ensures PageSum(a, h, s).best < PARTS && PageSum(a, h, s).active < PARTS
    ensures BookSum(a, a.owners[h].locate, s).activePages < U32_MAX
    ensures PageSum(a, h, s).active == 0 ==> BookSum(a, a.owners[h].locate, s).activePages < PARTS
    ensures Wf(Activated(a, h, s, i, v))
  {
    hide Wf, OwnersOk, PB.Valid, PB.Bits, PB.SetBit, ActivePages, Poke, PageSum, BookSum, BookOcc, Root, Levels;
    hide PageOcc, PageOk, BookOk;
    BookFacts(a, h, s);
    var o := a.owners[h];
    var lv, ps, po := Levels(a, h, s), PageSum(a, h, s), PageOcc(a, h, s);
    var bs, bo := BookSum(a, o.locate, s), BookOcc(a, o.locate, s);
    PageActivate(lv, ps, po, s, i, v);
    BookActivate(a, h, s, i, v);
    PokeWf(a, h, s, lv[i := v], ActivateSum(ps, s, i), ActivateOcc(ps, po, i),
           ActivateBookSum(bs, ps, s, JoinPrice(o.page, i), h), ActivateBookOcc(bo, ps, o.page));
  }

  // ----- Changing an active level -------------------------------------------------------

  /** The arena after an active level's aggregate changed without becoming empty. */
  function Adjusted(a: Arena, h: u32, s: Side, i: u16, v: Level): Arena
    requires Shape(a) && 1 <= h <= a.committed
  {
    a.(pages := a.pages[h - 1 := a.pages[h - 1].Put(s, Levels(a, h, s)[i := v])])
  }

  lemma AdjustedIsPoke(a: Arena, h: u32, s: Side, i: u16, v: Level)
    requires Shape(a) && 1 <= h <= a.committed
    ensures var l := a.owners[h].locate;
            Adjusted(a, h, s, i, v) == Poke(a, h, s, Levels(a, h, s)[i := v], PageSum(a, h, s), PageOcc(a, h, s),
                                            BookSum(a, l, s), BookOcc(a, l, s))
  {
  }

  lemma AdjustedWf(a: Arena, h: u32, s: Side, i: u16, v: Level)
    requires Wf(a) && 1 <= h <= a.committed
    requires Levels(a, h, s)[i].count != 0 && v.count != 0 && LevelOk(v)
    ensures Wf(Adjusted(a, h, s, i, v))
  {
    hide Wf, OwnersOk, PB.Valid, PB.Bits, ActivePages, Poke, Adjusted, PageSum, BookSum, BookOcc, Root, Levels, PageOcc;
    hide PageOk, BookOk;
    BookFacts(a, h, s);
    var o := a.owners[h];
    var lv, ps, po := Levels(a, h, s), PageSum(a, h, s), PageOcc(a, h, s);
    var bs, bo := BookSum(a, o.locate, s), BookOcc(a, o.locate, s);
    var pages := ActivePages(a, o.locate, s);
    AdjustedIsPoke(a, h, s, i, v);
    PageAdjust(lv, ps, PB.Bits(po), s, i, v);
    assert pages + {o.page} == pages;
    PokeGets(a, h, s, lv[i := v], ps, po, bs, bo, bs.bestHandle, PageOf(bs.bestRaw));
    PokePages(a, h, s, lv[i := v], ps, po, bs, bo, o.locate, s);
    BookOkIntro(Poke(a, h, s, lv[i := v], ps, po, bs, bo), o.locate, s, pages, bs);
    PokeWf(a, h, s, lv[i := v], ps, po, bs, bo);
  }

  lemma PageAdjust(lv: seq<Level>, ps: PageSummary, bits: set<nat>, s: Side, i: u16, v: Level)
    requires PageOk(lv, ps, bits, s) && lv[i].count != 0 && v.count != 0 && LevelOk(v)
    ensures PageOk(lv[i := v], ps, bits, s) && ps.active != 0
  {
    ActiveLevelsPut(lv, i, v);
    assert ActiveLevels(lv[i := v]) == ActiveLevels(lv);
  }

  // ----- Deactivating a level -----------------------------------------------------------

  /** What removing the last order of a level will change, worked out before any change. */
  datatype Plan = Plan(nextLevel: u32, nextBookRaw: u32, nextBookHandle: u32,
                       pageBecomesEmpty: bool, pageBestChanges: bool, bookBestChanges: bool)

  const BLANK_PLAN: Plan := Plan(PB.INVALID, 0, INVALID_HANDLE, false, false, false)

  ghost predicate PagePlanOk(active: set<nat>, ps: PageSummary, s: Side, i: u16, plan: Plan) {
    && (plan.pageBecomesEmpty <==> ps.active == 1)
    && (plan.pageBestChanges <==> ps.active > 1 && ps.best == i)
    && (plan.pageBestChanges ==> plan.nextLevel < PARTS && IsBest(active - {i}, s, plan.nextLevel))
  }

  ghost predicate BookPlanOk(a: Arena, h: u32, s: Side, i: u16, plan: Plan)
    requires Shape(a) && 1 <= h <= a.committed
  {
    var o := a.owners[h];
    var pages := ActivePages(a, o.locate, s);
    var bs := BookSum(a, o.locate, s);
    && (plan.bookBestChanges <==> bs.bestRaw == JoinPrice(o.page, i))
    && (plan.bookBestChanges ==>
         if !plan.pageBecomesEmpty then
           plan.pageBestChanges && plan.nextLevel < PARTS &&
           plan.nextBookRaw == JoinPrice(o.page, plan.nextLevel) && plan.nextBookHandle == h
         else if |pages| == 1 then
           plan.nextBookRaw == 0 && plan.nextBookHandle == INVALID_HANDLE
         else
           && IsBest(pages - {o.page}, s, PageOf(plan.nextBookRaw))
           && plan.nextBookHandle == Root(a, o.locate, PageOf(plan.nextBookRaw)) != INVALID_HANDLE
           && PageSum(a, plan.nextBookHandle, s).best == LevelOf(plan.nextBookRaw))
  }

  ghost predicate PlanOk(a: Arena, h: u32, s: Side, i: u16, plan: Plan)
    requires Shape(a) && 1 <= h <= a.committed
  {
    PagePlanOk(ActiveLevels(Levels(a, h, s)), PageSum(a, h, s), s, i, plan) && BookPlanOk(a, h, s, i, plan)
  }

  function DeactivateSum(ps: PageSummary, plan: Plan): PageSummary
    requires ps.active > 0
  {
    if plan.pageBecomesEmpty then PageSummary(0, 0)
    else PageSummary(if plan.pageBestChanges then plan.nextLevel else ps.best, ps.active - 1)
  }

  /** The page bitmap collapses on the step from two to one active level. */
  function DeactivateOcc(ps: PageSummary, po: PB.Storage, plan: Plan, i: u16): PB.Storage
    requires ps.active > 0 && DeactivateSum(ps, plan).best < PARTS
  {
    if plan.pageBecomesEmpty then po else
    var po1 := PB.ResetBit(po, i);
    if DeactivateSum(ps, plan).active == 1 then PB.ResetBit(po1, DeactivateSum(ps, plan).best) else po1
  }

  function DeactivateBookSum(bs: BookSummary, plan: Plan): BookSummary
    requires bs.activePages > 0
  {
    var pages := if plan.pageBecomesEmpty then bs.activePages - 1 else bs.activePages;
    if plan.bookBestChanges then BookSummary(plan.nextBookRaw, plan.nextBookHandle, pages)
    else BookSummary(bs.bestRaw, bs.bestHandle, pages)
  }

  function DeactivateBookOcc(bo: PB.Storage, plan: Plan, page: u16): PB.Storage {
    if plan.pageBecomesEmpty then PB.ResetBit(bo, page) else bo
  }

  /** The arena after level `i` of page side (h, s) became empty as planned. */
  function Deactivated(a: Arena, h: u32, s: Side, i: u16, plan: Plan): Arena
    requires Shape(a) && 1 <= h <= a.committed
    requires PageSum(a, h, s).active > 0 && DeactivateSum(PageSum(a, h, s), plan).best < PARTS
    requires BookSum(a, a.owners[h].locate, s).activePages > 0
  {
    var o := a.owners[h];
    var ps := PageSum(a, h, s);
    Poke(a, h, s, Levels(a, h, s)[i := NO_LEVEL], DeactivateSum(ps, plan),
         DeactivateOcc(ps, PageOcc(a, h, s), plan, i),
         DeactivateBookSum(BookSum(a, o.locate, s), plan),
         DeactivateBookOcc(BookOcc(a, o.locate, s), plan, o.page))
  }

  lemma SummaryDeactivate(active: set<nat>, ps: PageSummary, po: PB.Storage, s: Side, i: u16, plan: Plan)
    requires SummaryOk(active, ps, PB.Bits(po), s) && PB.Valid(po) && i in active
    requires PagePlanOk(active, ps, s, i, plan)
    ensures ps.active > 0 && DeactivateSum(ps, plan).best < PARTS
    ensures PB.Valid(DeactivateOcc(ps, po, plan, i))
    ensures SummaryOk(active - {i}, DeactivateSum(ps, plan), PB.Bits(DeactivateOcc(ps, po, plan, i)), s)
  {
    hide PB.Valid, PB.Bits, PB.ResetBit;
    if ps.active == 1 {
      SingletonOnly(active, i);
    } else {
      assert IsBest(active - {i}, s, DeactivateSum(ps, plan).best);
      PB.ResetBitRemovesOne(po, i);
      if ps.active == 2 {
        var best := DeactivateSum(ps, plan).best;
        SingletonOnly(active - {i}, best);
        PB.ResetBitRemovesOne(PB.ResetBit(po, i), best);
      }
    }
  }

  lemma PageDeactivate(lv: seq<Level>, ps: PageSummary, po: PB.Storage, s: Side, i: u16, plan: Plan)
    requires PageOk(lv, ps, PB.Bits(po), s) && PB.Valid(po) && lv[i].count != 0
    requires PagePlanOk(ActiveLevels(lv), ps, s, i, plan)
    ensures ps.active > 0 && DeactivateSum(ps, plan).best < PARTS
    ensures PB.Valid(DeactivateOcc(ps, po, plan, i))
    ensures PageOk(lv[i := NO_LEVEL], DeactivateSum(ps, plan), PB.Bits(DeactivateOcc(ps, po, plan, i)), s)
  {
    hide PB.Valid, PB.Bits, SummaryOk, PagePlanOk;
    ActiveLevelsPut(lv, i, NO_LEVEL);
    SummaryDeactivate(ActiveLevels(lv), ps, po, s, i, plan);
  }

  /** The cached book best when page `page` loses level `i` that is not the book best. */
  lemma BestSurvives(pages: set<nat>, bs: BookSummary, ps: PageSummary, s: Side, page: u16, i: u16, plan: Plan)
    requires page in pages && IsBest(pages, s, PageOf(bs.bestRaw)) && bs.bestRaw != JoinPrice(page, i) && ps.active > 0
    requires PageOf(bs.bestRaw) == page ==> LevelOf(bs.bestRaw) == ps.best
    requires plan.pageBecomesEmpty ==> ps.best == i
    requires plan.pageBestChanges <==> ps.active > 1 && ps.best == i
    ensures var pages' := if plan.pageBecomesEmpty then pages - {page} else pages;
            && IsBest(pages', s, PageOf(bs.bestRaw))
            && (PageOf(bs.bestRaw) == page ==> LevelOf(bs.bestRaw) == DeactivateSum(ps, plan).best)
  {
    SplitJoin(page, i, bs.bestRaw);
  }

  lemma BookDeactivate(a: Arena, h: u32, s: Side, i: u16, plan: Plan)
    requires Wf(a) && 1 <= h <= a.committed && Levels(a, h, s)[i].count != 0 && PlanOk(a, h, s, i, plan)
    requires PageSum(a, h, s).active > 0 && DeactivateSum(PageSum(a, h, s), plan).best < PARTS
    ensures BookSum(a, a.owners[h].locate, s).activePages > 0
    ensures PB.Valid(DeactivateBookOcc(BookOcc(a, a.owners[h].locate, s), plan, a.owners[h].page))
    ensures var a' := Deactivated(a, h, s, i, plan); Shape(a') && BookOk(a', a.owners[h].locate, s)
  {
    hide Wf, OwnersOk, PB.Valid, PB.Bits, PB.ResetBit, ActivePages, Poke, PageSum, BookSum, BookOcc, Root, Levels;
    hide PageOcc, PageOk, BookOk, IsBest;
    BookFacts(a, h, s);
    var o := a.owners[h];
    var l := o.locate;
    var lv, ps, po := Levels(a, h, s), PageSum(a, h, s), PageOcc(a, h, s);
    var bs, bo := BookSum(a, l, s), BookOcc(a, l, s);
    var pages := ActivePages(a, l, s);
    var pages' := if plan.pageBecomesEmpty then pages - {o.page} else pages;
    assert pages + {o.page} == pages;
    PB.ResetBitRemovesOne(bo, o.page);
    var ps', po' := DeactivateSum(ps, plan), DeactivateOcc(ps, po, plan, i);
    var bs', bo' := DeactivateBookSum(bs, plan), DeactivateBookOcc(bo, plan, o.page);
    SoleLevelIsBest(lv, ps, PB.Bits(po), s, i);
    if plan.bookBestChanges {
      BestReplaced(a, h, s, i, plan);
    } else {
      BestSurvives(pages, bs, ps, s, o.page, i, plan);
    }
    PokeGets(a, h, s, lv[i := NO_LEVEL], ps', po', bs', bo', bs'.bestHandle, PageOf(bs'.bestRaw));
    PokePages(a, h, s, lv[i := NO_LEVEL], ps', po', bs', bo', l, s);
    BookOkIntro(Poke(a, h, s, lv[i := NO_LEVEL], ps', po', bs', bo'), l, s, pages', bs');
  }

  lemma SoleLevelIsBest(lv: seq<Level>, ps: PageSummary, bits: set<nat>, s: Side, i: u16)
    requires PageOk(lv, ps, bits, s) && lv[i].count != 0
    ensures ps.active == 1 ==> ps.best == i
  {
    if ps.active == 1 {
      SingletonOnly(ActiveLevels(lv), i);
    }
  }

  /** The planned replacement of the cached book best is right. */
  lemma BestReplaced(a: Arena, h: u32, s: Side, i: u16, plan: Plan)
    requires Wf(a) && 1 <= h <= a.committed && PlanOk(a, h, s, i, plan) && plan.bookBestChanges
    requires PageSum(a, h, s).active > 0 && DeactivateSum(PageSum(a, h, s), plan).best < PARTS
    ensures var o := a.owners[h]; var pages := ActivePages(a, o.locate, s);
            var pages' := if plan.pageBecomesEmpty then pages - {o.page} else pages;
            && plan.nextBookHandle <= a.committed
            && (pages' == {} ==> plan.nextBookHandle == INVALID_HANDLE)
            && (pages' != {} ==>
                 && IsBest(pages', s, PageOf(plan.nextBookRaw))
                 && plan.nextBookHandle == Root(a, o.locate, PageOf(plan.nextBookRaw))
                 && LevelOf(plan.nextBookRaw) ==
                      if plan.nextBookHandle == h then DeactivateSum(PageSum(a, h, s), plan).best
                      else PageSum(a, plan.nextBookHandle, s).best)
  {
    hide Wf, OwnersOk, PB.Valid, PB.Bits, ActivePages, PageSum, BookSum, BookOcc, Levels, PageOcc, PageOk, BookOk;
    BookFacts(a, h, s);
    var o := a.owners[h];
    var pages := ActivePages(a, o.locate, s);
    SplitJoin(o.page, i, BookSum(a, o.locate, s).bestRaw);
    if !plan.pageBecomesEmpty {
      SplitJoin(o.page, plan.nextLevel, 0);
    } else if |pages| == 1 {
      SingletonOnly(pages, o.page);
    } else {
      RootDistinct(a, h, PageOf(plan.nextBookRaw));
    }
  }

  lemma RootDistinct(a: Arena, h: u32, p: u16)
    requires Wf(a) && 1 <= h <= a.committed && p != a.owners[h].page
    ensures Root(a, a.owners[h].locate, p) != h
  {
    assert OwnerOk(a, h);
  }

  /** Deactivating a level as planned keeps the index in order. */
  lemma DeactivatedWf(a: Arena, h: u32, s: Side, i: u16, plan: Plan)
    requires Wf(a) && 1 <= h <= a.committed && Levels(a, h, s)[i].count != 0 && PlanOk(a, h, s, i, plan)
    ensures PageSum(a, h, s).active > 0 && DeactivateSum(PageSum(a, h, s), plan).best < PARTS
    ensures BookSum(a, a.owners[h].locate, s).activePages > 0
    ensures Wf(Deactivated(a, h, s, i, plan))
  {
    hide Wf, OwnersOk, PB.Valid, PB.Bits, PB.ResetBit, ActivePages, Poke, PageSum, BookSum, BookOcc, Root, Levels;
    hide PageOcc, PageOk, BookOk;
    BookFacts(a, h, s);
    var o := a.owners[h];
    var lv, ps, po := Levels(a, h, s), PageSum(a, h, s), PageOcc(a, h, s);
    var bs, bo := BookSum(a, o.locate, s), BookOcc(a, o.locate, s);
    PageDeactivate(lv, ps, po, s, i, plan);
    BookDeactivate(a, h, s, i, plan);
    PokeWf(a, h, s, lv[i := NO_LEVEL], DeactivateSum(ps, plan), DeactivateOcc(ps, po, plan, i),
           DeactivateBookSum(bs, plan), DeactivateBookOcc(bo, plan, o.page));
  }

  // ----- Committing a page --------------------------------------------------------------

  /** The arena after the next free handle was given to page `p` of book `l`. */
  function PageCommitted(a: Arena, l: u16, p: u16): Arena
    requires Shape(a) && a.committed < a.capacity
  {
    var h := a.committed + 1;
    a.(owners := a.owners[h := PageOwner(l, p, true)], committed := h, roots := a.roots[RootIndex(l, p) := h])
  }

  lemma PageCommittedWf(a: Arena, l: u16, p: u16)
    requires Wf(a) && a.committed < a.capacity && l != 0 && a.prepared[l] && Root(a, l, p) == INVALID_HANDLE
    ensures Wf(PageCommitted(a, l, p))
    ensures forall l': u16, s': Side, raw: u32 ::
              LevelAt(PageCommitted(a, l, p), l', s', raw) == LevelAt(a, l', s', raw)
  {
    hide PB.Valid, PB.Bits, SummaryOk;
    var a' := PageCommitted(a, l, p);
    var h := a'.committed;
    forall l': u16, p': u16 ensures Root(a', l', p') == if l' == l && p' == p then h else Root(a, l', p') {
      if RootIndex(l', p') == RootIndex(l, p) { RootIndexInjective(l', p', l, p); }
    }
    assert Shape(a') by {
      forall k, s': Side | 0 <= k < |a'.pages| ensures |a'.pages[k].Get(s')| == PARTS {
        assert |a.pages[k].Get(s')| == PARTS;
      }
    }
    PageCommittedRest(a, l, p);
  }

  lemma PageCommittedRest(a: Arena, l: u16, p: u16)
    requires Wf(a) && a.committed < a.capacity && l != 0 && a.prepared[l] && Root(a, l, p) == INVALID_HANDLE
    requires var a' := PageCommitted(a, l, p);
             Shape(a') && forall l': u16, p': u16 ::
               Root(a', l', p') == if l' == l && p' == p then a'.committed else Root(a, l', p')
    ensures Wf(PageCommitted(a, l, p))
    ensures forall l': u16, s': Side, raw: u32 ::
              LevelAt(PageCommitted(a, l, p), l', s', raw) == LevelAt(a, l', s', raw)
  {
    hide PB.Valid, PB.Bits, Root;
    var a' := PageCommitted(a, l, p);
    var h := a'.committed;
    forall k: u32, s': Side ensures k <= a.capacity ==> PageSum(a', k, s') == PageSum(a, k, s') {}
    forall k: u32, s': Side ensures 1 <= k <= a.capacity ==>
          PageOk(Levels(a', k, s'), PageSum(a', k, s'), PB.Bits(PageOcc(a', k, s')), s') {
      if 1 <= k <= a.capacity { assert PageOk(Levels(a, k, s'), PageSum(a, k, s'), PB.Bits(PageOcc(a, k, s')), s'); }
    }
    forall k | 1 <= k <= a'.committed ensures OwnerOk(a', k) {
      if k < h { assert OwnerOk(a, k); }
    }
    forall l': u16, p': u16 | Root(a', l', p') != INVALID_HANDLE
      ensures Root(a', l', p') <= a'.capacity
      ensures var o := a'.owners[Root(a', l', p')]; o.locate == l' && o.page == p'
    {
      RootBound(a, l', p');
      RootBound(a', l', p');
    }
    assert OwnersOk(a');
    forall l': u16, s': Side ensures BookOk(a', l', s') {
      assert BookOk(a, l', s');
      assert ActivePages(a', l', s') == ActivePages(a, l', s');
    }
    forall l': u16, s': Side, raw: u32 ensures LevelAt(a', l', s', raw) == LevelAt(a, l', s', raw) {
      if l' == l && PageOf(raw) == p { BlankPage(a, h, s', LevelOf(raw)); }
    }
  }

  lemma RootBound(a: Arena, l: u16, p: u16)
    requires Shape(a)
    ensures Root(a, l, p) <= a.committed
  {
  }

  /** A page without active levels holds nothing at any level. */
  lemma BlankPage(a: Arena, h: u32, s: Side, i: u16)
    requires Wf(a) && 1 <= h <= a.capacity && PageSum(a, h, s).active == 0
    ensures Levels(a, h, s)[i] == NO_LEVEL
  {
    assert PageOk(Levels(a, h, s), PageSum(a, h, s), PB.Bits(PageOcc(a, h, s)), s);
    assert i !in ActiveLevels(Levels(a, h, s));
    assert LevelOk(Levels(a, h, s)[i]);
  }
}
