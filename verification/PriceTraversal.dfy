/** Searching the two bitmap tiers and walking a book side from its best price outwards. */
module PriceTraversal {
  import opened Types
  import opened BookTypes
  import opened FiniteSets
  import opened PriceIndex
  import PB = PriceBitmap

  /** The next set index on the worse side of `i`, or INVALID. */
  function NextIndex(occ: PB.Storage, s: Side, i: u16): nat {
    if s == Buy then
      if i != 0 then PB.FindHighestAtOrBelow(occ, i - 1) else PB.INVALID
    else
      if i != 0xFFFF then PB.FindLowestAtOrAbove(occ, i + 1) else PB.INVALID
  }

  lemma BitsBounded(occ: PB.Storage)
    ensures forall x :: x in PB.Bits(occ) ==> x < PARTS
  {
  }

  lemma NextIndexIsNext(occ: PB.Storage, s: Side, i: u16)
    requires PB.Valid(occ)
    ensures var r := NextIndex(occ, s, i);
            if r == PB.INVALID then NothingWorse(PB.Bits(occ), s, i)
            else r < PARTS && IsNext(PB.Bits(occ), s, i, r)
  {
    hide PB.Valid, PB.Bits, PB.FindHighestAtOrBelow, PB.FindLowestAtOrAbove;
    BitsBounded(occ);
    if s == Buy && i != 0 { PB.FindHighestIsPredecessor(occ, i - 1); }
    if s == Sell && i != 0xFFFF { PB.FindLowestIsSuccessor(occ, i + 1); }
  }

  /** Removing the best member makes the next one best. */
  lemma NextBecomesBest(xs: set<nat>, s: Side, b: nat, r: nat)
    requires IsBest(xs, s, b) && IsNext(xs, s, b, r)
    ensures IsBest(xs - {b}, s, r)
  {
  }

  lemma OnlyBestLeft(xs: set<nat>, s: Side, b: nat)
    requires IsBest(xs, s, b) && NothingWorse(xs, s, b)
    ensures xs == {b}
  {
    forall x | x in xs ensures x == b { }
  }

  // ----- Prices of one side -------------------------------------------------------------

  ghost function ActivePrices(a: Arena, l: u16, s: Side): set<nat>
    requires Shape(a)
  {
    set raw: u32 | 0 <= raw <= U32_MAX && LevelAt(a, l, s, raw).count != 0
  }

  /** A price is active exactly when its page is and its level is on that page. */
  lemma ActivePrice(a: Arena, l: u16, s: Side, raw: u32)
    requires Wf(a)
    ensures raw in ActivePrices(a, l, s) <==>
              PageOf(raw) in ActivePages(a, l, s) &&
              LevelOf(raw) in ActiveLevels(Levels(a, Root(a, l, PageOf(raw)), s))
  {
    hide PB.Valid, PB.Bits, BookOk;
    var h := Root(a, l, PageOf(raw));
    if h != INVALID_HANDLE {
      assert PageOk(Levels(a, h, s), PageSum(a, h, s), PB.Bits(PageOcc(a, h, s)), s);
      if PageSum(a, h, s).active == 0 { BlankPage(a, h, s, LevelOf(raw)); }
    }
  }

  /** An active page's summary names its best level. */
  lemma PageBest(a: Arena, l: u16, s: Side, p: u16)
    requires Wf(a) && p in ActivePages(a, l, s)
    ensures var h := Root(a, l, p);
            && 1 <= h <= a.committed && a.owners[h] == PageOwner(l, p, true)
            && IsBest(ActiveLevels(Levels(a, h, s)), s, PageSum(a, h, s).best)
            && PageSum(a, h, s).best < PARTS && PageSum(a, h, s).active == |ActiveLevels(Levels(a, h, s))|
            && PB.Bits(PageOcc(a, h, s)) == (if PageSum(a, h, s).active <= 1 then {} else ActiveLevels(Levels(a, h, s)))
            && PB.Valid(PageOcc(a, h, s))
  {
    hide PB.Valid, PB.Bits, BookOk;
    var h := Root(a, l, p);
    assert OwnerOk(a, h);
    assert PageOk(Levels(a, h, s), PageSum(a, h, s), PB.Bits(PageOcc(a, h, s)), s);
  }

  lemma BookSide(a: Arena, l: u16, s: Side)
    requires Wf(a)
    ensures var pages := ActivePages(a, l, s); var bs := BookSum(a, l, s);
            && bs.activePages == |pages| && PB.Bits(BookOcc(a, l, s)) == pages && PB.Valid(BookOcc(a, l, s))
            && (pages == {} ==> bs.bestHandle == INVALID_HANDLE)
            && (pages != {} ==>
                 && IsBest(pages, s, PageOf(bs.bestRaw))
                 && bs.bestHandle == Root(a, l, PageOf(bs.bestRaw))
                 && LevelOf(bs.bestRaw) == PageSum(a, bs.bestHandle, s).best)
  {
    hide PB.Valid, PB.Bits;
    assert BookOk(a, l, s);
  }

  /** The cached best of a book side is the best of all its active prices. */
  lemma CachedBestIsBest(a: Arena, l: u16, s: Side)
    requires Wf(a)
    ensures var bs := BookSum(a, l, s);
            && (bs.activePages == 0 <==> ActivePrices(a, l, s) == {})
            && (bs.activePages == 0 <==> bs.bestHandle == INVALID_HANDLE)
            && (bs.activePages != 0 ==>
                 IsBest(ActivePrices(a, l, s), s, bs.bestRaw) && bs.bestHandle == Root(a, l, PageOf(bs.bestRaw)))
  {
    hide Wf, PB.Valid, PB.Bits, ActivePages, ActivePrices, ActiveLevels, Levels, Root, PageSum, BookSum, BookOcc;
    hide PageOcc, BookOk, PageOk;
    WfShape(a);
    BookSide(a, l, s);
    var pages, bs := ActivePages(a, l, s), BookSum(a, l, s);
    var prices := ActivePrices(a, l, s);
    PricesBounded(a, l, s);
    forall raw: u32 | raw in prices ensures PageOf(raw) in pages { ActivePrice(a, l, s, raw); }
    if pages != {} {
      PageBest(a, l, s, PageOf(bs.bestRaw));
      ActivePrice(a, l, s, bs.bestRaw);
      forall raw: u32 | raw in prices && raw != bs.bestRaw ensures Better(s, bs.bestRaw, raw) {
        ActivePrice(a, l, s, raw);
        SplitJoin(0, 0, raw);
        SplitJoin(0, 0, bs.bestRaw);
      }
    }
  }

  lemma WfShape(a: Arena)
    requires Wf(a)
    ensures Shape(a) && OwnersOk(a)
  {
  }

  lemma PricesBounded(a: Arena, l: u16, s: Side)
    requires Shape(a)
    ensures forall raw :: raw in ActivePrices(a, l, s) ==> raw <= U32_MAX
  {
  }

  /** A worse level on the same page is the next price. */
  lemma NextOnPage(a: Arena, l: u16, s: Side, raw: u32, r: u16)
    requires Wf(a) && raw in ActivePrices(a, l, s)
    requires PageOf(raw) in ActivePages(a, l, s)
    requires IsNext(ActiveLevels(Levels(a, Root(a, l, PageOf(raw)), s)), s, LevelOf(raw), r)
    ensures IsNext(ActivePrices(a, l, s), s, raw, JoinPrice(PageOf(raw), r))
  {
    hide Wf, PB.Valid, PB.Bits, ActivePages, ActivePrices, ActiveLevels, Levels, Root, PageSum, BookSum, BookOcc;
    hide PageOcc, BookOk, PageOk;
    WfShape(a);
    var next := JoinPrice(PageOf(raw), r);
    SplitJoin(PageOf(raw), r, raw);
    ActivePrice(a, l, s, next);
    PricesBounded(a, l, s);
    forall x: u32 | x in ActivePrices(a, l, s) && Better(s, raw, x) && x != next ensures Better(s, next, x) {
      ActivePrice(a, l, s, x);
      SplitJoin(0, 0, x);
    }
  }

  /** With nothing worse on its page, the next price is the best of the next page. */
  lemma NextOnOtherPage(a: Arena, l: u16, s: Side, raw: u32, np: u16)
    requires Wf(a) && raw in ActivePrices(a, l, s)
    requires PageOf(raw) in ActivePages(a, l, s)
    requires NothingWorse(ActiveLevels(Levels(a, Root(a, l, PageOf(raw)), s)), s, LevelOf(raw))
    requires IsNext(ActivePages(a, l, s), s, PageOf(raw), np)
    ensures PageSum(a, Root(a, l, np), s).best < PARTS
    ensures IsNext(ActivePrices(a, l, s), s, raw, JoinPrice(np, PageSum(a, Root(a, l, np), s).best))
  {
    hide Wf, PB.Valid, PB.Bits, ActivePages, ActivePrices, ActiveLevels, Levels, Root, PageSum, BookSum, BookOcc;
    hide PageOcc, BookOk, PageOk;
    WfShape(a);
    PageBest(a, l, s, np);
    var next := JoinPrice(np, PageSum(a, Root(a, l, np), s).best);
    SplitJoin(np, PageSum(a, Root(a, l, np), s).best, raw);
    ActivePrice(a, l, s, next);
    PricesBounded(a, l, s);
    forall x: u32 | x in ActivePrices(a, l, s) && Better(s, raw, x) && x != next ensures Better(s, next, x) {
      ActivePrice(a, l, s, x);
      SplitJoin(0, 0, x);
    }
  }

  lemma NoNext(a: Arena, l: u16, s: Side, raw: u32)
    requires Wf(a) && 1 <= Root(a, l, PageOf(raw)) <= a.committed
    requires NothingWorse(ActiveLevels(Levels(a, Root(a, l, PageOf(raw)), s)), s, LevelOf(raw))
    requires NothingWorse(ActivePages(a, l, s), s, PageOf(raw))
    ensures NothingWorse(ActivePrices(a, l, s), s, raw)
  {
    hide Wf, PB.Valid, PB.Bits, ActivePages, ActivePrices, ActiveLevels, Levels, Root, PageSum, BookSum, BookOcc;
    hide PageOcc, BookOk, PageOk;
    WfShape(a);
    SplitJoin(0, 0, raw);
    PricesBounded(a, l, s);
    forall x: u32 | x in ActivePrices(a, l, s) ensures !Better(s, raw, x) {
      ActivePrice(a, l, s, x);
      SplitJoin(0, 0, x);
    }
  }

  // ----- The sorted reference -----------------------------------------------------------

  /** `t` lists the best |t| members of `xs`, best first. */
  ghost predicate IsTop(xs: set<nat>, s: Side, t: seq<nat>) {
    && (forall i :: 0 <= i < |t| ==> t[i] in xs)
    && (forall i, j :: 0 <= i < j < |t| ==> Better(s, t[i], t[j]))
    && (forall x, i :: x in xs && x !in t && 0 <= i < |t| ==> Better(s, t[i], x))
  }

  lemma TopStart(xs: set<nat>, s: Side, b: nat)
    requires IsBest(xs, s, b)
    ensures IsTop(xs, s, [b])
  {
  }

  lemma TopNext(xs: set<nat>, s: Side, t: seq<nat>, r: nat)
    requires IsTop(xs, s, t) && |t| > 0 && IsNext(xs, s, t[|t| - 1], r)
    ensures IsTop(xs, s, t + [r])
  {
    var last := t[|t| - 1];
    assert r !in t;
    forall x, i | x in xs && x !in t + [r] && 0 <= i < |t + [r]| ensures Better(s, (t + [r])[i], x) {
      assert Better(s, last, x);
    }
  }

  lemma TopSize(xs: set<nat>, s: Side, t: seq<nat>)
    requires IsTop(xs, s, t)
    ensures |t| <= |xs| && (|t| == |xs| <==> forall x :: x in xs ==> x in t)
  {
    var members := Members(t);
    DistinctSize(t);
    SubsetSize(members, xs);
    if forall x :: x in xs ==> x in t { assert members == xs; }
  }

  lemma TopMembers(xs: set<nat>, s: Side, t: seq<nat>)
    requires IsTop(xs, s, t)
    ensures forall x :: x in t ==> x in xs
  {
  }

  /** The walk has visited every member exactly once when nothing worse is left. */
  lemma TopComplete(xs: set<nat>, s: Side, t: seq<nat>)
    requires IsTop(xs, s, t) && |t| > 0 && NothingWorse(xs, s, t[|t| - 1])
    ensures |t| == |xs| && (forall x :: x in xs <==> x in t)
  {
    forall x | x in xs ensures x in t {
      assert !Better(s, t[|t| - 1], x);
    }
    TopSize(xs, s, t);
  }

  // ----- The order of prices in numbers -------------------------------------------------

  /** The list falls for bids and rises for asks, and what is not listed lies beyond its last entry. */
  lemma TopInNumbers(xs: set<nat>, s: Side, t: seq<nat>)
    requires IsTop(xs, s, t)
    ensures s == Buy ==> forall i, j :: 0 <= i < j < |t| ==> t[i] > t[j]
    ensures s == Sell ==> forall i, j :: 0 <= i < j < |t| ==> t[i] < t[j]
    ensures s == Buy ==> forall x, i :: x in xs && x !in t && 0 <= i < |t| ==> x < t[i]
    ensures s == Sell ==> forall x, i :: x in xs && x !in t && 0 <= i < |t| ==> x > t[i]
  {
  }

  /** The best bid is the highest and the best ask the lowest. */
  lemma BestInNumbers(xs: set<nat>, s: Side, b: nat)
    requires IsBest(xs, s, b)
    ensures b in xs
    ensures s == Buy ==> forall x :: x in xs ==> x <= b
    ensures s == Sell ==> forall x :: x in xs ==> b <= x
  {
  }

  /** The next bid is the highest one below, the next ask the lowest one above. */
  lemma NextInNumbers(xs: set<nat>, s: Side, from: nat, b: nat)
    ensures IsNext(xs, s, from, b) && s == Buy ==> b < from && forall x :: x in xs && x < from ==> x <= b
    ensures IsNext(xs, s, from, b) && s == Sell ==> from < b && forall x :: x in xs && from < x ==> b <= x
    ensures NothingWorse(xs, s, from) && s == Buy ==> forall x :: x in xs ==> from <= x
    ensures NothingWorse(xs, s, from) && s == Sell ==> forall x :: x in xs ==> x <= from
  {
  }

  /** There is only one such list of each length. */
  lemma {:induction false} TopUnique(xs: set<nat>, s: Side, t: seq<nat>, u: seq<nat>)
    requires IsTop(xs, s, t) && IsTop(xs, s, u) && |t| == |u|
    ensures t == u
  {
    if t != [] {
      var n := |t| - 1;
      TopPrefix(xs, s, t);
      TopPrefix(xs, s, u);
      TopUnique(xs, s, t[..n], u[..n]);
      NotWorse(xs, s, t, u, n);
      NotWorse(xs, s, u, t, n);
      assert t == t[..n] + [t[n]] && u == u[..n] + [u[n]];
    }
  }

  /** Behind a shared prefix, no list continues with a better member than the other. */
  lemma NotWorse(xs: set<nat>, s: Side, t: seq<nat>, u: seq<nat>, n: nat)
    requires IsTop(xs, s, t) && IsTop(xs, s, u) && |t| == |u| == n + 1 && t[..n] == u[..n]
    ensures t[n] == u[n] || Better(s, t[n], u[n])
  {
    if u[n] in t {
      var i :| 0 <= i < |t| && t[i] == u[n];
      assert i < n ==> u[..n][i] == t[..n][i];
      assert i < n ==> Better(s, u[i], u[n]);
    }
  }

  lemma TopPrefix(xs: set<nat>, s: Side, t: seq<nat>)
    requires IsTop(xs, s, t) && |t| > 0
    ensures IsTop(xs, s, t[..|t| - 1])
  {
    var p := t[..|t| - 1];
    forall x, i | x in xs && x !in p && 0 <= i < |p| ensures Better(s, p[i], x) {
      if x in t { assert x == t[|t| - 1]; }
    }
  }
}
