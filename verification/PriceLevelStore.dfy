/** The process-wide price-level store: arrays updated in place, proved against PriceIndex. */
module PriceLevelStore {
  import opened Types
  import opened BookTypes
  import opened PriceIndex
  import opened PriceTraversal
  import PB = PriceBitmap

  const TOP_LEVEL_COUNT: nat := 10

  datatype PriceReservation = PriceReservation(
    result: MutationResult, address: Address, locate: u16, page: u16, expected: u32, requiresCommit: bool)

  datatype Cursor = Cursor(handle: u32, raw: u32, locate: u16, valid: bool)

  datatype LevelView = LevelView(raw: u32, total: u64, count: u32, valid: bool)

  const NO_CURSOR: Cursor := Cursor(INVALID_HANDLE, 0, 0, false)
  const NO_VIEW: LevelView := LevelView(0, 0, 0, false)

  // ----- What the checks decide, as functions of the index ------------------------------

  function AddressOutcome(a: Arena, addr: Address, side: OrderSide): MutationResult {
    if side == NoSide then InvalidSide
    else if addr.handle == INVALID_HANDLE || addr.handle > a.committed then InvalidPricePage
    else Applied
  }

  function AddOutcome(a: Arena, addr: Address, side: OrderSide, qty: u32): MutationResult
    requires Shape(a)
  {
    if AddressOutcome(a, addr, side) != Applied then AddressOutcome(a, addr, side)
    else if qty == 0 then InvalidQuantity
    else var v := Levels(a, addr.handle, side)[addr.level];
      if v.count == U32_MAX then OrderCountOverflow
      else if v.total > U64_MAX - qty then QuantityOverflow
      else Applied
  }

  function EraseOutcome(a: Arena, addr: Address, side: OrderSide, qty: u32): MutationResult
    requires Shape(a)
  {
    if AddressOutcome(a, addr, side) != Applied then AddressOutcome(a, addr, side)
    else if qty == 0 then InvalidQuantity
    else var v := Levels(a, addr.handle, side)[addr.level];
      if v.count == 0 then MissingPriceLevel
      else if v.total < qty then QuantityUnderflow
      else if v.count == 1 && v.total != qty then InvariantViolation
      else if v.count > 1 && v.total == qty then InvariantViolation
      else Applied
  }

  function ReduceOutcome(a: Arena, locate: u16, page: u16, addr: Address, side: OrderSide,
                         current: u32, reduction: u32): MutationResult
    requires Shape(a)
  {
    if locate == 0 then InvalidLocate
    else if AddressOutcome(a, addr, side) != Applied then AddressOutcome(a, addr, side)
    else var o := a.owners[addr.handle];
      if o.locate != locate || o.page != page then InvariantViolation
      else if current == 0 || reduction == 0 then InvalidQuantity
      else if reduction >= current then QuantityUnderflow
      else var v := Levels(a, addr.handle, side)[addr.level];
        if v.count == 0 then MissingPriceLevel
        else if v.total < current then QuantityUnderflow
        else if v.count == 1 && v.total != current then InvariantViolation
        else if v.count > 1 && v.total == current then InvariantViolation
        else Applied
  }

  function MoveOutcome(a: Arena, from: Address, oldQty: u32, to: Address, newQty: u32, side: OrderSide): MutationResult
    requires Shape(a)
  {
    if newQty == 0 then InvalidQuantity
    else if from.handle == INVALID_HANDLE || from.handle > a.committed || to.handle == INVALID_HANDLE ||
        to.handle > a.committed
    then InvalidPricePage
    else if a.owners[from.handle].locate != a.owners[to.handle].locate then LocateMismatch
    else if EraseOutcome(a, from, side, oldQty) != Applied then EraseOutcome(a, from, side, oldQty)
    else if from == to then
      if Levels(a, from.handle, side)[from.level].total - oldQty > U64_MAX - newQty then QuantityOverflow else Applied
    else AddOutcome(a, to, side, newQty)
  }

  // ----- What the commits do, as functions of the index ---------------------------------

  ghost function Added(a: Arena, addr: Address, s: Side, qty: u32): Arena
    requires Wf(a) && AddOutcome(a, addr, s, qty) == Applied
  {
    var v := Levels(a, addr.handle, s)[addr.level];
    var v' := Level(v.total + qty, v.count + 1);
    if v.count == 0 then
      ActivatedWf(a, addr.handle, s, addr.level, v');
      Activated(a, addr.handle, s, addr.level, v')
    else Adjusted(a, addr.handle, s, addr.level, v')
  }

  ghost function Erased(a: Arena, addr: Address, s: Side, qty: u32, plan: Plan): Arena
    requires Wf(a) && EraseOutcome(a, addr, s, qty) == Applied
    requires Levels(a, addr.handle, s)[addr.level].count == 1 ==> PlanOk(a, addr.handle, s, addr.level, plan)
  {
    var v := Levels(a, addr.handle, s)[addr.level];
    if v.count == 1 then
      DeactivatedWf(a, addr.handle, s, addr.level, plan);
      Deactivated(a, addr.handle, s, addr.level, plan)
    else Adjusted(a, addr.handle, s, addr.level, Level(v.total - qty, v.count - 1))
  }

  /** `a'` is `a` with the aggregate of one price replaced; the page directory is untouched. */
  ghost predicate OneLevel(a: Arena, a': Arena, l: u16, s: Side, raw: u32, v: Level) {
    && Shape(a) && Shape(a')
    && SameDirectory(a, a')
    && forall l': u16, s': Side, raw': u32 ::
         LevelAt(a', l', s', raw') == if l' == l && s' == s && raw' == raw then v else LevelAt(a, l', s', raw')
  }

  ghost predicate SameDirectory(a: Arena, a': Arena) {
    && a'.capacity == a.capacity && a'.committed == a.committed && a'.roots == a.roots
    && a'.owners == a.owners && a'.prepared == a.prepared
  }

  /** `a'` is `a` after one order of `oldQty` at `from` became one of `newQty` at `to`. */
  ghost predicate Moved(a: Arena, a': Arena, l: u16, s: Side, from: u32, oldQty: u32, to: u32, newQty: u32) {
    && Shape(a) && Shape(a')
    && SameDirectory(a, a')
    && forall l': u16, s': Side, raw: u32 ::
         var v := LevelAt(a, l', s', raw);
         var out := l' == l && s' == s && raw == from;
         var in_ := l' == l && s' == s && raw == to;
         var v' := LevelAt(a', l', s', raw);
         && v'.total == v.total - (if out then oldQty else 0) + (if in_ then newQty else 0)
         && v'.count == v.count - (if out then 1 else 0) + (if in_ then 1 else 0)
  }

  /** The price a committed address stands for. */
  function PriceAt(a: Arena, addr: Address): u32
    requires Shape(a) && addr.handle <= a.committed
  {
    JoinPrice(a.owners[addr.handle].page, addr.level)
  }

  lemma LevelAtAddress(a: Arena, addr: Address, s: Side)
    requires Wf(a) && 1 <= addr.handle <= a.committed
    ensures LevelAt(a, a.owners[addr.handle].locate, s, PriceAt(a, addr)) == Levels(a, addr.handle, s)[addr.level]
  {
    assert OwnerOk(a, addr.handle);
    SplitJoin(a.owners[addr.handle].page, addr.level, 0);
  }

  /** A poke that rewrites one level changes the aggregate of exactly one price. */
  lemma PokeOneLevel(a: Arena, h: u32, s: Side, i: u16, v: Level, ps: PageSummary, po: PB.Storage,
                     bs: BookSummary, bo: PB.Storage)
    requires Wf(a) && 1 <= h <= a.committed
    ensures var a' := Poke(a, h, s, Levels(a, h, s)[i := v], ps, po, bs, bo);
            Shape(a') && OneLevel(a, a', a.owners[h].locate, s, JoinPrice(a.owners[h].page, i), v)
  {
    hide Wf, OwnersOk, PB.Valid, PB.Bits, Levels, PageSum, PageOcc, BookSum, BookOcc, PageOk, BookOk, LevelAt;
    BookFacts(a, h, s);
    var o := a.owners[h];
    var lv := Levels(a, h, s)[i := v];
    var a' := Poke(a, h, s, lv, ps, po, bs, bo);
    PokeFrame(a, h, s, lv, ps, po, bs, bo);
    forall l': u16, s': Side, raw': u32
      ensures LevelAt(a', l', s', raw') ==
              if l' == o.locate && s' == s && raw' == JoinPrice(o.page, i) then v else LevelAt(a, l', s', raw')
    {
      PokeLevels(a, h, s, lv, ps, po, bs, bo, l', s', raw');
      SplitJoin(o.page, i, raw');
      if l' == o.locate && s' == s && PageOf(raw') == o.page {
        LevelAtAddress(a, Address(h, LevelOf(raw')), s);
      }
    }
  }

  lemma AddedOk(a: Arena, addr: Address, s: Side, qty: u32)
    requires Wf(a) && AddOutcome(a, addr, s, qty) == Applied
    ensures var v := Levels(a, addr.handle, s)[addr.level];
            && Wf(Added(a, addr, s, qty))
            && OneLevel(a, Added(a, addr, s, qty), a.owners[addr.handle].locate, s, PriceAt(a, addr),
                        Level(v.total + qty, v.count + 1))
  {
    hide Wf, OwnersOk, PB.Valid, PB.Bits, PageOk, BookOk, Poke, OneLevel, ActivateOcc, ActivateSum, ActivateBookSum;
    hide ActivateBookOcc;
    BookFacts(a, addr.handle, s);
    var h, i := addr.handle, addr.level;
    var v := Levels(a, h, s)[i];
    var v' := Level(v.total + qty, v.count + 1);
    var o := a.owners[h];
    var ps, po := PageSum(a, h, s), PageOcc(a, h, s);
    var bs, bo := BookSum(a, o.locate, s), BookOcc(a, o.locate, s);
    if v.count == 0 {
      ActivatedWf(a, h, s, i, v');
      PokeOneLevel(a, h, s, i, v', ActivateSum(ps, s, i), ActivateOcc(ps, po, i),
                   ActivateBookSum(bs, ps, s, JoinPrice(o.page, i), h), ActivateBookOcc(bo, ps, o.page));
    } else {
      AdjustedWf(a, h, s, i, v');
      AdjustedIsPoke(a, h, s, i, v');
      PokeOneLevel(a, h, s, i, v', ps, po, bs, bo);
    }
  }

  /** An aggregate rewritten without its level becoming empty. */
  lemma AdjustedOk(a: Arena, addr: Address, s: Side, v: Level)
    requires Wf(a) && 1 <= addr.handle <= a.committed
    requires Levels(a, addr.handle, s)[addr.level].count != 0 && v.count != 0 && v.total != 0
    ensures Wf(Adjusted(a, addr.handle, s, addr.level, v))
    ensures OneLevel(a, Adjusted(a, addr.handle, s, addr.level, v), a.owners[addr.handle].locate, s, PriceAt(a, addr),
            v)
  {
    hide Wf, OwnersOk, PB.Valid, PB.Bits, PageOk, BookOk, Poke, OneLevel;
    BookFacts(a, addr.handle, s);
    AdjustedWf(a, addr.handle, s, addr.level, v);
    AdjustedIsPoke(a, addr.handle, s, addr.level, v);
    var l := a.owners[addr.handle].locate;
    PokeOneLevel(a, addr.handle, s, addr.level, v, PageSum(a, addr.handle, s), PageOcc(a, addr.handle, s),
                 BookSum(a, l, s), BookOcc(a, l, s));
  }

  lemma ErasedOk(a: Arena, addr: Address, s: Side, qty: u32, plan: Plan)
    requires Wf(a) && EraseOutcome(a, addr, s, qty) == Applied
    requires Levels(a, addr.handle, s)[addr.level].count == 1 ==> PlanOk(a, addr.handle, s, addr.level, plan)
    ensures var v := Levels(a, addr.handle, s)[addr.level];
            && Wf(Erased(a, addr, s, qty, plan))
            && OneLevel(a, Erased(a, addr, s, qty, plan), a.owners[addr.handle].locate, s, PriceAt(a, addr),
                        Level(v.total - qty, v.count - 1))
  {
    hide Wf, OwnersOk, PB.Valid, PB.Bits, PageOk, BookOk, Poke, OneLevel, PlanOk, DeactivateOcc, DeactivateBookSum;
    hide DeactivateBookOcc;
    BookFacts(a, addr.handle, s);
    var h, i := addr.handle, addr.level;
    var v := Levels(a, h, s)[i];
    var o := a.owners[h];
    var ps, po := PageSum(a, h, s), PageOcc(a, h, s);
    var bs, bo := BookSum(a, o.locate, s), BookOcc(a, o.locate, s);
    if v.count == 1 {
      DeactivatedWf(a, h, s, i, plan);
      PokeOneLevel(a, h, s, i, NO_LEVEL, DeactivateSum(ps, plan), DeactivateOcc(ps, po, plan, i),
                   DeactivateBookSum(bs, plan), DeactivateBookOcc(bo, plan, o.page));
    } else {
      AdjustedOk(a, addr, s, Level(v.total - qty, v.count - 1));
    }
  }

  class PriceLevelStore {
    const capacity: nat
    const roots: array<u32>
    const prepared: array<bool>
    const pages: array<Pair<seq<Level>>>
    const owners: array<PageOwner>
    const pageSums: array<Pair<PageSummary>>
    const pageOcc: array<PB.Storage>
    const bookSums: array<Pair<BookSummary>>
    const bookOcc: array<PB.Storage>
    var committed: u32
    var preparedBookCount: nat

    ghost function Repr(): set<object> {
      {roots, prepared, pages, owners, pageSums, pageOcc, bookSums, bookOcc}
    }

    ghost function View(): Arena
      reads this, Repr()
    {
      Arena(capacity, committed, roots[..], prepared[..], pages[..], owners[..], pageSums[..], pageOcc[..],
            bookSums[..], bookOcc[..])
    }

    ghost predicate Valid()
      reads this, Repr()
    {
      && pageOcc != bookOcc && Shape(View()) && Wf(View())
      && preparedBookCount == |PreparedBooks(View())|
    }

    method ActivateLevel(addr: Address, s: Side)
      requires Valid() && 1 <= addr.handle <= committed
      requires PageSum(View(), addr.handle, s).best < PARTS && PageSum(View(), addr.handle, s).active < U32_MAX
      requires BookSum(View(), owners[addr.handle].locate, s).activePages < U32_MAX
      modifies pageSums, pageOcc, bookSums, bookOcc
      ensures var a := old(View()); var o := a.owners[addr.handle]; var ps := PageSum(a, addr.handle, s);
              View() == Poke(a, addr.handle, s, Levels(a, addr.handle, s), ActivateSum(ps, s, addr.level),
                             ActivateOcc(ps, PageOcc(a, addr.handle, s), addr.level),
                             ActivateBookSum(BookSum(a, o.locate, s), ps, s, JoinPrice(o.page, addr.level),
                                 addr.handle),
                             ActivateBookOcc(BookOcc(a, o.locate, s), ps, o.page))
    {
      hide Wf, PB.SetBit, Poke, JoinPrice;
      ghost var a := View();
      var o := owners[addr.handle];
      var ps := pageSums[addr.handle].Get(s);
      var bs := bookSums[o.locate].Get(s);
      var po := 2 * addr.handle + SideIndex(s);
      var bo := 2 * o.locate + SideIndex(s);
      var pageWasEmpty := ps.active == 0;
      var bookWasEmpty := bs.activePages == 0;
      var pageBits := pageOcc[po];
      if ps.active == 1 {
        pageBits := PB.SetBit(PB.SetBit(pageBits, ps.best), addr.level);
      } else if ps.active > 1 {
        pageBits := PB.SetBit(pageBits, addr.level);
      }
      ps := ps.(active := ps.active + 1);
      if pageWasEmpty || Better(s, addr.level, ps.best) {
        ps := ps.(best := addr.level);
      }
      var bookBits := bookOcc[bo];
      if pageWasEmpty {
        bookBits := PB.SetBit(bookBits, o.page);
        bs := bs.(activePages := bs.activePages + 1);
      }
      var raw := JoinPrice(o.page, addr.level);
      if bookWasEmpty || bs.bestHandle == INVALID_HANDLE || Better(s, raw, bs.bestRaw) {
        bs := bs.(bestRaw := raw, bestHandle := addr.handle);
      }
      assert ps == ActivateSum(PageSum(a, addr.handle, s), s, addr.level);
      assert pageBits == ActivateOcc(PageSum(a, addr.handle, s), PageOcc(a, addr.handle, s), addr.level);
      assert bookBits == ActivateBookOcc(BookOcc(a, o.locate, s), PageSum(a, addr.handle, s), o.page);
      WriteSummaries(addr.handle, s, ps, pageBits, bs, bookBits);
    }

    /** Stores the summaries and bitmaps of one page side and its book side. */
    method WriteSummaries(h: u32, s: Side, ps: PageSummary, pageBits: PB.Storage, bs: BookSummary, bookBits: PB.Storage)
      requires pageOcc != bookOcc && Shape(View()) && 1 <= h <= committed
      modifies pageSums, pageOcc, bookSums, bookOcc
      ensures View() == Poke(old(View()), h, s, Levels(old(View()), h, s), ps, pageBits, bs, bookBits)
    {
      ghost var a := View();
      var l := owners[h].locate;
      pageSums[h] := pageSums[h].Put(s, ps);
      pageOcc[2 * h + SideIndex(s)] := pageBits;
      bookSums[l] := bookSums[l].Put(s, bs);
      bookOcc[2 * l + SideIndex(s)] := bookBits;
      assert pageSums[..] == a.pageSums[h := a.pageSums[h].Put(s, ps)];
      assert pageOcc[..] == a.pageOcc[2 * h + SideIndex(s) := pageBits];
      assert bookSums[..] == a.bookSums[l := a.bookSums[l].Put(s, bs)];
      assert bookOcc[..] == a.bookOcc[2 * l + SideIndex(s) := bookBits];
      assert pages[..] == a.pages[h - 1 := a.pages[h - 1].Put(s, Levels(a, h, s))];
    }

    method WriteLevel(addr: Address, s: Side, v: Level)
      requires pageOcc != bookOcc && Shape(View()) && 1 <= addr.handle <= committed
      modifies pages
      ensures View() == Adjusted(old(View()), addr.handle, s, addr.level, v)
    {
      ghost var a := View();
      var page := pages[addr.handle - 1];
      assert |page.Get(s)| == PARTS by { assert |a.pages[addr.handle - 1].Get(s)| == PARTS; }
      pages[addr.handle - 1] := page.Put(s, page.Get(s)[addr.level := v]);
      assert pages[..] == a.pages[addr.handle - 1 := a.pages[addr.handle - 1].Put(s,
          Levels(a, addr.handle, s)[addr.level := v])];
    }

    method ReadLevel(addr: Address, s: Side) returns (v: Level)
      requires Valid() && 1 <= addr.handle <= committed
      ensures v == Levels(View(), addr.handle, s)[addr.level]
    {
      hide Wf;
      assert |View().pages[addr.handle - 1].Get(s)| == PARTS;
      v := pages[addr.handle - 1].Get(s)[addr.level];
    }

    method ValidateActivation(addr: Address, s: Side) returns (r: MutationResult)
      requires Valid() && 1 <= addr.handle <= committed && Levels(View(), addr.handle, s)[addr.level].count == 0
      ensures r == Applied
    {
      hide Wf, PB.Valid, PB.Bits, ActivePages, PageOk, OwnersOk;
      ghost var a := View();
      BookFacts(a, addr.handle, s);
      PageHasRoom(a, addr.handle, s, addr.level);
      var o := owners[addr.handle];
      if !o.committed || o.locate == 0 {
        return InvariantViolation;
      }
      var ps := pageSums[addr.handle].Get(s);
      var bs := bookSums[o.locate].Get(s);
      assert ps == PageSum(a, addr.handle, s) && bs == BookSum(a, o.locate, s);
      if ps.active >= PARTS || (ps.active != 0 && ps.best >= PARTS) || (ps.active == 0 && bs.activePages >= PARTS) {
        return InvariantViolation;
      }
      return Applied;
    }

    method ValidateAdd(addr: Address, side: OrderSide, qty: u32) returns (r: MutationResult)
      requires Valid()
      ensures r == AddOutcome(View(), addr, side, qty)
    {
      hide Wf;
      if side == NoSide {
        return InvalidSide;
      }
      if addr.handle == INVALID_HANDLE || addr.handle > committed {
        return InvalidPricePage;
      }
      if qty == 0 {
        return InvalidQuantity;
      }
      var v := ReadLevel(addr, side);
      if v.count == U32_MAX {
        return OrderCountOverflow;
      }
      if v.total > U64_MAX - qty {
        return QuantityOverflow;
      }
      LevelIsOk(View(), addr, side);
      if (v.count == 0) != (v.total == 0) {
        return InvariantViolation;
      }
      if v.count == 0 {
        r := ValidateActivation(addr, side);
        return;
      }
      return Applied;
    }

    method AddValidated(addr: Address, s: Side, qty: u32)
      requires Valid() && AddOutcome(View(), addr, s, qty) == Applied
      modifies pages, pageSums, pageOcc, bookSums, bookOcc
      ensures Valid() && View() == Added(old(View()), addr, s, qty)
    {
      hide Wf, OwnersOk, ActivateOcc, ActivateSum, ActivateBookSum, ActivateBookOcc, Poke, Adjusted, Added, OneLevel;
      hide PreparedBooks;
      ghost var a := View();
      var v := ReadLevel(addr, s);
      AddedOk(a, addr, s, qty);
      ValidatedFacts(a, addr, s, qty);
      if v.count == 0 {
        ActivateLevel(addr, s);
      }
      AddedInSteps(a, addr, s, qty, View());
      WriteLevel(addr, s, Level(v.total + qty, v.count + 1));
    }

    method Add(addr: Address, side: OrderSide, qty: u32) returns (r: MutationResult)
      requires Valid()
      modifies pages, pageSums, pageOcc, bookSums, bookOcc
      ensures Valid() && r == AddOutcome(old(View()), addr, side, qty)
      ensures r != Applied ==> View() == old(View())
      ensures r == Applied ==>
                var a := old(View()); var v := Levels(a, addr.handle, side)[addr.level];
                OneLevel(a, View(), a.owners[addr.handle].locate, side, PriceAt(a, addr),
                         Level(v.total + qty, v.count + 1))
    {
      hide Wf, OneLevel, Added;
      r := ValidateAdd(addr, side, qty);
      if r != Applied {
        return;
      }
      AddedOk(View(), addr, side, qty);
      AddValidated(addr, side, qty);
    }

    method ReduceChecked(locate: u16, page: u16, addr: Address, side: OrderSide, current: u32, reduction: u32)
      returns (r: MutationResult)
      requires Valid()
      modifies pages
      ensures Valid() && r == ReduceOutcome(old(View()), locate, page, addr, side, current, reduction)
      ensures r != Applied ==> View() == old(View())
      ensures r == Applied ==>
                var a := old(View()); var v := Levels(a, addr.handle, side)[addr.level];
                OneLevel(a, View(), a.owners[addr.handle].locate, side, PriceAt(a, addr),
                         Level(v.total - reduction, v.count))
    {
      hide Wf, OneLevel, OwnersOk;
      if locate == 0 {
        return InvalidLocate;
      }
      if side == NoSide {
        return InvalidSide;
      }
      if addr.handle == INVALID_HANDLE || addr.handle > committed {
        return InvalidPricePage;
      }
      ghost var a := View();
      LevelIsOk(a, addr, side);
      var o := owners[addr.handle];
      if !o.committed || o.locate != locate || o.page != page {
        return InvariantViolation;
      }
      if current == 0 || reduction == 0 {
        return InvalidQuantity;
      }
      if reduction >= current {
        return QuantityUnderflow;
      }
      var v := ReadLevel(addr, side);
      if v.count == 0 || v.total == 0 {
        return MissingPriceLevel;
      }
      if v.total < current {
        return QuantityUnderflow;
      }
      if v.count == 1 && v.total != current {
        return InvariantViolation;
      }
      if v.count > 1 && v.total == current {
        return InvariantViolation;
      }
      if v.total <= reduction {
        return QuantityUnderflow;
      }
      AdjustedOk(a, addr, side, Level(v.total - reduction, v.count));
      WriteLevel(addr, side, Level(v.total - reduction, v.count));
      WfShape(View());
      return Applied;
    }

    /** Page half of the deactivation plan: what the summary and bitmap of the page become. */
    method PlanPage(addr: Address, s: Side) returns (r: MutationResult, plan: Plan)
      requires Valid() && 1 <= addr.handle <= committed && Levels(View(), addr.handle, s)[addr.level].count == 1
      ensures r == Applied
      ensures PagePlanOk(ActiveLevels(Levels(View(), addr.handle, s)), PageSum(View(), addr.handle, s), s, addr.level,
              plan)
      ensures !plan.bookBestChanges && plan.nextBookRaw == 0 && plan.nextBookHandle == INVALID_HANDLE
    {
      hide Wf, PB.Valid, PB.Bits, OwnersOk, ActivePages, PB.Test, PB.IsEmpty, NextIndex;
      ghost var a := View();
      ghost var active := ActiveLevels(Levels(a, addr.handle, s));
      BookFacts(a, addr.handle, s);
      assert addr.level in active;
      plan := BLANK_PLAN;
      var ps := pageSums[addr.handle].Get(s);
      assert ps == PageSum(a, addr.handle, s);
      var removedIsPageBest := ps.best == addr.level;
      if ps.active == 1 {
        SingletonOnly(active, addr.level);
        if !removedIsPageBest {
          return InvariantViolation, plan;
        }
        return Applied, plan.(pageBecomesEmpty := true);
      }
      var bits := pageOcc[2 * addr.handle + SideIndex(s)];
      assert bits == PageOcc(a, addr.handle, s);
      PB.IsEmptyIsEmpty(bits);
      PB.TestIsMembership(bits, addr.level);
      PB.TestIsMembership(bits, ps.best);
      if PB.IsEmpty(bits) || !PB.Test(bits, addr.level) || !PB.Test(bits, ps.best) {
        return InvariantViolation, plan;
      }
      if removedIsPageBest {
        var next := NextIndex(bits, s, addr.level);
        NextIndexIsNext(bits, s, addr.level);
        NextExists(active, s, addr.level, next);
        if next == PB.INVALID {
          return InvariantViolation, plan;
        }
        var v := ReadLevel(Address(addr.handle, next), s);
        assert next in active;
        LevelIsOk(a, Address(addr.handle, next), s);
        if v.count == 0 || v.total == 0 {
          return InvariantViolation, plan;
        }
        plan := plan.(nextLevel := next, pageBestChanges := true);
      }
      return Applied, plan;
    }

    /** Book half of the deactivation plan: where the cached book best goes. */
    method PlanBook(addr: Address, s: Side, pagePlan: Plan) returns (r: MutationResult, plan: Plan)
      requires Valid() && 1 <= addr.handle <= committed && Levels(View(), addr.handle, s)[addr.level].count == 1
      requires PagePlanOk(ActiveLevels(Levels(View(), addr.handle, s)), PageSum(View(), addr.handle, s), s, addr.level,
               pagePlan)
      requires !pagePlan.bookBestChanges && pagePlan.nextBookRaw == 0 && pagePlan.nextBookHandle == INVALID_HANDLE
      ensures r == Applied && PlanOk(View(), addr.handle, s, addr.level, plan)
    {
      hide Wf, PB.Valid, PB.Bits, OwnersOk, ActivePages, PageOk, BookOk, NextIndex, Levels, ActiveLevels, PageOcc;
      ghost var a := View();
      plan := pagePlan;
      BookFacts(a, addr.handle, s);
      PlanFacts(a, addr.handle, s, addr.level);
      var o := owners[addr.handle];
      var ps := pageSums[addr.handle].Get(s);
      var bs := bookSums[o.locate].Get(s);
      assert ps == PageSum(a, addr.handle, s) && bs == BookSum(a, o.locate, s);
      SplitJoin(o.page, addr.level, bs.bestRaw);
      if bs.activePages == 1 { SingletonOnly(ActivePages(a, o.locate, s), o.page); }
      if bs.bestRaw == JoinPrice(o.page, addr.level) {
        if bs.bestHandle != addr.handle || ps.best != addr.level {
          return InvariantViolation, plan;
        }
        plan := plan.(bookBestChanges := true);
        if !plan.pageBecomesEmpty {
          if !plan.pageBestChanges {
            return InvariantViolation, plan;
          }
          plan := plan.(nextBookRaw := JoinPrice(o.page, plan.nextLevel), nextBookHandle := addr.handle);
          return Applied, plan;
        }
        var bits := bookOcc[2 * o.locate + SideIndex(s)];
        assert bits == BookOcc(a, o.locate, s);
        var nextPage := NextIndex(bits, s, o.page);
        NextIndexIsNext(bits, s, o.page);
        NextPageFacts(a, addr.handle, s, nextPage);
        if bs.activePages == 1 {
          return if nextPage == PB.INVALID then Applied else InvariantViolation, plan;
        }
        if nextPage == PB.INVALID {
          return InvariantViolation, plan;
        }
        var nextHandle := PageHandle(o.locate, nextPage);
        if nextHandle == INVALID_HANDLE {
          return InvariantViolation, plan;
        }
        var next := pageSums[nextHandle].Get(s);
        assert next == PageSum(a, nextHandle, s);
        if next.active == 0 || next.best >= PARTS {
          return InvariantViolation, plan;
        }
        var v := ReadLevel(Address(nextHandle, next.best), s);
        if v.count == 0 || v.total == 0 {
          return InvariantViolation, plan;
        }
        plan := plan.(nextBookRaw := JoinPrice(nextPage, next.best), nextBookHandle := nextHandle);
        SplitJoin(nextPage, next.best, 0);
      } else if plan.pageBecomesEmpty && bs.activePages == 1 {
        return InvariantViolation, plan;
      }
      return Applied, plan;
    }

    method PageHandle(locate: u16, page: u16) returns (h: u32)
      requires Valid()
      ensures h == if locate == 0 then INVALID_HANDLE else Root(View(), locate, page)
    {
      hide Wf, PB.Valid, PB.Bits, ActivePages, PageOk, BookOk, OwnersOk;
      ghost var a := View();
      var none: u32 := INVALID_HANDLE;
      if locate == 0 {
        return none;
      }
      h := roots[RootIndex(locate, page)];
      assert h == Root(a, locate, page) && h <= committed;
      RootOwner(a, locate, page);
      if h == INVALID_HANDLE {
        return;
      }
      var o := owners[h];
      if !o.committed || o.locate != locate || o.page != page {
        return none;
      }
    }

    method ValidateDeactivation(addr: Address, s: Side) returns (r: MutationResult, plan: Plan)
      requires Valid() && 1 <= addr.handle <= committed && Levels(View(), addr.handle, s)[addr.level].count == 1
      ensures r == Applied && PlanOk(View(), addr.handle, s, addr.level, plan)
    {
      hide Wf, PB.Valid, PB.Bits, OwnersOk, ActivePages, PageOk, BookOk, Levels, ActiveLevels, PageOcc, PB.Test;
      ghost var a := View();
      plan := BLANK_PLAN;
      BookFacts(a, addr.handle, s);
      PlanFacts(a, addr.handle, s, addr.level);
      var o := owners[addr.handle];
      if !o.committed || o.locate == 0 {
        return InvariantViolation, plan;
      }
      var ps := pageSums[addr.handle].Get(s);
      var bs := bookSums[o.locate].Get(s);
      var bits := bookOcc[2 * o.locate + SideIndex(s)];
      assert ps == PageSum(a, addr.handle, s) && bs == BookSum(a, o.locate, s) && bits == BookOcc(a, o.locate, s);
      PB.TestIsMembership(bits, o.page);
      if ps.active == 0 || ps.active > PARTS || ps.best >= PARTS || bs.activePages == 0 || bs.activePages > PARTS ||
         bs.bestHandle == INVALID_HANDLE || !PB.Test(bits, o.page) {
        return InvariantViolation, plan;
      }
      RootOwner(a, o.locate, PageOf(bs.bestRaw));
      var cachedOwner := owners[bs.bestHandle];
      if !cachedOwner.committed || cachedOwner.locate != o.locate || cachedOwner.page != PageOf(bs.bestRaw) {
        return InvariantViolation, plan;
      }
      var cachedPage := pageSums[bs.bestHandle].Get(s);
      assert cachedPage == PageSum(a, bs.bestHandle, s);
      if cachedPage.active == 0 || cachedPage.best != LevelOf(bs.bestRaw) {
        return InvariantViolation, plan;
      }
      var cached := ReadLevel(Address(bs.bestHandle, LevelOf(bs.bestRaw)), s);
      BestLevelLive(a, bs.bestHandle, s);
      if cached.count == 0 || cached.total == 0 {
        return InvariantViolation, plan;
      }
      r, plan := PlanPage(addr, s);
      if r != Applied {
        return;
      }
      r, plan := PlanBook(addr, s, plan);
    }

    method ValidateErase(addr: Address, side: OrderSide, qty: u32) returns (r: MutationResult, plan: Plan)
      requires Valid()
      ensures r == EraseOutcome(View(), addr, side, qty)
      ensures r == Applied && Levels(View(), addr.handle, side)[addr.level].count == 1 ==>
                PlanOk(View(), addr.handle, side, addr.level, plan)
    {
      hide Wf, PlanOk;
      plan := BLANK_PLAN;
      if side == NoSide {
        return InvalidSide, plan;
      }
      if addr.handle == INVALID_HANDLE || addr.handle > committed {
        return InvalidPricePage, plan;
      }
      if qty == 0 {
        return InvalidQuantity, plan;
      }
      var v := ReadLevel(addr, side);
      LevelIsOk(View(), addr, side);
      if v.count == 0 || v.total == 0 {
        return MissingPriceLevel, plan;
      }
      if v.total < qty {
        return QuantityUnderflow, plan;
      }
      if v.count == 1 && v.total != qty {
        return InvariantViolation, plan;
      }
      if v.count > 1 && v.total == qty {
        return InvariantViolation, plan;
      }
      if v.count == 1 {
        r, plan := ValidateDeactivation(addr, side);
        return;
      }
      return Applied, plan;
    }

    method DeactivateLevel(addr: Address, s: Side, plan: Plan)
      requires pageOcc != bookOcc && Shape(View()) && 1 <= addr.handle <= committed
      requires PageSum(View(), addr.handle, s).active > 0 &&
               DeactivateSum(PageSum(View(), addr.handle, s), plan).best < PARTS
      requires BookSum(View(), owners[addr.handle].locate, s).activePages > 0
      modifies pageSums, pageOcc, bookSums, bookOcc
      ensures var a := old(View()); var o := a.owners[addr.handle]; var ps := PageSum(a, addr.handle, s);
              View() == Poke(a, addr.handle, s, Levels(a, addr.handle, s), DeactivateSum(ps, plan),
                             DeactivateOcc(ps, PageOcc(a, addr.handle, s), plan, addr.level),
                             DeactivateBookSum(BookSum(a, o.locate, s), plan),
                             DeactivateBookOcc(BookOcc(a, o.locate, s), plan, o.page))
    {
      hide PB.ResetBit, Poke;
      var o := owners[addr.handle];
      var ps := pageSums[addr.handle].Get(s);
      var bs := bookSums[o.locate].Get(s);
      var pageBits := pageOcc[2 * addr.handle + SideIndex(s)];
      var bookBits := bookOcc[2 * o.locate + SideIndex(s)];
      if plan.pageBecomesEmpty {
        ps := PageSummary(0, 0);
        bookBits := PB.ResetBit(bookBits, o.page);
        bs := bs.(activePages := bs.activePages - 1);
      } else {
        pageBits := PB.ResetBit(pageBits, addr.level);
        ps := ps.(active := ps.active - 1);
        if plan.pageBestChanges {
          ps := ps.(best := plan.nextLevel);
        }
        if ps.active == 1 {
          pageBits := PB.ResetBit(pageBits, ps.best);
        }
      }
      if plan.bookBestChanges {
        bs := bs.(bestRaw := plan.nextBookRaw, bestHandle := plan.nextBookHandle);
      }
      WriteSummaries(addr.handle, s, ps, pageBits, bs, bookBits);
    }

    method EraseValidated(addr: Address, s: Side, qty: u32, plan: Plan)
      requires Valid() && EraseOutcome(View(), addr, s, qty) == Applied
      requires Levels(View(), addr.handle, s)[addr.level].count == 1 ==>
                 PlanOk(View(), addr.handle, s, addr.level, plan)
      modifies pages, pageSums, pageOcc, bookSums, bookOcc
      ensures Valid() && View() == Erased(old(View()), addr, s, qty, plan)
    {
      hide Wf, OwnersOk, PlanOk, DeactivateOcc, DeactivateSum, DeactivateBookSum, DeactivateBookOcc;
      ghost var a := View();
      var v := ReadLevel(addr, s);
      ErasedOk(a, addr, s, qty, plan);
      WriteLevel(addr, s, Level(v.total - qty, v.count - 1));
      if v.count == 1 {
        DeactivatedWf(a, addr.handle, s, addr.level, plan);
        AdjustedShape(a, addr.handle, s, addr.level, Level(v.total - qty, v.count - 1));
        DeactivateLevel(addr, s, plan);
      }
    }

    method Erase(addr: Address, side: OrderSide, qty: u32) returns (r: MutationResult)
      requires Valid()
      modifies pages, pageSums, pageOcc, bookSums, bookOcc
      ensures Valid() && r == EraseOutcome(old(View()), addr, side, qty)
      ensures r != Applied ==> View() == old(View())
      ensures r == Applied ==>
                var a := old(View()); var v := Levels(a, addr.handle, side)[addr.level];
                OneLevel(a, View(), a.owners[addr.handle].locate, side, PriceAt(a, addr),
                         Level(v.total - qty, v.count - 1))
    {
      hide Wf, OneLevel, Erased, PlanOk;
      var plan;
      r, plan := ValidateErase(addr, side, qty);
      if r != Applied {
        return;
      }
      ErasedOk(View(), addr, side, qty, plan);
      EraseValidated(addr, side, qty, plan);
    }

    method Move(from: Address, oldQty: u32, to: Address, newQty: u32, side: OrderSide) returns (r: MutationResult)
      requires Valid()
      modifies pages, pageSums, pageOcc, bookSums, bookOcc
      ensures Valid() && r == MoveOutcome(old(View()), from, oldQty, to, newQty, side)
      ensures r != Applied ==> View() == old(View())
      ensures r == Applied ==>
                var a := old(View());
                Moved(a, View(), a.owners[from.handle].locate, side, PriceAt(a, from), oldQty, PriceAt(a, to), newQty)
    {
      hide Wf, OneLevel, Erased, Added, PlanOk, OwnersOk, Moved;
      if newQty == 0 {
        return InvalidQuantity;
      }
      if from.handle == INVALID_HANDLE || from.handle > committed || to.handle == INVALID_HANDLE ||
          to.handle > committed {
        return InvalidPricePage;
      }
      ghost var a := View();
      BookFacts(a, from.handle, Buy);
      BookFacts(a, to.handle, Buy);
      if !owners[from.handle].committed || !owners[to.handle].committed {
        return InvariantViolation;
      }
      if owners[from.handle].locate != owners[to.handle].locate {
        return LocateMismatch;
      }
      var plan;
      r, plan := ValidateErase(from, side, oldQty);
      if r != Applied {
        return;
      }
      if from == to {
        r := MoveInPlace(from, oldQty, newQty, side);
        return;
      }
      r := ValidateAdd(to, side, newQty);
      if r != Applied {
        return;
      }
      MoveAcross(from, oldQty, to, newQty, side, plan);
    }

    /** Commits a move between two levels: both halves were validated against the same state. */
    method MoveAcross(from: Address, oldQty: u32, to: Address, newQty: u32, s: Side, plan: Plan)
      requires Valid() && from != to && MoveOutcome(View(), from, oldQty, to, newQty, s) == Applied
      requires Levels(View(), from.handle, s)[from.level].count == 1 ==>
                 PlanOk(View(), from.handle, s, from.level, plan)
      modifies pages, pageSums, pageOcc, bookSums, bookOcc
      ensures Valid()
      ensures var a := old(View());
              Moved(a, View(), a.owners[from.handle].locate, s, PriceAt(a, from), oldQty, PriceAt(a, to), newQty)
    {
      hide Wf, OneLevel, Erased, Added, PlanOk, OwnersOk, Moved, EraseOutcome, AddOutcome, Levels;
      ghost var a := View();
      MoveParts(a, from, oldQty, to, newQty, s);
      ErasedOk(a, from, s, oldQty, plan);
      ghost var mid := Erased(a, from, s, oldQty, plan);
      MoveSecondHalf(a, mid, from, oldQty, to, newQty, s);
      EraseValidated(from, s, oldQty, plan);
      AddedOk(mid, to, s, newQty);
      AddValidated(to, s, newQty);
      MoveBothHalves(a, mid, View(), from, oldQty, to, newQty, s);
    }

    method MoveInPlace(at: Address, oldQty: u32, newQty: u32, s: Side) returns (r: MutationResult)
      requires Valid() && newQty > 0 && EraseOutcome(View(), at, s, oldQty) == Applied
      modifies pages
      ensures Valid()
      ensures r == if Levels(old(View()), at.handle, s)[at.level].total - oldQty > U64_MAX - newQty
              then QuantityOverflow else Applied
      ensures r != Applied ==> View() == old(View())
      ensures r == Applied ==>
                var a := old(View());
                Moved(a, View(), a.owners[at.handle].locate, s, PriceAt(a, at), oldQty, PriceAt(a, at), newQty)
    {
      hide Wf, OneLevel, Moved;
      ghost var a := View();
      var v := ReadLevel(at, s);
      var withoutOld := v.total - oldQty;
      if withoutOld > U64_MAX - newQty {
        return QuantityOverflow;
      }
      AdjustedOk(a, at, s, Level(withoutOld + newQty, v.count));
      WriteLevel(at, s, Level(withoutOld + newQty, v.count));
      WfShape(View());
      InPlaceMoved(a, View(), at, oldQty, newQty, s);
      return Applied;
    }

    constructor (capacity: nat)
      requires 1 <= capacity < U32_MAX
      ensures Valid() && fresh(Repr())
      ensures committed == 0 && this.capacity == capacity
      ensures forall l: u16 :: !View().prepared[l]
      ensures forall l: u16, s: Side, raw: u32 :: LevelAt(View(), l, s, raw) == NO_LEVEL
    {
      hide Wf, Shape, LevelAt, PB.Empty, BlankLevels;
      this.capacity := capacity;
      roots := new u32[ROOT_SLOTS](_ => 0);
      prepared := new bool[LOCATES](_ => false);
      pages := new Pair<seq<Level>>[capacity](_ => BlankLevels());
      owners := new PageOwner[capacity + 1](_ => PageOwner(0, 0, false));
      pageSums := new Pair<PageSummary>[capacity + 1](_ => Pair(PageSummary(0, 0), PageSummary(0, 0)));
      pageOcc := new PB.Storage[2 * (capacity + 1)](_ => PB.Empty());
      bookSums := new Pair<BookSummary>[LOCATES](_ => Pair(BookSummary(0, 0, 0), BookSummary(0, 0, 0)));
      bookOcc := new PB.Storage[2 * LOCATES](_ => PB.Empty());
      committed, preparedBookCount := 0, 0;
      new;
      assert fresh(Repr()) by {
        assert fresh(roots) && fresh(prepared) && fresh(pages) && fresh(owners);
        assert fresh(pageSums) && fresh(pageOcc) && fresh(bookSums) && fresh(bookOcc);
      }
      BlankWf(View());
      assert PreparedBooks(View()) == {};
    }

    method PrepareBook(locate: u16) returns (r: MutationResult)
      requires Valid()
      modifies prepared, this`preparedBookCount
      ensures Valid() && r == if locate == 0 then InvalidLocate else Applied
      ensures View() == if locate == 0 then old(View()) else old(View()).(prepared := old(prepared[..])[locate := true])
    {
      hide Wf;
      if locate == 0 {
        return InvalidLocate;
      }
      ghost var a := View();
      PreparedWf(a, locate);
      PreparedOneMore(a, locate);
      if !prepared[locate] {
        prepared[locate] := true;
        preparedBookCount := preparedBookCount + 1;
      }
      assert prepared[..] == a.prepared[locate := true];
      return Applied;
    }

    method IsBookPrepared(locate: u16) returns (r: bool)
      requires Valid()
      ensures r == (locate != 0 && View().prepared[locate])
    {
      hide Wf;
      r := locate != 0 && prepared[locate];
    }

    method OwnsAddress(locate: u16, page: u16, addr: Address) returns (r: bool)
      requires Valid()
      ensures r == (locate != 0 && 1 <= addr.handle <= committed &&
                    View().owners[addr.handle].locate == locate && View().owners[addr.handle].page == page)
    {
      hide Wf, OwnersOk;
      if locate == 0 || addr.handle == INVALID_HANDLE || addr.handle > committed {
        return false;
      }
      BookFacts(View(), addr.handle, Buy);
      var o := owners[addr.handle];
      return o.committed && o.locate == locate && o.page == page;
    }

    /** Finds or reserves the page of a price; changes nothing. */
    method ReservePrice(locate: u16, raw: u32) returns (r: PriceReservation)
      requires Valid()
      ensures r.result == ReserveOutcome(View(), locate, raw)
      ensures r.result == Applied ==> IssuedIn(View(), locate, raw, r)
    {
      hide Wf, OwnersOk;
      ghost var a := View();
      r := PriceReservation(InvariantViolation, Address(INVALID_HANDLE, 0), 0, 0, 0, false);
      if locate == 0 {
        return r.(result := InvalidLocate);
      }
      var ready := IsBookPrepared(locate);
      if !ready {
        return r.(result := BookNotPrepared);
      }
      r := PriceReservation(InvariantViolation, Address(INVALID_HANDLE, LevelOf(raw)), locate, PageOf(raw), committed,
          false);
      var existing := roots[RootIndex(locate, PageOf(raw))];
      assert existing == Root(a, locate, PageOf(raw));
      if existing != INVALID_HANDLE {
        RootOwner(a, locate, PageOf(raw));
        var o := owners[existing];
        if !o.committed || o.locate != locate || o.page != PageOf(raw) {
          return;
        }
        return r.(result := Applied, address := Address(existing, LevelOf(raw)));
      }
      if committed >= capacity {
        return r.(result := PricePageCapacityExceeded);
      }
      return r.(result := Applied, address := Address(committed + 1, LevelOf(raw)), requiresCommit := true);
    }

    /** Publishes a reserved page.  Any reservation record may be passed; a stale one is refused. */
    method CommitReservation(r: PriceReservation) returns (result: MutationResult)
      requires Valid()
      modifies this`committed, roots, owners
      ensures Valid() && result == CommitOutcome(old(View()), r)
      ensures View() == if result == Applied && r.requiresCommit then PageCommitted(old(View()), r.locate, r.page)
                        else old(View())
      ensures forall l: u16, s: Side, raw: u32 :: LevelAt(View(), l, s, raw) == LevelAt(old(View()), l, s, raw)
    {
      hide Wf, OwnersOk, LevelAt;
      ghost var a := View();
      if r.result != Applied {
        return r.result;
      }
      if r.address.handle == INVALID_HANDLE {
        return InvalidPricePage;
      }
      if r.locate == 0 {
        return InvalidLocate;
      }
      var ready := IsBookPrepared(r.locate);
      if !ready {
        return BookNotPrepared;
      }
      var slot := RootIndex(r.locate, r.page);
      assert roots[slot] == Root(a, r.locate, r.page);
      if !r.requiresCommit {
        return if roots[slot] == r.address.handle then Applied else StaleReservation;
      }
      if roots[slot] != INVALID_HANDLE || committed != r.expected || r.address.handle != committed + 1 ||
         r.address.handle > capacity {
        return StaleReservation;
      }
      var h := r.address.handle;
      NextOwnerFree(a);
      if owners[h].committed {
        return InvariantViolation;
      }
      PageCommittedWf(a, r.locate, r.page);
      owners[h] := PageOwner(r.locate, r.page, true);
      committed := h;
      roots[slot] := h;
      assert owners[..] == a.owners[h := PageOwner(r.locate, r.page, true)];
      assert roots[..] == a.roots[slot := h];
      WfShape(View());
      return Applied;
    }

    method Best(locate: u16, side: OrderSide) returns (c: Cursor)
      requires Valid()
      ensures c.valid <==> side != NoSide && ActivePrices(View(), locate, side) != {}
      ensures c.valid ==> GoodCursor(View(), locate, side, c) && IsBest(ActivePrices(View(), locate, side), side, c.raw)
      ensures c.valid && side == Buy ==> forall x :: x in ActivePrices(View(), locate, Buy) ==> x <= c.raw
      ensures c.valid && side == Sell ==> forall x :: x in ActivePrices(View(), locate, Sell) ==> c.raw <= x
    {
      hide Wf, ActivePrices, OwnersOk, PB.Bits, PB.Valid, IsBest;
      ghost var a := View();
      var ready := IsBookPrepared(locate);
      if side == NoSide {
        return NO_CURSOR;
      }
      UnpreparedEmpty(a, locate, side);
      if !ready {
        return NO_CURSOR;
      }
      var bs := bookSums[locate].Get(side);
      assert bs == BookSum(a, locate, side);
      CachedBestIsBest(a, locate, side);
      if bs.activePages == 0 || bs.bestHandle == INVALID_HANDLE {
        return NO_CURSOR;
      }
      BestMember(ActivePrices(a, locate, side), side, bs.bestRaw);
      BestInNumbers(ActivePrices(a, locate, side), side, bs.bestRaw);
      return Cursor(bs.bestHandle, bs.bestRaw, locate, true);
    }

    method NextWorse(locate: u16, side: OrderSide, current: Cursor) returns (c: Cursor)
      requires Valid()
      ensures GoodCursor(View(), locate, side, current) ==>
                if c.valid then
                  GoodCursor(View(), locate, side, c) &&
                      IsNext(ActivePrices(View(), locate, side), side, current.raw, c.raw)
                else NothingWorse(ActivePrices(View(), locate, side), side, current.raw)
      ensures GoodCursor(View(), locate, side, current) && side == Buy ==>
                forall x :: x in ActivePrices(View(), locate, Buy) && x < current.raw ==>
                  c.valid && x <= c.raw < current.raw
      ensures GoodCursor(View(), locate, side, current) && side == Sell ==>
                forall x :: x in ActivePrices(View(), locate, Sell) && current.raw < x ==>
                  c.valid && current.raw < c.raw <= x
      ensures !OnPage(View(), locate, side, current) ==> c == NO_CURSOR
    {
      hide Wf, ActivePrices, OwnersOk, PB.Bits, PB.Valid, IsNext, NothingWorse, NextIndex, ActiveLevels, Levels;
      hide ActivePages, PageOk, BookOk;
      ghost var a := View();
      var ready := IsBookPrepared(locate);
      if side == NoSide || !current.valid || current.locate != locate || !ready {
        GoodCursorFacts(a, locate, side, current);
        return NO_CURSOR;
      }
      var page, level := PageOf(current.raw), LevelOf(current.raw);
      GoodCursorFacts(a, locate, side, current);
      if current.handle == INVALID_HANDLE || current.handle > committed {
        return NO_CURSOR;
      }
      BookFacts(a, current.handle, side);
      var o := owners[current.handle];
      if !o.committed || o.locate != locate || o.page != page {
        return NO_CURSOR;
      }
      var ps := pageSums[current.handle].Get(side);
      assert ps == PageSum(a, current.handle, side);
      var nextLevel := PB.INVALID;
      if ps.active > 1 {
        var bits := pageOcc[2 * current.handle + SideIndex(side)];
        assert bits == PageOcc(a, current.handle, side);
        nextLevel := NextIndex(bits, side, level);
        NextIndexIsNext(bits, side, level);
      }
      NextLevelFacts(a, current.handle, side, level, nextLevel);
      if nextLevel != PB.INVALID {
        assert nextLevel < PARTS;
        CursorOnPage(a, locate, side, current, nextLevel);
        NextInNumbers(ActivePrices(a, locate, side), side, current.raw, JoinPrice(page, nextLevel));
        return Cursor(current.handle, JoinPrice(page, nextLevel), locate, true);
      }
      c := NextPageBest(locate, side, current);
      NextInNumbers(ActivePrices(a, locate, side), side, current.raw, c.raw);
    }

    /** The cursor on the best level of the next worse active page. */
    method NextPageBest(locate: u16, s: Side, current: Cursor) returns (c: Cursor)
      requires Valid() && locate != 0 && 1 <= current.handle <= committed
      requires View().owners[current.handle].locate == locate &&
               View().owners[current.handle].page == PageOf(current.raw)
      ensures GoodCursor(View(), locate, s, current) &&
              NothingWorse(ActiveLevels(Levels(View(), current.handle, s)), s, LevelOf(current.raw)) ==>
                if c.valid then
                  GoodCursor(View(), locate, s, c) && IsNext(ActivePrices(View(), locate, s), s, current.raw, c.raw)
                else NothingWorse(ActivePrices(View(), locate, s), s, current.raw)
    {
      hide Wf, ActivePrices, OwnersOk, PB.Bits, PB.Valid, IsNext, NothingWorse, NextIndex, ActiveLevels, Levels;
      hide ActivePages, PageOk, BookOk;
      ghost var a := View();
      var page := PageOf(current.raw);
      var bits := bookOcc[2 * locate + SideIndex(s)];
      assert bits == BookOcc(a, locate, s);
      BookSide(a, locate, s);
      var nextPage := NextIndex(bits, s, page);
      NextIndexIsNext(bits, s, page);
      HopFacts(a, locate, s, current, nextPage);
      if nextPage == PB.INVALID {
        return NO_CURSOR;
      }
      assert nextPage < PARTS;
      var h := PageHandle(locate, nextPage);
      if h == INVALID_HANDLE {
        return NO_CURSOR;
      }
      var ps := pageSums[h].Get(s);
      assert ps == PageSum(a, h, s);
      if ps.active == 0 || ps.best >= PARTS {
        return NO_CURSOR;
      }
      return Cursor(h, JoinPrice(nextPage, ps.best), locate, true);
    }

    method ViewAt(c: Cursor, side: OrderSide) returns (v: LevelView)
      requires Valid()
      ensures GoodCursor(View(), c.locate, side, c) ==>
                var lv := LevelAt(View(), c.locate, side, c.raw); v == LevelView(c.raw, lv.total, lv.count, true)
      ensures !GoodCursor(View(), c.locate, side, c) ==> v == NO_VIEW
    {
      hide Wf, ActivePrices, OwnersOk, GoodCursor, LevelAt;
      ghost var a := View();
      CursorReads(a, side, c);
      if !c.valid {
        return NO_VIEW;
      }
      GoodCursorFacts(a, c.locate, side, c);
      if c.handle == INVALID_HANDLE || c.handle > committed {
        return NO_VIEW;
      }
      var o := owners[c.handle];
      if !o.committed || c.locate == 0 || o.locate != c.locate || o.page != PageOf(c.raw) || side == NoSide {
        return NO_VIEW;
      }
      var lv := ReadLevel(Address(c.handle, LevelOf(c.raw)), side);
      if lv.count == 0 {
        return NO_VIEW;
      }
      return LevelView(c.raw, lv.total, lv.count, true);
    }

    /** Writes one entry of an output the store does not own. */
    method PutView(output: array<LevelView>, count: nat, view: LevelView)
      requires Valid() && output as object !in Repr() && count < output.Length
      modifies output
      ensures View() == old(View()) && Valid()
      ensures output[..] == old(output[..])[count := view]
      ensures forall k :: 0 <= k < output.Length && k != count ==> output[k] == old(output[k])
    {
      hide Wf, Shape;
      ghost var before := output[..];
      output[count] := view;
      assert output[..] == before[count := view];
    }

    /** Fills `output` with the best levels of one side, best first; `t` lists their prices. */
    method TopTen(locate: u16, side: OrderSide, output: array<LevelView>) returns (count: nat, ghost t: seq<nat>)
      requires Valid() && output as object !in Repr()
      modifies output
      ensures View() == old(View()) && Valid()
      ensures count == |t| <= output.Length
      ensures side == NoSide ==> count == 0
      ensures side != NoSide ==>
                var prices := ActivePrices(View(), locate, side);
                && count == TopCount(output.Length, |prices|)
                && IsTop(prices, side, t)
                && Shows(View(), locate, side, output[..], t)
      ensures side == Buy ==> forall i, j :: 0 <= i < j < |t| ==> t[i] > t[j]
      ensures side == Sell ==> forall i, j :: 0 <= i < j < |t| ==> t[i] < t[j]
      ensures side == Buy ==>
                forall x, i :: x in ActivePrices(View(), locate, Buy) && x !in t && 0 <= i < |t| ==> x < t[i]
      ensures side == Sell ==>
                forall x, i :: x in ActivePrices(View(), locate, Sell) && x !in t && 0 <= i < |t| ==> x > t[i]
      ensures forall k :: count <= k < output.Length ==> output[k] == old(output[k])
    {
      hide Wf, ActivePrices, OwnersOk, IsTop, LevelAt, Shows, PreparedBooks;
      count, t := FillTop(locate, side, output);
      if side != NoSide { TopInNumbers(ActivePrices(View(), locate, side), side, t); }
    }

    /** The loop behind TopTen. */
    method FillTop(locate: u16, side: OrderSide, output: array<LevelView>) returns (count: nat, ghost t: seq<nat>)
      requires Valid() && output as object !in Repr()
      modifies output
      ensures View() == old(View()) && Valid()
      ensures count == |t| <= output.Length
      ensures side == NoSide ==> count == 0
      ensures side != NoSide ==>
                var prices := ActivePrices(View(), locate, side);
                && count == TopCount(output.Length, |prices|)
                && IsTop(prices, side, t)
                && Shows(View(), locate, side, output[..], t)
      ensures forall k :: count <= k < output.Length ==> output[k] == old(output[k])
    {
      hide Wf, ActivePrices, OwnersOk, IsTop, IsNext, NothingWorse, IsBest, LevelAt, Shows, PreparedBooks;
      ghost var a := View();
      var limit := if output.Length < TOP_LEVEL_COUNT then output.Length else TOP_LEVEL_COUNT;
      count, t := 0, [];
      var cursor := Best(locate, side);
      if side == NoSide {
        return;
      }
      ghost var prices := ActivePrices(a, locate, side);
      TopEmpty(prices, side);
      ShowsNothing(a, locate, side, output[..]);
      while cursor.valid && count < limit
        invariant View() == a && Valid()
        invariant count == |t| <= limit && IsTop(prices, side, t) && Shows(a, locate, side, output[..], t)
        invariant forall k :: count <= k < output.Length ==> output[k] == old(output[k])
        invariant cursor.valid && count < limit ==>
                    GoodCursor(a, locate, side, cursor) && IsTop(prices, side, t + [cursor.raw])
        invariant !cursor.valid ==> |prices| == count
        decreases limit - count
      {
        var view := ViewAt(cursor, side);
        if !view.valid {
          break;
        }
        ShowsMore(a, locate, side, output[..], t, cursor.raw, view);
        PutView(output, count, view);
        count := count + 1;
        t := t + [cursor.raw];
        if count == limit {
          break;
        }
        var next := NextWorse(locate, side, cursor);
        WalkStep(prices, side, t, cursor.raw, next);
        cursor := next;
      }
      TopSize(prices, side, t);
    }

    /** Best followed by NextWorse until the end: every active price of the side exactly once, in
        strictly worsening order. */
    method WalkSide(locate: u16, s: Side) returns (t: seq<nat>)
      requires Valid()
      ensures var prices := ActivePrices(View(), locate, s);
              IsTop(prices, s, t) && |t| == |prices| && forall x :: x in prices <==> x in t
      ensures s == Buy ==> forall i, j :: 0 <= i < j < |t| ==> t[i] > t[j]
      ensures s == Sell ==> forall i, j :: 0 <= i < j < |t| ==> t[i] < t[j]
    {
      hide Wf, ActivePrices, OwnersOk, IsTop, IsNext, NothingWorse, IsBest, LevelAt;
      ghost var a := View();
      t := [];
      var cursor := Best(locate, s);
      ghost var prices := ActivePrices(a, locate, s);
      TopEmpty(prices, s);
      while cursor.valid
        invariant IsTop(prices, s, t) && |t| <= |prices|
        invariant cursor.valid ==> GoodCursor(a, locate, s, cursor) && IsTop(prices, s, t + [cursor.raw])
        invariant !cursor.valid ==> |prices| == |t|
        decreases |prices| - |t|, cursor.valid
      {
        t := t + [cursor.raw];
        TopSize(prices, s, t);
        var next := NextWorse(locate, s, cursor);
        WalkStep(prices, s, t, cursor.raw, next);
        cursor := next;
      }
      TopSize(prices, s, t);
      TopMembers(prices, s, t);
      TopInNumbers(prices, s, t);
    }
  }

  function TopCount(room: nat, active: nat): nat {
    var limit := if room < TOP_LEVEL_COUNT then room else TOP_LEVEL_COUNT;
    if active < limit then active else limit
  }

  /** The first |t| views of `out` are the aggregates at the prices `t`. */
  ghost predicate Shows(a: Arena, l: u16, s: Side, out: seq<LevelView>, t: seq<nat>)
    requires Shape(a)
  {
    && |t| <= |out|
    && (forall i :: 0 <= i < |t| ==> t[i] <= U32_MAX)
    && (forall i :: 0 <= i < |t| ==>
         out[i] == LevelView(t[i], LevelAt(a, l, s, t[i]).total, LevelAt(a, l, s, t[i]).count, true))
  }

  lemma ShowsNothing(a: Arena, l: u16, s: Side, out: seq<LevelView>)
    requires Shape(a)
    ensures Shows(a, l, s, out, [])
  {
  }

  lemma ShowsPrefix(a: Arena, l: u16, s: Side, out: seq<LevelView>, t: seq<nat>)
    requires Shape(a) && Shows(a, l, s, out, t)
    ensures Shows(a, l, s, out[..|t|], t)
  {
  }

  lemma ShowsMore(a: Arena, l: u16, s: Side, out: seq<LevelView>, t: seq<nat>, raw: u32, view: LevelView)
    requires Shape(a) && Shows(a, l, s, out, t) && |t| < |out|
    requires view == LevelView(raw, LevelAt(a, l, s, raw).total, LevelAt(a, l, s, raw).count, true)
    ensures Shows(a, l, s, out[|t| := view], t + [raw])
  {
  }

  /** The cursor stands on an active price of the book side and carries the right page. */
  ghost predicate GoodCursor(a: Arena, l: u16, side: OrderSide, c: Cursor)
    requires Shape(a)
  {
    && side != NoSide && c.valid && c.locate == l
    && c.raw in ActivePrices(a, l, side) && c.handle == Root(a, l, PageOf(c.raw))
  }

  /** The cursor names a committed page of the book and a price on it. */
  ghost predicate OnPage(a: Arena, l: u16, side: OrderSide, c: Cursor)
    requires Shape(a)
  {
    && side != NoSide && c.valid && c.locate == l && l != 0 && a.prepared[l]
    && 1 <= c.handle <= a.committed && a.owners[c.handle] == PageOwner(l, PageOf(c.raw), true)
  }

  /** A cursor is good exactly when its page is its own and its level is active. */
  lemma CursorReads(a: Arena, side: OrderSide, c: Cursor)
    requires Wf(a)
    ensures Shape(a) && (GoodCursor(a, c.locate, side, c) ==> OnPage(a, c.locate, side, c))
    ensures OnPage(a, c.locate, side, c) <==>
              && side != NoSide && c.valid && 1 <= c.handle <= a.committed && c.locate != 0
              && a.owners[c.handle].locate == c.locate && a.owners[c.handle].page == PageOf(c.raw)
    ensures OnPage(a, c.locate, side, c) ==>
              && LevelAt(a, c.locate, side, c.raw) == Levels(a, c.handle, side)[LevelOf(c.raw)]
              && (GoodCursor(a, c.locate, side, c) <==> Levels(a, c.handle, side)[LevelOf(c.raw)].count != 0)
  {
    hide PageOk, BookOk, PB.Valid, PB.Bits;
    GoodCursorFacts(a, c.locate, side, c);
    if 1 <= c.handle <= a.committed { assert OwnerOk(a, c.handle); }
  }

  lemma GoodCursorFacts(a: Arena, l: u16, side: OrderSide, c: Cursor)
    requires Wf(a)
    ensures GoodCursor(a, l, side, c) ==>
              && l != 0 && a.prepared[l] && 1 <= c.handle <= a.committed
              && a.owners[c.handle] == PageOwner(l, PageOf(c.raw), true)
              && PageOf(c.raw) in ActivePages(a, l, side)
              && LevelOf(c.raw) in ActiveLevels(Levels(a, c.handle, side))
  {
    hide PB.Valid, PB.Bits;
    if GoodCursor(a, l, side, c) {
      ActivePrice(a, l, side, c.raw);
      RootOwner(a, l, PageOf(c.raw));
      assert OwnerOk(a, c.handle);
    }
  }

  lemma UnpreparedEmpty(a: Arena, l: u16, s: Side)
    requires Wf(a)
    ensures l == 0 || !a.prepared[l] ==> ActivePrices(a, l, s) == {}
  {
    hide PB.Valid, PB.Bits;
    if raw: u32 :| raw in ActivePrices(a, l, s) {
      ActivePrice(a, l, s, raw);
      RootOwner(a, l, PageOf(raw));
      assert OwnerOk(a, Root(a, l, PageOf(raw)));
    }
  }

  lemma BestMember(xs: set<nat>, s: Side, b: nat)
    requires IsBest(xs, s, b)
    ensures b in xs && xs != {}
  {
  }

  /** What the page-level search found, given that a page bitmap is empty below two levels. */
  lemma NextLevelFacts(a: Arena, h: u32, s: Side, level: u16, next: nat)
    requires Wf(a) && 1 <= h <= a.committed
    requires var bits := PB.Bits(PageOcc(a, h, s));
             if PageSum(a, h, s).active > 1 then
               if next == PB.INVALID then NothingWorse(bits, s, level) else next < PARTS && IsNext(bits, s, level, next)
             else next == PB.INVALID
    ensures level in ActiveLevels(Levels(a, h, s)) ==>
              if next == PB.INVALID then NothingWorse(ActiveLevels(Levels(a, h, s)), s, level)
              else IsNext(ActiveLevels(Levels(a, h, s)), s, level, next)
  {
    hide PB.Valid, PB.Bits, ActiveLevels;
    BookFacts(a, h, s);
    var active := ActiveLevels(Levels(a, h, s));
    if level in active && |active| == 1 { SingletonOnly(active, level); }
  }

  lemma CursorOnPage(a: Arena, l: u16, s: Side, c: Cursor, next: u16)
    requires Wf(a)
    ensures GoodCursor(a, l, s, c) && IsNext(ActiveLevels(Levels(a, c.handle, s)), s, LevelOf(c.raw), next) ==>
              var raw := JoinPrice(PageOf(c.raw), next);
              IsNext(ActivePrices(a, l, s), s, c.raw, raw) && GoodCursor(a, l, s, Cursor(c.handle, raw, l, true))
  {
    hide Wf, ActivePrices, PB.Valid, PB.Bits, ActivePages;
    WfShape(a);
    GoodCursorFacts(a, l, s, c);
    if GoodCursor(a, l, s, c) && IsNext(ActiveLevels(Levels(a, c.handle, s)), s, LevelOf(c.raw), next) {
      NextOnPage(a, l, s, c.raw, next);
      SplitJoin(PageOf(c.raw), next, 0);
    }
  }

  /** What hopping to the next page gives. */
  lemma HopFacts(a: Arena, l: u16, s: Side, c: Cursor, next: nat)
    requires Wf(a) && 1 <= c.handle <= a.committed
    requires var pages := ActivePages(a, l, s);
             if next == PB.INVALID then NothingWorse(pages, s, PageOf(c.raw))
             else next < PARTS && IsNext(pages, s, PageOf(c.raw), next)
    ensures next != PB.INVALID ==>
              && next < PARTS && 1 <= Root(a, l, next) <= a.committed
              && PageSum(a, Root(a, l, next), s).active != 0 && PageSum(a, Root(a, l, next), s).best < PARTS
    ensures GoodCursor(a, l, s, c) && NothingWorse(ActiveLevels(Levels(a, c.handle, s)), s, LevelOf(c.raw)) ==>
              if next == PB.INVALID then NothingWorse(ActivePrices(a, l, s), s, c.raw)
              else var raw := JoinPrice(next, PageSum(a, Root(a, l, next), s).best);
                   && IsNext(ActivePrices(a, l, s), s, c.raw, raw)
                   && GoodCursor(a, l, s, Cursor(Root(a, l, next), raw, l, true))
  {
    hide Wf, ActivePrices, PB.Valid, PB.Bits, PageOk, BookOk, OwnersOk, NothingWorse, ActiveLevels;
    WfShape(a);
    if next != PB.INVALID {
      PageBest(a, l, s, next);
    }
    if GoodCursor(a, l, s, c) && NothingWorse(ActiveLevels(Levels(a, c.handle, s)), s, LevelOf(c.raw)) {
      GoodCursorFacts(a, l, s, c);
      if next == PB.INVALID {
        NoNext(a, l, s, c.raw);
      } else {
        NextOnOtherPage(a, l, s, c.raw, next);
        SplitJoin(next, PageSum(a, Root(a, l, next), s).best, 0);
      }
    }
  }

  lemma TopEmpty(xs: set<nat>, s: Side)
    ensures IsTop(xs, s, [])
    ensures forall b: nat :: IsBest(xs, s, b) ==> IsTop(xs, s, [] + [b])
  {
    forall b: nat | IsBest(xs, s, b) ensures IsTop(xs, s, [] + [b]) {
      TopStart(xs, s, b);
      assert [] + [b] == [b];
    }
  }

  lemma WalkStep(xs: set<nat>, s: Side, t: seq<nat>, raw: u32, next: Cursor)
    requires IsTop(xs, s, t) && |t| > 0 && t[|t| - 1] == raw
    requires if next.valid then IsNext(xs, s, raw, next.raw) else NothingWorse(xs, s, raw)
    ensures next.valid ==> IsTop(xs, s, t + [next.raw])
    ensures !next.valid ==> |xs| == |t|
  {
    hide IsTop, IsNext, NothingWorse;
    if next.valid { TopNext(xs, s, t, next.raw); } else { TopComplete(xs, s, t); }
  }

  function ReserveOutcome(a: Arena, locate: u16, raw: u32): MutationResult
    requires Shape(a)
  {
    if locate == 0 then InvalidLocate
    else if !a.prepared[locate] then BookNotPrepared
    else if Root(a, locate, PageOf(raw)) == INVALID_HANDLE && a.committed >= a.capacity then PricePageCapacityExceeded
    else Applied
  }

  /** `r` is what a successful reservation of a price in state `a` says. */
  predicate IssuedIn(a: Arena, locate: u16, raw: u32, r: PriceReservation)
    requires Shape(a)
  {
    var root := Root(a, locate, PageOf(raw));
    && r.result == Applied && r.locate == locate && r.page == PageOf(raw) && r.expected == a.committed
    && r.requiresCommit == (root == INVALID_HANDLE)
    && r.address == Address(if root == INVALID_HANDLE then a.committed + 1 else root, LevelOf(raw))
  }

  function CommitOutcome(a: Arena, r: PriceReservation): MutationResult
    requires Shape(a)
  {
    if r.result != Applied then r.result
    else if r.address.handle == INVALID_HANDLE then InvalidPricePage
    else if r.locate == 0 then InvalidLocate
    else if !a.prepared[r.locate] then BookNotPrepared
    else if !r.requiresCommit then
      if Root(a, r.locate, r.page) == r.address.handle then Applied else StaleReservation
    else if Root(a, r.locate, r.page) != INVALID_HANDLE || a.committed != r.expected ||
            r.address.handle != a.committed + 1 || r.address.handle > a.capacity then StaleReservation
    else Applied
  }

  lemma NextOwnerFree(a: Arena)
    requires Wf(a) && a.committed < a.capacity
    ensures !a.owners[a.committed + 1].committed
  {
  }

  function BlankLevels(): (p: Pair<seq<Level>>)
    ensures |p.buy| == |p.sell| == PARTS
    ensures forall i :: 0 <= i < PARTS ==> p.buy[i] == NO_LEVEL
    ensures forall i :: 0 <= i < PARTS ==> p.sell[i] == NO_LEVEL
  {
    Pair(seq(PARTS, _ => NO_LEVEL), seq(PARTS, _ => NO_LEVEL))
  }

  lemma BlankWf(a: Arena)
    requires 1 <= a.capacity < U32_MAX && a.committed == 0
    requires |a.roots| == ROOT_SLOTS && forall r :: 0 <= r < ROOT_SLOTS ==> a.roots[r] == 0
    requires |a.prepared| == LOCATES && |a.pages| == a.capacity
    requires forall h :: 0 <= h < |a.pages| ==> a.pages[h] == BlankLevels()
    requires |a.owners| == |a.pageSums| == a.capacity + 1 && forall h :: 0 <= h < |a.owners| ==> !a.owners[h].committed
    requires forall h :: 0 <= h < |a.pageSums| ==> a.pageSums[h] == Pair(PageSummary(0, 0), PageSummary(0, 0))
    requires |a.pageOcc| == 2 * (a.capacity + 1) && forall k :: 0 <= k < |a.pageOcc| ==> a.pageOcc[k] == PB.Empty()
    requires |a.bookSums| == LOCATES && forall l :: 0 <= l < LOCATES ==>
               a.bookSums[l] == Pair(BookSummary(0, 0, 0), BookSummary(0, 0, 0))
    requires |a.bookOcc| == 2 * LOCATES && forall k :: 0 <= k < |a.bookOcc| ==> a.bookOcc[k] == PB.Empty()
    ensures Shape(a) && Wf(a) && forall l: u16, s: Side, raw: u32 :: LevelAt(a, l, s, raw) == NO_LEVEL
  {
    hide PB.Empty, PB.Valid, PB.Bits, BlankLevels;
    PB.EmptyIsValid();
    assert forall k, s: Side :: 0 <= k < |a.pages| ==> |a.pages[k].Get(s)| == PARTS;
    assert Shape(a);
    forall h: u32, s: Side ensures 1 <= h <= a.capacity ==>
          PageOk(Levels(a, h, s), PageSum(a, h, s), PB.Bits(PageOcc(a, h, s)), s) {
      if 1 <= h <= a.capacity { assert ActiveLevels(Levels(a, h, s)) == {}; }
    }
    forall l: u16, s: Side ensures BookOk(a, l, s) {
      assert ActivePages(a, l, s) == {};
    }
  }

  ghost function PreparedBooks(a: Arena): set<u16>
    requires |a.prepared| == LOCATES
  {
    set l: u16 | 0 <= l < LOCATES && a.prepared[l]
  }

  lemma PreparedOneMore(a: Arena, locate: u16)
    requires |a.prepared| == LOCATES
    ensures PreparedBooks(a.(prepared := a.prepared[locate := true])) == PreparedBooks(a) + {locate}
    ensures a.prepared[locate] ==> PreparedBooks(a) + {locate} == PreparedBooks(a)
  {
  }

  lemma PreparedWf(a: Arena, locate: u16)
    requires Wf(a)
    ensures var a' := a.(prepared := a.prepared[locate := true]); Wf(a') && Shape(a')
  {
    hide PB.Valid, PB.Bits, PageOk;
    var a' := a.(prepared := a.prepared[locate := true]);
    assert Shape(a') by {
      forall k, s': Side | 0 <= k < |a'.pages| ensures |a'.pages[k].Get(s')| ==
          PARTS { assert |a.pages[k].Get(s')| == PARTS; }
    }
    forall h | 1 <= h <= a'.committed ensures OwnerOk(a', h) { assert OwnerOk(a, h); }
    forall l: u16, s: Side ensures BookOk(a', l, s) {
      assert BookOk(a, l, s);
      assert ActivePages(a', l, s) == ActivePages(a, l, s);
    }
    forall h: u32, s: Side ensures 1 <= h <= a'.capacity ==>
          PageOk(Levels(a', h, s), PageSum(a', h, s), PB.Bits(PageOcc(a', h, s)), s) {
      if 1 <= h <= a'.capacity { assert PageOk(Levels(a, h, s), PageSum(a, h, s), PB.Bits(PageOcc(a, h, s)), s); }
    }
    forall l: u16, p: u16 ensures Root(a', l, p) == Root(a, l, p) {}
  }

  /** Taking the order out of its level leaves the destination level as it was validated. */
  lemma MoveSecondHalf(a: Arena, mid: Arena, from: Address, oldQty: u32, to: Address, newQty: u32, s: Side)
    requires Wf(a) && Wf(mid) && MoveOutcome(a, from, oldQty, to, newQty, s) == Applied && from != to
    requires var v := Levels(a, from.handle, s)[from.level];
             OneLevel(a, mid, a.owners[from.handle].locate, s, PriceAt(a, from), Level(v.total - oldQty, v.count - 1))
    ensures Shape(mid) && AddOutcome(mid, to, s, newQty) == Applied
    ensures mid.owners == a.owners && Levels(mid, to.handle, s)[to.level] == Levels(a, to.handle, s)[to.level]
  {
    hide Wf, OwnersOk, LevelAt, Levels;
    LevelAtAddress(a, to, s);
    LevelAtAddress(mid, to, s);
    AddressesDiffer(a, from, to, s);
  }

  lemma MoveParts(a: Arena, from: Address, oldQty: u32, to: Address, newQty: u32, s: Side)
    requires Shape(a) && from != to && MoveOutcome(a, from, oldQty, to, newQty, s) == Applied
    ensures EraseOutcome(a, from, s, oldQty) == Applied && AddOutcome(a, to, s, newQty) == Applied
    ensures 1 <= from.handle <= a.committed && 1 <= to.handle <= a.committed
  {
  }

  lemma AddressesDiffer(a: Arena, from: Address, to: Address, s: Side)
    requires Wf(a) && from != to && 1 <= from.handle <= a.committed && 1 <= to.handle <= a.committed
    requires a.owners[from.handle].locate == a.owners[to.handle].locate
    ensures PriceAt(a, from) != PriceAt(a, to)
  {
    assert OwnerOk(a, from.handle) && OwnerOk(a, to.handle);
    SplitJoin(a.owners[from.handle].page, from.level, 0);
    SplitJoin(a.owners[to.handle].page, to.level, 0);
  }

  lemma MoveBothHalves(a: Arena, mid: Arena, a': Arena, from: Address, oldQty: u32, to: Address, newQty: u32, s: Side)
    requires Wf(a) && Wf(mid) && Shape(mid) && MoveOutcome(a, from, oldQty, to, newQty, s) == Applied && from != to
    requires var v := Levels(a, from.handle, s)[from.level];
             OneLevel(a, mid, a.owners[from.handle].locate, s, PriceAt(a, from), Level(v.total - oldQty, v.count - 1))
    requires AddOutcome(mid, to, s, newQty) == Applied
    requires var v := Levels(mid, to.handle, s)[to.level];
             OneLevel(mid, a', mid.owners[to.handle].locate, s, PriceAt(mid, to), Level(v.total + newQty, v.count + 1))
    requires mid.owners == a.owners && Levels(mid, to.handle, s)[to.level] == Levels(a, to.handle, s)[to.level]
    ensures Moved(a, a', a.owners[from.handle].locate, s, PriceAt(a, from), oldQty, PriceAt(a, to), newQty)
  {
    hide Wf, OwnersOk, LevelAt, Levels;
    LevelAtAddress(a, from, s);
    LevelAtAddress(a, to, s);
    AddressesDiffer(a, from, to, s);
  }

  lemma InPlaceMoved(a: Arena, a': Arena, at: Address, oldQty: u32, newQty: u32, s: Side)
    requires Wf(a) && newQty > 0 && EraseOutcome(a, at, s, oldQty) == Applied
    requires var v := Levels(a, at.handle, s)[at.level];
             v.total - oldQty + newQty <= U64_MAX &&
             OneLevel(a, a', a.owners[at.handle].locate, s, PriceAt(a, at), Level(v.total - oldQty + newQty, v.count))
    ensures Moved(a, a', a.owners[at.handle].locate, s, PriceAt(a, at), oldQty, PriceAt(a, at), newQty)
  {
    hide Wf, OwnersOk, LevelAt, Levels;
    LevelAtAddress(a, at, s);
  }

  lemma AdjustedShape(a: Arena, h: u32, s: Side, i: u16, v: Level)
    requires Shape(a) && 1 <= h <= a.committed
    ensures var a' := Adjusted(a, h, s, i, v); var l := a.owners[h].locate;
            && Shape(a') && a'.committed == a.committed && a'.owners == a.owners
            && Levels(a', h, s) == Levels(a, h, s)[i := v]
            && PageSum(a', h, s) == PageSum(a, h, s) && PageOcc(a', h, s) == PageOcc(a, h, s)
            && BookSum(a', l, s) == BookSum(a, l, s) && BookOcc(a', l, s) == BookOcc(a, l, s)
  {
    AdjustedIsPoke(a, h, s, i, v);
    var l := a.owners[h].locate;
    PokeFrame(a, h, s, Levels(a, h, s)[i := v], PageSum(a, h, s), PageOcc(a, h, s), BookSum(a, l, s), BookOcc(a, l, s));
  }

  /** An active level makes its page and its book active. */
  lemma PlanFacts(a: Arena, h: u32, s: Side, i: u16)
    requires Wf(a) && 1 <= h <= a.committed && Levels(a, h, s)[i].count != 0
    ensures var o := a.owners[h];
            && i in ActiveLevels(Levels(a, h, s)) && PageSum(a, h, s).active != 0
            && (PageSum(a, h, s).active == 1 ==> PageSum(a, h, s).best == i)
            && o.page in ActivePages(a, o.locate, s) && BookSum(a, o.locate, s).activePages != 0
  {
    hide PB.Valid, PB.Bits;
    BookFacts(a, h, s);
    var active := ActiveLevels(Levels(a, h, s));
    assert i in active;
    if |active| == 1 { SingletonOnly(active, i); }
  }

  lemma BestLevelLive(a: Arena, h: u32, s: Side)
    requires Wf(a) && 1 <= h <= a.committed && PageSum(a, h, s).active != 0
    ensures PageSum(a, h, s).best < PARTS
    ensures var v := Levels(a, h, s)[PageSum(a, h, s).best]; v.count != 0 && v.total != 0
  {
    hide PB.Valid, PB.Bits;
    BookFacts(a, h, s);
    LevelIsOk(a, Address(h, PageSum(a, h, s).best), s);
    assert PageSum(a, h, s).best in ActiveLevels(Levels(a, h, s));
  }

  lemma RootOwner(a: Arena, l: u16, p: u16)
    requires Wf(a)
    ensures var h := Root(a, l, p); h <= a.committed && (h != INVALID_HANDLE ==> a.owners[h] == PageOwner(l, p, true))
  {
    if Root(a, l, p) != INVALID_HANDLE { assert OwnerOk(a, Root(a, l, p)); }
  }

  /** With at least two members there is a next one after the best. */
  lemma NextExists(active: set<nat>, s: Side, b: nat, next: nat)
    requires |active| > 1 && IsBest(active, s, b)
    requires if next == PB.INVALID then NothingWorse(active, s, b) else IsNext(active, s, b, next)
    ensures next != PB.INVALID && IsBest(active - {b}, s, next)
  {
    if next == PB.INVALID {
      OnlyBestLeft(active, s, b);
    } else {
      NextBecomesBest(active, s, b, next);
    }
  }

  /** The page after the best page, when the best page is about to become empty. */
  lemma NextPageFacts(a: Arena, h: u32, s: Side, next: nat)
    requires Wf(a) && 1 <= h <= a.committed
    requires var o := a.owners[h]; var pages := ActivePages(a, o.locate, s);
             && IsBest(pages, s, o.page)
             && if next == PB.INVALID then NothingWorse(pages, s, o.page)
                else next < PARTS && IsNext(pages, s, o.page, next)
    ensures var o := a.owners[h]; var pages := ActivePages(a, o.locate, s);
            && (|pages| == 1 <==> next == PB.INVALID)
            && (|pages| != 1 ==>
                 && next < PARTS && IsBest(pages - {o.page}, s, next)
                 && 1 <= Root(a, o.locate, next) <= a.committed
                 && PageSum(a, Root(a, o.locate, next), s).active != 0
                 && PageSum(a, Root(a, o.locate, next), s).best < PARTS
                 && var v := Levels(a, Root(a, o.locate, next), s)[PageSum(a, Root(a, o.locate, next), s).best];
                    v.count != 0 && v.total != 0)
  {
    hide PB.Valid, PB.Bits, BookOk, PageOk;
    var o := a.owners[h];
    var pages := ActivePages(a, o.locate, s);
    if |pages| == 1 {
      SingletonOnly(pages, o.page);
    } else {
      NextExists(pages, s, o.page, next);
      PageBest(a, o.locate, s, next);
      BestLevelLive(a, Root(a, o.locate, next), s);
    }
  }

  lemma LevelIsOk(a: Arena, addr: Address, s: Side)
    requires Wf(a) && 1 <= addr.handle <= a.committed
    ensures LevelOk(Levels(a, addr.handle, s)[addr.level]) && a.owners[addr.handle].committed
  {
    hide PB.Valid, PB.Bits;
    assert OwnerOk(a, addr.handle);
    assert PageOk(Levels(a, addr.handle, s), PageSum(a, addr.handle, s), PB.Bits(PageOcc(a, addr.handle, s)), s);
  }

  lemma PageHasRoom(a: Arena, h: u32, s: Side, i: u16)
    requires Wf(a) && 1 <= h <= a.committed && Levels(a, h, s)[i].count == 0
    ensures PageSum(a, h, s).active < PARTS
  {
    hide PB.Valid, PB.Bits;
    assert PageOk(Levels(a, h, s), PageSum(a, h, s), PB.Bits(PageOcc(a, h, s)), s);
    ActiveLevelsBound(Levels(a, h, s), i);
  }

  /** What an addition that passed its checks may rely on. */
  lemma ValidatedFacts(a: Arena, addr: Address, s: Side, qty: u32)
    requires Wf(a) && AddOutcome(a, addr, s, qty) == Applied
    ensures 1 <= addr.handle <= a.committed
    ensures var v := Levels(a, addr.handle, s)[addr.level];
            && v.total + qty <= U64_MAX && v.count < U32_MAX
            && (v.count == 0 ==>
                 && PageSum(a, addr.handle, s).best < PARTS && PageSum(a, addr.handle, s).active < U32_MAX
                 && BookSum(a, a.owners[addr.handle].locate, s).activePages < U32_MAX)
  {
    hide Wf, OwnersOk;
    BookFacts(a, addr.handle, s);
    var v := Levels(a, addr.handle, s)[addr.level];
    if v.count == 0 {
      ActivatedWf(a, addr.handle, s, addr.level, Level(v.total + qty, v.count + 1));
    }
  }

  /** Activating a level and then writing its aggregate is the addition. */
  lemma AddedInSteps(a: Arena, addr: Address, s: Side, qty: u32, mid: Arena)
    requires Wf(a) && AddOutcome(a, addr, s, qty) == Applied
    requires Levels(a, addr.handle, s)[addr.level].count == 0 ==>
               && PageSum(a, addr.handle, s).best < PARTS && PageSum(a, addr.handle, s).active < U32_MAX
               && BookSum(a, a.owners[addr.handle].locate, s).activePages < U32_MAX
    requires var o := a.owners[addr.handle]; var ps := PageSum(a, addr.handle, s);
             mid == if Levels(a, addr.handle, s)[addr.level].count != 0 then a
                    else Poke(a, addr.handle, s, Levels(a, addr.handle, s), ActivateSum(ps, s, addr.level),
                              ActivateOcc(ps, PageOcc(a, addr.handle, s), addr.level),
                              ActivateBookSum(BookSum(a, o.locate, s), ps, s, JoinPrice(o.page, addr.level),
                                  addr.handle),
                              ActivateBookOcc(BookOcc(a, o.locate, s), ps, o.page))
    ensures var v := Levels(a, addr.handle, s)[addr.level];
            && Shape(mid) && 1 <= addr.handle <= mid.committed
            && Adjusted(mid, addr.handle, s, addr.level, Level(v.total + qty, v.count + 1)) == Added(a, addr, s, qty)
            && Shape(Added(a, addr, s, qty)) && PreparedBooks(Added(a, addr, s, qty)) == PreparedBooks(a)
  {
    hide Wf, OwnersOk, ActivateOcc, ActivateSum, ActivateBookSum, ActivateBookOcc;
    AddedOk(a, addr, s, qty);
    if Levels(a, addr.handle, s)[addr.level].count == 0 { ActivatedShape(a, mid, addr.handle, s); }
    WfShape(Added(a, addr, s, qty));
  }

  lemma ActivatedShape(a: Arena, a': Arena, h: u32, s: Side)
    requires Wf(a) && 1 <= h <= a.committed
    requires exists ps, po, bs, bo :: a' == Poke(a, h, s, Levels(a, h, s), ps, po, bs, bo)
    ensures Shape(a') && a'.committed == a.committed
  {
    var ps, po, bs, bo :| a' == Poke(a, h, s, Levels(a, h, s), ps, po, bs, bo);
    PokeFrame(a, h, s, Levels(a, h, s), ps, po, bs, bo);
  }
}
