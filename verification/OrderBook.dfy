/** One stock's book: a view over the shared order table and price-level store. */
module OrderBook {
  import opened Types
  import opened BookTypes
  import opened PriceIndex
  import opened PriceTraversal
  import opened PriceLevelStore
  import opened ReferenceBook
  import opened BookLaws
  import opened BookInvariant
  import opened Stores
  import OT = OrderTable

  /** The results that condemn a book: they report a broken internal invariant. */
  const DEFENSIVE: set<MutationResult> :=
    {QuantityOverflow, QuantityUnderflow, InvalidPricePage, MissingPriceLevel, StaleReservation,
     InvariantViolation, BookInvalid}

  ghost function BooksOf(w: World): Books {
    ReferenceBook.Books(LiveOf(w.states), w.seen, PagesOf(w.arena), OT.TakenSlots(w.table))
  }

  ghost predicate WorldOk(w: World) { Consistent(w.states, w.arena) && w.states.Keys <= w.seen }

  /** The other books keep their number of orders. */
  ghost predicate OthersKept(live: Live, live': Live, locate: u16) {
    forall l: u16 :: l != locate ==> |OrdersOf(live', l)| == |OrdersOf(live, l)|
  }

  /** What every mutation promises: the reference outcome and the reference books, and on rejection
      the price arena and the live orders exactly as they were. */
  ghost predicate Refines(ref: Outcome, r: MutationResult, w: World, w': World, locate: u16) {
    && ref == Outcome(r, BooksOf(w'))
    && (r != Applied ==> w'.states == w.states && w'.arena == w.arena)
    && w'.arena.prepared == w.arena.prepared
    && OthersKept(LiveOf(w.states), LiveOf(w'.states), locate)
  }

  lemma RejectionRefines(ref: Outcome, r: MutationResult, w: World, locate: u16)
    requires ref == Outcome(r, BooksOf(w)) && r != Applied
    ensures Refines(ref, r, w, w, locate)
  {
  }

  /** One more live order with these fields: its level gains its shares and one order, and no other
      level changes. */
  ghost predicate Entered(live: Live, live': Live, l: u16, s: Side, id: u64, price: u64, qty: u32) {
    && price <= U32_MAX && id !in live && live' == live[id := Order(l, s, price, qty)]
    && OnlyLevel(live, live', Key(l, s, price), qty, 1)
  }

  /** The side of an accepted addition follows its character. */
  lemma AddEnters(z: Sizes, w: World, w': World, l: u16, id: u64, price: u64, qty: u32, side: char, r: MutationResult)
    requires z.Valid() && WorldOk(w) && Refines(AddRef(z, BooksOf(w), l, id, price, qty, side), r, w, w', l)
    ensures side != 'B' && side != 'S' ==> r == InvalidSide
    ensures r == Applied && side == 'B' ==> Entered(LiveOf(w.states), LiveOf(w'.states), l, Buy, id, price, qty)
    ensures r == Applied && side == 'S' ==> Entered(LiveOf(w.states), LiveOf(w'.states), l, Sell, id, price, qty)
  {
    hide Wf, StatesOk, LevelsOk, OnlyLevel, AddRef, PagesOf, OT.TakenSlots, OthersKept;
    AddTaken(z, BooksOf(w), l, id, price, qty, side);
    AddMeans(z, BooksOf(w), l, id, price, qty, side);
  }

  datatype TopOfBook = TopOfBook(timestamp: u64, locate: u16, hasBid: bool, bidPrice: u32, bidQty: u64,
                                 hasAsk: bool, askPrice: u32, askQty: u64)

  datatype BookUpdate = BookUpdate(timestamp: u64, locate: u16, bids: seq<LevelView>, asks: seq<LevelView>)

  ghost predicate ShowsBest(live: Live, l: u16, s: Side, has: bool, price: u32, qty: u64) {
    && (has <==> ReferencePrices(live, l, s) != {})
    && (has ==> IsBest(ReferencePrices(live, l, s), s, price) && qty == TotalAt(live, Key(l, s, price)))
  }

  /** `views` lists the best prices of the live orders, best first, with sum and count of each. */
  ghost predicate ShowsTop(live: Live, l: u16, s: Side, views: seq<LevelView>) {
    var prices := ReferencePrices(live, l, s);
    && |views| == (if |prices| < TOP_LEVEL_COUNT then |prices| else TOP_LEVEL_COUNT)
    && IsTop(prices, s, seq(|views|, i requires 0 <= i < |views| => views[i].raw))
    && forall i :: 0 <= i < |views| ==>
         views[i].total == TotalAt(live, Key(l, s, views[i].raw)) &&
             views[i].count == CountAt(live, Key(l, s, views[i].raw))
  }

  /** A price is listed exactly when a live order of the book and side has it. */
  lemma PriceOfOrder(live: Live, l: u16, s: Side, raw: u32)
    ensures raw in ReferencePrices(live, l, s) <==>
              exists r :: r in live && live[r].locate == l && live[r].side == s && live[r].price == raw
  {
    if raw in ReferencePrices(live, l, s) {
      var r :| r in OrdersAt(live, Key(l, s, raw));
      assert live[r].locate == l && live[r].side == s && live[r].price == raw;
    }
    if r :| r in live && live[r].locate == l && live[r].side == s && live[r].price == raw {
      assert r in OrdersAt(live, Key(l, s, raw));
    }
  }

  /** The best price against the live orders themselves, with plain comparisons. */
  lemma BestOfOrders(live: Live, l: u16, s: Side, has: bool, price: u32, qty: u64)
    requires ShowsBest(live, l, s, has, price, qty)
    ensures has ==> exists r :: r in live && live[r].locate == l && live[r].side == s && live[r].price == price
    ensures forall r :: r in live && live[r].locate == l && live[r].side == s ==>
              has && (if s == Buy then live[r].price <= price else price <= live[r].price)
  {
    hide ReferencePrices;
    if has {
      BestInNumbers(ReferencePrices(live, l, s), s, price);
      PriceOfOrder(live, l, s, price);
    }
    forall r | r in live && live[r].locate == l && live[r].side == s
      ensures has && (if s == Buy then live[r].price <= price else price <= live[r].price)
    {
      PriceOfOrder(live, l, s, live[r].price);
    }
  }

  /** The listed levels against the live orders themselves, with plain comparisons. */
  lemma TopOfOrders(live: Live, l: u16, s: Side, views: seq<LevelView>)
    requires ShowsTop(live, l, s, views)
    ensures |views| <= 10
    ensures forall i, j :: 0 <= i < j < |views| ==>
              if s == Buy then views[i].raw > views[j].raw else views[i].raw < views[j].raw
    ensures forall r :: r in live && live[r].locate == l && live[r].side == s ==>
              || (exists i :: 0 <= i < |views| && views[i].raw == live[r].price)
              || (|views| == 10 &&
                  if s == Buy then live[r].price < views[9].raw else views[9].raw < live[r].price)
  {
    hide ReferencePrices, TotalAt, CountAt, IsTop;
    var prices := ReferencePrices(live, l, s);
    var t := seq(|views|, i requires 0 <= i < |views| => views[i].raw);
    TopInNumbers(prices, s, t);
    TopSize(prices, s, t);
    assert forall i :: 0 <= i < |views| ==> t[i] == views[i].raw;
    forall r | r in live && live[r].locate == l && live[r].side == s
      ensures || (exists i :: 0 <= i < |views| && views[i].raw == live[r].price)
              || (|views| == 10 &&
                  if s == Buy then live[r].price < views[9].raw else views[9].raw < live[r].price)
    {
      PriceOfOrder(live, l, s, live[r].price);
      if live[r].price in t {
        var i :| 0 <= i < |t| && t[i] == live[r].price;
        assert views[i].raw == live[r].price;
      }
    }
  }

  lemma TopIsReference(w: World, l: u16, s: Side, views: seq<LevelView>, t: seq<nat>)
    requires WorldOk(w) && |views| == |t| == TopCount(TOP_LEVEL_COUNT, |ActivePrices(w.arena, l, s)|)
    requires IsTop(ActivePrices(w.arena, l, s), s, t) && Shows(w.arena, l, s, views, t)
    ensures ShowsTop(LiveOf(w.states), l, s, views)
  {
    hide Wf, StatesOk, LiveOf, ActivePrices, ReferencePrices, IsTop, LevelAt;
    PricesAreReference(w.states, w.arena, l, s);
    assert seq(|views|, i requires 0 <= i < |views| => views[i].raw) == t;
  }

  class OrderBook {
    const stores: Stores
    const locate: u16
    var localInvalid: bool
    var liveOrderCount: nat
    var allocationFailures: nat
    var latestTimestamp: u64

    ghost predicate Valid()
      reads this, stores, stores.Repr()
    {
      && this as object !in stores.Repr() && stores.Linked() && WorldOk(stores.world)
      && locate != 0 && stores.world.arena.prepared[locate]
      && !localInvalid
      && liveOrderCount == |OrdersOf(LiveOf(stores.world.states), locate)|
    }

    constructor (locate: u16, stores: Stores)
      requires stores.Linked()
      ensures this.locate == locate && this.stores == stores && liveOrderCount == 0
      ensures Shape(stores.world.arena) && localInvalid == (locate == 0 || !stores.world.arena.prepared[locate])
    {
      this.locate := locate;
      this.stores := stores;
      liveOrderCount, allocationFailures, latestTimestamp := 0, 0, 0;
      var ready := stores.IsBookPrepared(locate);
      localInvalid := !ready;
    }

    method Reject(result: MutationResult) returns (r: MutationResult)
      modifies this`allocationFailures, this`localInvalid
      ensures r == result
      ensures localInvalid == (old(localInvalid) || result in DEFENSIVE)
      ensures allocationFailures == old(allocationFailures) +
                (if result == OrderTableCapacityExceeded || result == PricePageCapacityExceeded then 1 else 0)
    {
      if result == OrderTableCapacityExceeded || result == PricePageCapacityExceeded {
        allocationFailures := allocationFailures + 1;
      }
      if result in DEFENSIVE {
        localInvalid := true;
      }
      return result;
    }

    /** Finds or commits the page of a price.  A fresh reservation always commits. */
    method ClaimPage(price: u32) returns (r: MutationResult, res: PriceReservation)
      requires Valid()
      modifies stores.Repr()
      ensures Valid()
      ensures r == if PageFull(stores.Room(), BooksOf(old(stores.world)), Page(locate, PageOf(price)))
                   then PricePageCapacityExceeded else Applied
      ensures r != Applied ==> stores.world == old(stores.world)
      ensures r == Applied ==> Claims(old(stores.world), stores.world, locate, price, res)
    {
      hide Wf, OwnersOk, LevelAt, Stores.Linked, Claimed, Consistent, PageCommitted, OrdersOf, LiveOf, Claims;
      hide PagesOf, OT.TakenSlots;
      ghost var w := stores.world;
      WorldShape(w);
      res := stores.ReservePrice(locate, price);
      PageRoom(w, locate, price);
      if res.result != Applied {
        return res.result, res;
      }
      ClaimedPage(w, locate, price, res);
      r := Applied;
      if res.requiresCommit {
        r := stores.CommitReservation(res);
      }
      assert stores.world == if res.requiresCommit then w.(arena := PageCommitted(w.arena, res.locate, res.page))
          else w;
    }

    /** Adds to the level and publishes the order record, both already reserved. */
    method AddAt(id: u64, price: u32, qty: u32, side: Side, slot: OT.Reservation, res: PriceReservation)
      returns (r: MutationResult)
      requires Valid() && qty > 0 && id !in stores.world.states
      requires slot.result == Applied && slot.ref == id
      requires OT.Shape(stores.orders.config, stores.world.table)
      requires OT.IssuedIn(stores.orders.config, stores.world.table, slot)
      requires Claimed(stores.world.arena, locate, price, res)
      modifies this, stores.Repr()
      ensures Valid()
      ensures r == if LevelFull(LiveOf(old(stores.world).states), Key(locate, side, price)) then OrderCountOverflow
              else Applied
      ensures r != Applied ==> stores.world == old(stores.world)
      ensures r == Applied ==>
                Inserted(stores.Room(), old(stores.world), stores.world, id, Order(locate, side, price, qty))
      ensures latestTimestamp == old(latestTimestamp) && allocationFailures == old(allocationFailures)
    {
      hide Wf, OwnersOk, LevelAt, StatesOk, Stores.Linked, OT.IssuedIn, Levels, OneLevel, OrdersOf, LiveOf, CountAt;
      hide OT.TakenSlots, OT.SeatsWith, TotalAt, BooksOf, Seated;
      ghost var w := stores.world;
      var state := OrderState(qty, res.address.handle, res.address.level, locate, side, true, true, res.page);
      AddFacts(w.states, w.arena, state);
      SplitJoin(0, 0, price);
      r := stores.Add(res.address, side, qty);
      if r != Applied {
        return;
      }
      AddStep(stores.Room(), w, stores.world, id, state);
      r := stores.Commit(slot, state, w.table);
      if r != Applied {
        // The slot was free when it was reserved in this state, so there is nothing to roll back.
        assert false;
      }
      liveOrderCount := liveOrderCount + 1;
    }

    /** Reserves the reference, claims the page and adds: the part of addOrder after its argument checks. */
    method PlaceOrder(id: u64, price: u32, qty: u32, side: Side) returns (r: MutationResult)
      requires Valid() && qty > 0
      modifies this, stores.Repr()
      ensures Valid() && stores.Room().Valid()
      ensures Refines(PlaceRef(stores.Room(), BooksOf(old(stores.world)), id, Order(locate, side, price, qty)),
                      r, old(stores.world), stores.world, locate)
      ensures latestTimestamp == old(latestTimestamp) && allocationFailures == old(allocationFailures)
    {
      hide Wf, OwnersOk, LevelAt, LevelsOk, StatesOk, Stores.Linked, OT.IssuedIn, OneLevel, OrdersOf, LiveOf, Refines;
      hide Inserted, Claims, PlaceRef, OT.TakenSlots, PagesOf, LevelFull, OT.NoSeat, PageFull;
      ghost var w, z, o := stores.world, stores.Room(), Order(locate, side, price, qty);
      var slot := stores.Reserve(id);
      PlaceDecides(z, w, id, o);
      if slot.result != Applied {
        RejectionRefines(PlaceRef(z, BooksOf(w), id, o), slot.result, w, locate);
        return slot.result;
      }
      var res;
      r, res := ClaimPage(price);
      if r != Applied {
        RejectionRefines(PlaceRef(z, BooksOf(w), id, o), r, w, locate);
        return;
      }
      ghost var mid := stores.world;
      ClaimFacts(w, mid, locate, price, res);
      r := AddAt(id, price, qty, side, slot, res);
      if r != Applied {
        FullLevelWasClaimed(w, mid, o, res);
        RejectionRefines(PlaceRef(z, BooksOf(w), id, o), r, w, locate);
        return;
      }
      InsertRefines(z, w, mid, stores.world, id, o, res);
    }

    method AddOrder(id: u64, price: u64, qty: u32, side: char, timestamp: u64) returns (r: MutationResult)
      requires Valid()
      modifies this, stores.Repr()
      ensures Valid() && stores.Room().Valid()
      ensures Refines(AddRef(stores.Room(), BooksOf(old(stores.world)), locate, id, price, qty, side),
                      r, old(stores.world), stores.world, locate)
      ensures latestTimestamp == if r == Applied then timestamp else old(latestTimestamp)
      ensures allocationFailures == old(allocationFailures) +
                (if r == OrderTableCapacityExceeded || r == PricePageCapacityExceeded then 1 else 0)
      ensures side != 'B' && side != 'S' ==> r == InvalidSide
      ensures r == Applied && side == 'B' ==>
                Entered(LiveOf(old(stores.world).states), LiveOf(stores.world.states), locate, Buy, id, price, qty)
      ensures r == Applied && side == 'S' ==>
                Entered(LiveOf(old(stores.world).states), LiveOf(stores.world.states), locate, Sell, id, price, qty)
    {
      hide Wf, LevelAt, LevelsOk, StatesOk, Stores.Linked, OrdersOf, LiveOf, Refines, WorldOk, AddRef, BooksOf;
      hide Entered;
      if localInvalid {
        return BookInvalid;
      }
      var ready := stores.IsBookPrepared(locate);
      if !ready {
        return BookNotPrepared;
      }
      ghost var w := stores.world;
      var result := AddChecked(id, price, qty, side);
      AddNotDefensive(stores.Room(), BooksOf(w), locate, id, price, qty, side);
      NotDefensive(AddRef(stores.Room(), BooksOf(w), locate, id, price, qty, side), result, w, stores.world, locate);
      AddEnters(stores.Room(), w, stores.world, locate, id, price, qty, side, result);
      r := Conclude(result, timestamp);
    }

    /** Checks the arguments of an addition and performs it. */
    method AddChecked(id: u64, price: u64, qty: u32, side: char) returns (r: MutationResult)
      requires Valid()
      modifies this, stores.Repr()
      ensures Valid() && stores.Room().Valid()
      ensures latestTimestamp == old(latestTimestamp) && allocationFailures == old(allocationFailures)
      ensures Refines(AddRef(stores.Room(), BooksOf(old(stores.world)), locate, id, price, qty, side),
                      r, old(stores.world), stores.world, locate)
    {
      hide Wf, LevelAt, LevelsOk, StatesOk, Stores.Linked, OrdersOf, LiveOf, Refines, WorldOk, PlaceRef, BooksOf;
      ghost var w := stores.world;
      assert stores.Room().Valid() by { RoomValid(stores); }
      var decoded := DecodeSide(side);
      var check := if decoded == NoSide then InvalidSide
                   else if qty == 0 then InvalidQuantity
                   else if price > MAX_ITCH_PRICE4 then PriceOutOfRange
                   else Applied;
      if check != Applied {
        RejectionRefines(AddRef(stores.Room(), BooksOf(w), locate, id, price, qty, side), check, w, locate);
        return check;
      }
      r := PlaceOrder(id, price, qty, decoded);
    }

    /** Looks an order up for a mutation of this book; the record always passes the checks of its
        side, quantity, page handle and page owner. */
    method Lookup(id: u64) returns (result: MutationResult, slot: OT.Slot, st: OrderState)
      requires Valid()
      ensures result == LookupRef(BooksOf(stores.world), locate, id)
      ensures result == Applied ==>
                && Holds(stores.orders.config, stores.world, slot, id)
                && st == stores.world.states[id] && st.active && st.seen && StateOk(stores.world.arena, st)
    {
      hide Wf, OwnersOk, LevelAt, LevelsOk, Stores.Linked, StatesOk, LiveOf, OrdersOf, Consistent, Holds;
      slot, st := OT.DirectSlot(0), BLANK_STATE;
      RecordMatches(stores.world, id);
      WorldShape(stores.world);
      var found := stores.FindState(id);
      if found.None? {
        return OrderNotFound, slot, st;
      }
      slot := found.value;
      st := stores.Read(slot, id);
      if st.locate != locate {
        return LocateMismatch, slot, st;
      }
      StateIsOk(stores.world, id);
      if st.side == NoSide || st.qty == 0 || st.pageHandle == INVALID_HANDLE {
        assert false;
      }
      var owns := stores.OwnsAddress(locate, st.pageIndex, AddressOf(st));
      if !owns {
        assert false;
      }
      return Applied, slot, st;
    }

    /** Takes part of an order out of its level and its record. */
    method Reduce(id: u64, slot: OT.Slot, st: OrderState, qty: u32) returns (r: MutationResult)
      requires Valid() && Holds(stores.orders.config, stores.world, slot, id) && st == stores.world.states[id]
      requires st.locate == locate && st.active && st.seen && 0 < qty < st.qty
      modifies this, stores.Repr()
      ensures Valid() && r == Applied && st.side != NoSide
      ensures Updated(old(stores.world), stores.world, id, OrderOf(st.(qty := st.qty - qty)))
      ensures latestTimestamp == old(latestTimestamp) && allocationFailures == old(allocationFailures)
    {
      hide Wf, OwnersOk, LevelAt, LevelsOk, StatesOk, Stores.Linked, Levels, OneLevel, OrdersOf, LiveOf;
      ghost var w := stores.world;
      LiveLevel(w.states, w.arena, id);
      StateIsOk(w, id);
      r := stores.ReduceChecked(locate, st.pageIndex, AddressOf(st), st.side, st.qty, qty);
      if r != Applied {
        assert false;
      }
      ReduceStep(w, stores.world, id, qty);
      stores.Write(slot, st.(qty := st.qty - qty), id);
    }

    /** Takes a whole order out of its level and erases its record. */
    method Remove(id: u64, slot: OT.Slot, st: OrderState) returns (r: MutationResult)
      requires Valid() && Holds(stores.orders.config, stores.world, slot, id) && st == stores.world.states[id]
      requires st.locate == locate
      modifies this, stores.Repr()
      ensures Valid() && r == Applied && Removed(old(stores.world), stores.world, id, locate)
      ensures latestTimestamp == old(latestTimestamp) && allocationFailures == old(allocationFailures)
    {
      hide Wf, OwnersOk, LevelAt, LevelsOk, StatesOk, Stores.Linked, Levels, OneLevel, OrdersOf, LiveOf;
      ghost var w := stores.world;
      LiveLevel(w.states, w.arena, id);
      StateIsOk(w, id);
      r := stores.ErasePrice(AddressOf(st), st.side, st.qty);
      if r != Applied {
        assert false;
      }
      RemoveStep(w, stores.world, id);
      r := stores.EraseSlot(slot, id);
      liveOrderCount := liveOrderCount - 1;
    }

    method CancelShares(id: u64, qty: u32, timestamp: u64) returns (r: MutationResult)
      requires Valid()
      modifies this, stores.Repr()
      ensures Valid()
      ensures Refines(CancelRef(BooksOf(old(stores.world)), locate, id, qty),
                      r, old(stores.world), stores.world, locate)
      ensures latestTimestamp == if r == Applied then timestamp else old(latestTimestamp)
      ensures allocationFailures == old(allocationFailures) +
                (if r == OrderTableCapacityExceeded || r == PricePageCapacityExceeded then 1 else 0)
    {
      hide Wf, LevelAt, LevelsOk, StatesOk, Stores.Linked, OrdersOf, LiveOf, Refines, WorldOk, BooksOf;
      if localInvalid {
        return BookInvalid;
      }
      ghost var w := stores.world;
      var result := CancelLive(id, qty);
      NotDefensive(CancelRef(BooksOf(w), locate, id, qty), result, w, stores.world, locate);
      r := Conclude(result, timestamp);
    }

    /** Validates a cancel and performs it. */
    method CancelLive(id: u64, qty: u32) returns (r: MutationResult)
      requires Valid()
      modifies this, stores.Repr()
      ensures Valid() && latestTimestamp == old(latestTimestamp) && allocationFailures == old(allocationFailures)
      ensures Refines(CancelRef(BooksOf(old(stores.world)), locate, id, qty),
                      r, old(stores.world), stores.world, locate)
    {
      hide Wf, OwnersOk, LevelAt, LevelsOk, StatesOk, Stores.Linked, OrdersOf, LiveOf, Refines, WorldOk, StateOk, Holds;
      hide Updated, Shape, CancelRef, BooksOf, LookupRef;
      ghost var w := stores.world;
      ghost var ref := CancelRef(BooksOf(w), locate, id, qty);
      CancelDecides(w, locate, id, qty);
      if qty == 0 {
        RejectionRefines(ref, InvalidQuantity, w, locate);
        return InvalidQuantity;
      }
      var result, slot, st := Lookup(id);
      if result == Applied && qty >= st.qty {
        result := QuantityExceeded;
      }
      if result != Applied {
        RejectionRefines(ref, result, w, locate);
        return result;
      }
      r := Reduce(id, slot, st, qty);
      UpdateRefines(ref, w, stores.world, locate, id, OrderOf(st.(qty := st.qty - qty)));
    }

    method DeleteOrder(id: u64, timestamp: u64) returns (r: MutationResult)
      requires Valid()
      modifies this, stores.Repr()
      ensures Valid()
      ensures Refines(DeleteRef(BooksOf(old(stores.world)), locate, id), r, old(stores.world), stores.world, locate)
      ensures latestTimestamp == if r == Applied then timestamp else old(latestTimestamp)
      ensures allocationFailures == old(allocationFailures) +
                (if r == OrderTableCapacityExceeded || r == PricePageCapacityExceeded then 1 else 0)
    {
      hide Wf, LevelAt, LevelsOk, StatesOk, Stores.Linked, OrdersOf, LiveOf, Refines, WorldOk, BooksOf;
      if localInvalid {
        return BookInvalid;
      }
      ghost var w := stores.world;
      var result := DeleteLive(id);
      NotDefensive(DeleteRef(BooksOf(w), locate, id), result, w, stores.world, locate);
      r := Conclude(result, timestamp);
    }

    /** Validates a delete and performs it. */
    method DeleteLive(id: u64) returns (r: MutationResult)
      requires Valid()
      modifies this, stores.Repr()
      ensures Valid() && latestTimestamp == old(latestTimestamp) && allocationFailures == old(allocationFailures)
      ensures Refines(DeleteRef(BooksOf(old(stores.world)), locate, id), r, old(stores.world), stores.world, locate)
    {
      hide Wf, OwnersOk, LevelAt, LevelsOk, StatesOk, Stores.Linked, OrdersOf, LiveOf, Refines, WorldOk, StateOk, Holds;
      hide Removed, Shape;
      ghost var w := stores.world;
      ghost var ref := DeleteRef(BooksOf(w), locate, id);
      var result, slot, st := Lookup(id);
      RecordMatches(w, id);
      if result != Applied {
        RejectionRefines(ref, result, w, locate);
        return result;
      }
      r := Remove(id, slot, st);
      RemoveRefines(ref, w, stores.world, locate, id);
    }

    method ExecuteOrder(id: u64, qty: u32, timestamp: u64) returns (r: MutationResult)
      requires Valid()
      modifies this, stores.Repr()
      ensures Valid()
      ensures Refines(ExecuteRef(BooksOf(old(stores.world)), locate, id, qty),
                      r, old(stores.world), stores.world, locate)
      ensures latestTimestamp == if r == Applied then timestamp else old(latestTimestamp)
      ensures allocationFailures == old(allocationFailures) +
                (if r == OrderTableCapacityExceeded || r == PricePageCapacityExceeded then 1 else 0)
    {
      hide Wf, LevelAt, LevelsOk, StatesOk, Stores.Linked, OrdersOf, LiveOf, Refines, WorldOk, BooksOf;
      if localInvalid {
        return BookInvalid;
      }
      ghost var w := stores.world;
      var result := ExecuteLive(id, qty);
      NotDefensive(ExecuteRef(BooksOf(w), locate, id, qty), result, w, stores.world, locate);
      r := Conclude(result, timestamp);
    }

    /** Validates an execution and performs it. */
    method ExecuteLive(id: u64, qty: u32) returns (r: MutationResult)
      requires Valid()
      modifies this, stores.Repr()
      ensures Valid() && latestTimestamp == old(latestTimestamp) && allocationFailures == old(allocationFailures)
      ensures Refines(ExecuteRef(BooksOf(old(stores.world)), locate, id, qty),
                      r, old(stores.world), stores.world, locate)
    {
      hide Wf, OwnersOk, LevelAt, LevelsOk, StatesOk, Stores.Linked, OrdersOf, LiveOf, Refines, WorldOk, StateOk, Holds;
      hide Updated, Removed, Shape, ExecuteRef, BooksOf, LookupRef;
      ghost var w := stores.world;
      ghost var ref := ExecuteRef(BooksOf(w), locate, id, qty);
      ExecuteDecides(w, locate, id, qty);
      if qty == 0 {
        RejectionRefines(ref, InvalidQuantity, w, locate);
        return InvalidQuantity;
      }
      var result, slot, st := Lookup(id);
      if result == Applied && qty > st.qty {
        result := QuantityExceeded;
      }
      if result != Applied {
        RejectionRefines(ref, result, w, locate);
        return result;
      }
      if qty == st.qty {
        r := Remove(id, slot, st);
        RemoveRefines(ref, w, stores.world, locate, id);
      } else {
        r := Reduce(id, slot, st, qty);
        UpdateRefines(ref, w, stores.world, locate, id, OrderOf(st.(qty := st.qty - qty)));
      }
    }

    /** Replaces an order under its own reference: its quantity moves and its record is rewritten. */
    method ReplaceInPlace(id: u64, slot: OT.Slot, st: OrderState, price: u32, qty: u32, res: PriceReservation)
      returns (r: MutationResult)
      requires Valid() && Holds(stores.orders.config, stores.world, slot, id) && st == stores.world.states[id]
      requires st.locate == locate && st.active && st.seen && qty > 0 && Claimed(stores.world.arena, locate, price, res)
      modifies this, stores.Repr()
      ensures Valid() && st.side != NoSide && stores.Room().Valid()
      ensures r == if Crowded(LiveOf(old(stores.world).states), id, price) then OrderCountOverflow else Applied
      ensures r != Applied ==> stores.world == old(stores.world)
      ensures r == Applied ==>
                Replaced(stores.Room(), old(stores.world), stores.world, id, id, Order(locate, st.side, price, qty))
      ensures latestTimestamp == old(latestTimestamp) && allocationFailures == old(allocationFailures)
    {
      hide Wf, OwnersOk, LevelAt, LevelsOk, StatesOk, Stores.Linked, Levels, Moved, OrdersOf, LiveOf, MoveOutcome;
      hide Crowded;
      hide OT.TakenSlots;
      ghost var w := stores.world;
      assert stores.Room().Valid() by { RoomValid(stores); }
      var st' := st.(qty := qty, pageHandle := res.address.handle, levelIndex := res.address.level,
          pageIndex := res.page);
      StateIsOk(w, id);
      MoveFacts(w, id, st', price);
      MoveCrowded(w, id, st', price);
      r := stores.Move(AddressOf(st), st.qty, res.address, qty, st.side);
      if r != Applied {
        return;
      }
      MoveStep(stores.Room(), w, stores.world, id, id, st');
      stores.Write(slot, st', id);
    }

    /** Replaces an order by one with a new reference: the new record is published, the quantity
        moves, the old record is erased.  If the move is refused the new record is erased again,
        which leaves the new reference taken. */
    method ReplaceByNew(oldId: u64, newId: u64, slot: OT.Slot, st: OrderState, price: u32, qty: u32,
                        reserved: OT.Reservation, res: PriceReservation)
      returns (r: MutationResult)
      requires Valid() && Holds(stores.orders.config, stores.world, slot, oldId) && st == stores.world.states[oldId]
      requires newId != oldId && newId !in stores.world.states && reserved.result == Applied && reserved.ref == newId
      requires OT.Shape(stores.orders.config, stores.world.table)
      requires OT.IssuedIn(stores.orders.config, stores.world.table, reserved)
      requires st.locate == locate && qty > 0 && Claimed(stores.world.arena, locate, price, res)
      modifies this, stores.Repr()
      ensures Valid() && st.side != NoSide && stores.Room().Valid()
      ensures r == if Crowded(LiveOf(old(stores.world).states), oldId, price) then OrderCountOverflow else Applied
      ensures r != Applied ==> Leaked(stores.Room(), old(stores.world), stores.world, newId)
      ensures r == Applied ==>
                Replaced(stores.Room(), old(stores.world), stores.world, oldId, newId,
                    Order(locate, st.side, price, qty))
      ensures latestTimestamp == old(latestTimestamp) && allocationFailures == old(allocationFailures)
    {
      hide Wf, OwnersOk, LevelAt, LevelsOk, StatesOk, Stores.Linked, Levels, Moved, OrdersOf, LiveOf, MoveOutcome;
      hide Crowded;
      hide OT.IssuedIn, OT.TakenSlots, OT.SeatsWith;
      ghost var w := stores.world;
      assert stores.Room().Valid() by { RoomValid(stores); }
      var st' := OrderState(qty, res.address.handle, res.address.level, locate, st.side, true, true, res.page);
      StateIsOk(w, oldId);
      MoveFacts(w, oldId, st', price);
      MoveCrowded(w, oldId, st', price);
      r := stores.Commit(reserved, st', w.table);
      r := stores.Move(AddressOf(st), st.qty, res.address, qty, st.side);
      if r != Applied {
        var rollback := stores.Erase(newId);
        assert stores.world.states == w.states;
        assert rollback == Applied;
        return;
      }
      MoveStep(stores.Room(), w, stores.world, oldId, newId, st');
      r := stores.EraseSlot(slot, oldId);
      assert stores.world.states == (w.states - {oldId})[newId := st'];
    }

    /** Notes how a mutation ended: the timestamp of an accepted one, the bookkeeping of a rejection. */
    method Conclude(result: MutationResult, timestamp: u64) returns (r: MutationResult)
      requires Valid() && result !in DEFENSIVE
      modifies this
      ensures Valid() && r == result
      ensures latestTimestamp == if r == Applied then timestamp else old(latestTimestamp)
      ensures allocationFailures == old(allocationFailures) +
                (if r == OrderTableCapacityExceeded || r == PricePageCapacityExceeded then 1 else 0)
    {
      hide Wf, LevelAt, LevelsOk, StatesOk, Stores.Linked, OrdersOf, LiveOf, WorldOk;
      if result != Applied {
        r := Reject(result);
        return;
      }
      latestTimestamp := timestamp;
      return Applied;
    }

    method ReplaceOrder(oldId: u64, newId: u64, price: u64, qty: u32, timestamp: u64) returns (r: MutationResult)
      requires Valid()
      modifies this, stores.Repr()
      ensures Valid() && stores.Room().Valid()
      ensures Refines(ReplaceRef(stores.Room(), BooksOf(old(stores.world)), locate, oldId, newId, price, qty),
                      r, old(stores.world), stores.world, locate)
      ensures r != Applied && stores.world.seen != old(stores.world).seen <==>
                Leaks(stores.Room(), BooksOf(old(stores.world)), locate, oldId, newId, price, qty)
      ensures latestTimestamp == if r == Applied then timestamp else old(latestTimestamp)
      ensures allocationFailures == old(allocationFailures) +
                (if r == OrderTableCapacityExceeded || r == PricePageCapacityExceeded then 1 else 0)
    {
      hide Wf, LevelAt, LevelsOk, StatesOk, Stores.Linked, OrdersOf, LiveOf, Refines, WorldOk, ReplaceRef, BooksOf;
      hide Leaks;
      if localInvalid {
        return BookInvalid;
      }
      ghost var w := stores.world;
      var result := ReplaceLive(oldId, newId, price, qty);
      ReplaceLeaks(stores.Room(), w, stores.world, locate, oldId, newId, price, qty, result);
      r := Conclude(result, timestamp);
    }

    /** Validates a replacement and performs it. */
    method ReplaceLive(oldId: u64, newId: u64, price: u64, qty: u32) returns (r: MutationResult)
      requires Valid()
      modifies this, stores.Repr()
      ensures Valid() && stores.Room().Valid()
      ensures latestTimestamp == old(latestTimestamp) && allocationFailures == old(allocationFailures)
      ensures Refines(ReplaceRef(stores.Room(), BooksOf(old(stores.world)), locate, oldId, newId, price, qty),
                      r, old(stores.world), stores.world, locate)
    {
      hide Wf, OwnersOk, LevelAt, LevelsOk, StatesOk, Stores.Linked, OrdersOf, LiveOf, Refines, WorldOk, StateOk, Holds;
      hide Shape, ReplaceRef, SwapRef, BooksOf, LookupRef;
      ghost var w := stores.world;
      assert stores.Room().Valid() by { RoomValid(stores); }
      ghost var ref := ReplaceRef(stores.Room(), BooksOf(w), locate, oldId, newId, price, qty);
      ReplaceDecides(stores.Room(), w, locate, oldId, newId, price, qty);
      if qty == 0 || price > MAX_ITCH_PRICE4 {
        r := if qty == 0 then InvalidQuantity else PriceOutOfRange;
        RejectionRefines(ref, r, w, locate);
        return;
      }
      var result, slot, st := Lookup(oldId);
      if result != Applied {
        RejectionRefines(ref, result, w, locate);
        return result;
      }
      r := ReplaceFound(oldId, newId, slot, st, price, qty);
    }

    /** The part of replaceOrder after the old order was found. */
    method ReplaceFound(oldId: u64, newId: u64, slot: OT.Slot, st: OrderState, price: u32, qty: u32)
      returns (r: MutationResult)
      requires Valid() && Holds(stores.orders.config, stores.world, slot, oldId) && st == stores.world.states[oldId]
      requires st.locate == locate && st.active && st.seen && st.side != NoSide && qty > 0
      modifies this, stores.Repr()
      ensures Valid() && stores.Room().Valid()
      ensures latestTimestamp == old(latestTimestamp) && allocationFailures == old(allocationFailures)
      ensures Refines(SwapRef(stores.Room(), BooksOf(old(stores.world)), oldId, newId,
              Order(locate, st.side, price, qty)),
                      r, old(stores.world), stores.world, locate)
    {
      hide Wf, OwnersOk, LevelAt, LevelsOk, StatesOk, Stores.Linked, OrdersOf, LiveOf, Refines, StateOk, Claimed;
      hide Claims;
      hide OT.IssuedIn, Replaced, Leaked, Crowded, SwapRef, OT.TakenSlots, PagesOf, OT.NoSeat, PageFull;
      ghost var w, z, o := stores.world, stores.Room(), Order(locate, st.side, price, qty);
      assert z.Valid() by { RoomValid(stores); }
      SwapDecides(z, w, oldId, newId, o);
      var reserved := OT.Reservation(InvariantViolation, NoPath, 0, 0, 0);
      if newId != oldId {
        reserved := stores.Reserve(newId);
        if reserved.result != Applied {
          RejectionRefines(SwapRef(z, BooksOf(w), oldId, newId, o), reserved.result, w, locate);
          return reserved.result;
        }
      }
      var res;
      r, res := ClaimPage(price);
      if r != Applied {
        RejectionRefines(SwapRef(z, BooksOf(w), oldId, newId, o), r, w, locate);
        return;
      }
      ghost var mid := stores.world;
      ClaimFacts(w, mid, locate, price, res);
      if newId == oldId {
        r := ReplaceInPlace(oldId, slot, st, price, qty, res);
      } else {
        r := ReplaceByNew(oldId, newId, slot, st, price, qty, reserved, res);
      }
      if r != Applied {
        OverflowRefines(z, w, mid, stores.world, locate, oldId, newId, o, res);
      } else {
        ReplaceRefines(z, w, mid, stores.world, oldId, newId, o, res);
      }
    }

    /** The best bid and ask are those of the live orders, with their aggregate quantities. */
    method GetTopOfBook() returns (top: TopOfBook)
      requires Valid()
      ensures top.timestamp == latestTimestamp && top.locate == locate
      ensures ShowsBest(LiveOf(stores.world.states), locate, Buy, top.hasBid, top.bidPrice, top.bidQty)
      ensures ShowsBest(LiveOf(stores.world.states), locate, Sell, top.hasAsk, top.askPrice, top.askQty)
      ensures var live := LiveOf(stores.world.states);
              && (forall r :: r in live && live[r].locate == locate && live[r].side == Buy ==>
                   top.hasBid && live[r].price <= top.bidPrice)
              && (forall r :: r in live && live[r].locate == locate && live[r].side == Sell ==>
                   top.hasAsk && top.askPrice <= live[r].price)
    {
      hide Wf, OwnersOk, LevelAt, Stores.Linked, StatesOk, LiveOf, OrdersOf, ActivePrices, ReferencePrices, IsBest;
      PricesAreReference(stores.world.states, stores.world.arena, locate, Buy);
      PricesAreReference(stores.world.states, stores.world.arena, locate, Sell);
      var bid := stores.BestLevel(locate, Buy);
      var ask := stores.BestLevel(locate, Sell);
      top := TopOfBook(latestTimestamp, locate, bid.valid, bid.raw, bid.total, ask.valid, ask.raw, ask.total);
      ghost var live := LiveOf(stores.world.states);
      BestOfOrders(live, locate, Buy, bid.valid, bid.raw, bid.total);
      BestOfOrders(live, locate, Sell, ask.valid, ask.raw, ask.total);
    }

    /** The ten best levels of each side are the first ten of the sorted prices of the live orders,
        with their aggregates. */
    method GetBookUpdate() returns (update: BookUpdate)
      requires Valid()
      ensures update.timestamp == latestTimestamp && update.locate == locate
      ensures ShowsTop(LiveOf(stores.world.states), locate, Buy, update.bids)
      ensures ShowsTop(LiveOf(stores.world.states), locate, Sell, update.asks)
      ensures |update.bids| <= 10 && |update.asks| <= 10
      ensures forall i, j :: 0 <= i < j < |update.bids| ==> update.bids[i].raw > update.bids[j].raw
      ensures forall i, j :: 0 <= i < j < |update.asks| ==> update.asks[i].raw < update.asks[j].raw
      ensures var live := LiveOf(stores.world.states);
              && (forall r :: r in live && live[r].locate == locate && live[r].side == Buy ==>
                   || (exists i :: 0 <= i < |update.bids| && update.bids[i].raw == live[r].price)
                   || (|update.bids| == 10 && live[r].price < update.bids[9].raw))
              && (forall r :: r in live && live[r].locate == locate && live[r].side == Sell ==>
                   || (exists i :: 0 <= i < |update.asks| && update.asks[i].raw == live[r].price)
                   || (|update.asks| == 10 && update.asks[9].raw < live[r].price))
    {
      hide Wf, OwnersOk, LevelAt, Stores.Linked, StatesOk, LiveOf, OrdersOf, ActivePrices, ReferencePrices, IsTop;
      hide Shows, ShowsTop;
      ghost var w := stores.world;
      var bids, t := stores.TopTen(locate, Buy);
      TopIsReference(w, locate, Buy, bids, t);
      var asks, u := stores.TopTen(locate, Sell);
      TopIsReference(w, locate, Sell, asks, u);
      TopOfOrders(LiveOf(w.states), locate, Buy, bids);
      TopOfOrders(LiveOf(w.states), locate, Sell, asks);
      update := BookUpdate(latestTimestamp, locate, bids, asks);
    }
  }

  /** No mutation's outcome condemns its book. */
  lemma NotDefensive(ref: Outcome, r: MutationResult, w: World, w': World, locate: u16)
    requires Refines(ref, r, w, w', locate) && ref.result !in DEFENSIVE
    ensures r !in DEFENSIVE
  {
  }

  lemma AddNotDefensive(z: Sizes, b: Books, locate: u16, id: u64, price: u64, qty: u32, side: char)
    requires z.Valid()
    ensures AddRef(z, b, locate, id, price, qty, side).result !in DEFENSIVE
  {
  }

  lemma RoomValid(stores: Stores)
    requires stores.Linked()
    ensures stores.Room().Valid()
  {
  }

  // ----- Claiming a page ----------------------------------------------------------------

  /** `mid` is `w` after the page of the price was found or committed. */
  ghost predicate Claims(w: World, mid: World, locate: u16, price: u32, res: PriceReservation) {
    var page := Page(locate, PageOf(price));
    && SameOrders(w, mid) && Claimed(mid.arena, locate, price, res) && Shape(w.arena) && Wf(w.arena)
    && mid.arena.prepared == w.arena.prepared
    && PagesOf(mid.arena) == PagesOf(w.arena) + {page}
    && (page in PagesOf(w.arena) ==> mid == w)
  }

  /** A page can be claimed exactly when the simple books have room for it. */
  lemma PageRoom(w: World, locate: u16, price: u32)
    requires WorldOk(w) && locate != 0 && w.arena.prepared[locate]
    ensures forall z: Sizes :: z.pages == w.arena.capacity ==>
              ReserveOutcome(w.arena, locate, price) ==
              if PageFull(z, BooksOf(w), Page(locate, PageOf(price))) then PricePageCapacityExceeded else Applied
  {
    hide Wf, LevelsOk, StatesOk, LiveOf, OT.TakenSlots, PagesOf;
    PagesAreRoots(w.arena, locate, PageOf(price));
  }

  /** A fresh reservation commits, and gives the page of the price without changing any level. */
  lemma ClaimedPage(w: World, locate: u16, price: u32, res: PriceReservation)
    requires WorldOk(w) && locate != 0 && w.arena.prepared[locate]
    requires ReserveOutcome(w.arena, locate, price) == Applied && IssuedIn(w.arena, locate, price, res)
    ensures CommitOutcome(w.arena, res) == Applied
    ensures !res.requiresCommit ==> Claims(w, w, locate, price, res)
    ensures res.requiresCommit ==>
              && w.arena.committed < w.arena.capacity
              && var mid := w.(arena := PageCommitted(w.arena, res.locate, res.page));
                 && Consistent(mid.states, mid.arena) && Claims(w, mid, locate, price, res)
                 && mid.arena.prepared == w.arena.prepared
  {
    hide Wf, OwnersOk, LevelAt, LevelsOk, StatesOk, PagesOf;
    var a, page := w.arena, PageOf(price);
    RootOwner(a, locate, page);
    PagesAreRoots(a, locate, page);
    if res.requiresCommit {
      CommitKeeps(w.states, a, locate, page);
      PageCommittedWf(a, locate, page);
      PagesCommitted(a, locate, page);
    } else {
      assert PagesOf(a) == PagesOf(a) + {Page(locate, page)};
    }
  }

  lemma ClaimFacts(w: World, mid: World, locate: u16, price: u32, res: PriceReservation)
    requires Claims(w, mid, locate, price, res)
    ensures SameOrders(w, mid) && Claimed(mid.arena, locate, price, res)
    ensures BooksOf(mid) == BooksOf(w).(pages := BooksOf(w).pages + {Page(locate, PageOf(price))})
  {
  }

  /** The reservation names the committed page and the level of the price. */
  ghost predicate Claimed(a: Arena, locate: u16, price: u32, res: PriceReservation) {
    && Shape(a) && res.page == PageOf(price) && res.address.level == LevelOf(price)
    && 1 <= res.address.handle <= a.committed
    && a.owners[res.address.handle] == PageOwner(locate, PageOf(price), true)
  }

  /** `w'` is `w` with the order `o`, whose page is in use, added as `id`. */
  ghost predicate Inserted(z: Sizes, w: World, w': World, id: u64, o: Order) {
    && z.Valid() && BooksOf(w') == Seated(z, BooksOf(w), id).(live := BooksOf(w).live[id := o])
    && w'.arena.prepared == w.arena.prepared
    && OthersKept(BooksOf(w).live, BooksOf(w').live, o.locate)
  }

  /** What a validated addition does to its level, and why only the count can be at its limit. */
  lemma AddFacts(states: States, a: Arena, st: OrderState)
    requires Consistent(states, a) && StateOk(a, st)
    ensures st.side != NoSide && PriceAt(a, AddressOf(st)) == PriceOf(st)
    ensures LevelAt(a, st.locate, st.side, PriceOf(st)) == Levels(a, st.pageHandle, st.side)[st.levelIndex]
    ensures AddOutcome(a, AddressOf(st), st.side, st.qty) ==
              if LevelFull(LiveOf(states), Key(st.locate, st.side, PriceOf(st))) then OrderCountOverflow else Applied
    ensures LevelAt(a, st.locate, st.side, PriceOf(st)).count ==
            CountAt(LiveOf(states), Key(st.locate, st.side, PriceOf(st)))
  {
    hide Wf, LevelAt, CountAt, TotalAt;
    LevelAtAddress(a, AddressOf(st), st.side);
    RoomForQuantity(states, a, st.locate, st.side, PriceOf(st), st.qty);
  }

  /** After the level gained the quantity, publishing the order restores the invariant. */
  lemma AddStep(z: Sizes, w: World, mid: World, id: u64, st: OrderState)
    requires z.Valid() && WorldOk(w) && id !in w.states && StateOk(w.arena, st) && Wf(mid.arena) && SameOrders(w, mid)
    requires var v := LevelAt(w.arena, st.locate, st.side, PriceOf(st));
             v.count < U32_MAX && v.total + st.qty <= U64_MAX &&
             OneLevel(w.arena, mid.arena, st.locate, st.side, PriceOf(st), Level(v.total + st.qty, v.count + 1))
    ensures forall w': World ::
              && w'.arena == mid.arena && w'.states == w.states[id := st] && w'.seen == w.seen + {id}
              && OT.TakenSlots(w'.table) == OT.SeatsWith(z.table, OT.TakenSlots(w.table), id) ==>
                && WorldOk(w') && Inserted(z, w, w', id, OrderOf(st))
                && |OrdersOf(LiveOf(w'.states), st.locate)| == |OrdersOf(LiveOf(w.states), st.locate)| + 1
  {
    hide Wf, LevelAt, LevelsOk, StatesOk, OrdersOf, OT.TakenSlots, OT.SeatsWith;
    var v := LevelAt(w.arena, st.locate, st.side, PriceOf(st));
    InsertKeeps(w.states, w.arena, mid.arena, id, st, Level(v.total + st.qty, v.count + 1));
    SamePages(w.arena, mid.arena);
    var live := LiveOf(w.states);
    LivePositive(w.states, w.arena);
    forall l: u16
      ensures |OrdersOf(live[id := OrderOf(st)], l)| == |OrdersOf(live, l)| + (if l == st.locate then 1 else 0)
    {
      BookInsert(live, id, OrderOf(st), l);
    }
  }

  lemma SamePages(a: Arena, a': Arena)
    requires SameDirectory(a, a')
    ensures PagesOf(a') == PagesOf(a)
  {
  }

  /** Why an addition is refused, in the order in which the stores find out. */
  lemma PlaceDecides(z: Sizes, w: World, id: u64, o: Order)
    requires z.Valid()
    ensures var b := BooksOf(w); var ref := PlaceRef(z, b, id, o);
            if id in w.seen then ref == Outcome(DuplicateOrderRef, b)
            else if OT.NoSeat(z.table, OT.TakenSlots(w.table), id) then ref == Outcome(OrderTableCapacityExceeded, b)
            else if PageFull(z, b, PageAt(o)) then ref == Outcome(PricePageCapacityExceeded, b)
            else if LevelFull(LiveOf(w.states), KeyOf(o)) then ref == Outcome(OrderCountOverflow, b)
            else ref == Outcome(Applied, Seated(z, b, id).(live := b.live[id := o], pages := b.pages + {PageAt(o)}))
  {
    hide OT.NoSeat, OT.TakenSlots, PageFull, LevelFull, LiveOf, OT.SeatsWith, PagesOf;
  }

  /** A full level has a page, so claiming it changed nothing. */
  lemma FullLevelWasClaimed(w: World, mid: World, o: Order, res: PriceReservation)
    requires WorldOk(w) && Claims(w, mid, o.locate, o.price, res) && LevelFull(LiveOf(w.states), KeyOf(o))
    ensures mid == w
  {
    hide Wf, StatesOk, LiveOf, CountAt, TotalAt, PagesOf;
    assert LevelAt(w.arena, o.locate, o.side, o.price).count == CountAt(LiveOf(w.states), KeyOf(o));
    PagesAreRoots(w.arena, o.locate, PageOf(o.price));
  }

  lemma InsertRefines(z: Sizes, w: World, mid: World, w': World, id: u64, o: Order, res: PriceReservation)
    requires z.Valid() && Claims(w, mid, o.locate, o.price, res) && Inserted(z, mid, w', id, o)
    requires PlaceRef(z, BooksOf(w), id, o).result == Applied
    ensures Refines(PlaceRef(z, BooksOf(w), id, o), Applied, w, w', o.locate)
  {
    hide OT.NoSeat, OT.TakenSlots, LiveOf, OT.SeatsWith, PagesOf, OrdersOf, Wf, Shape, PageFull, LevelFull;
  }

  // ----- Looking up and changing one order ----------------------------------------------

  function LookupRef(b: Books, locate: u16, id: u64): MutationResult {
    if id !in b.live then OrderNotFound
    else if b.live[id].locate != locate then LocateMismatch
    else Applied
  }

  ghost predicate Updated(w: World, w': World, id: u64, o: Order) {
    && BooksOf(w') == BooksOf(w).(live := BooksOf(w).live[id := o])
    && w'.arena.prepared == w.arena.prepared
    && OthersKept(BooksOf(w).live, BooksOf(w').live, o.locate)
  }

  ghost predicate Removed(w: World, w': World, id: u64, locate: u16) {
    && BooksOf(w') == BooksOf(w).(live := BooksOf(w).live - {id})
    && w'.arena.prepared == w.arena.prepared
    && OthersKept(BooksOf(w).live, BooksOf(w').live, locate)
  }

  lemma WorldShape(w: World)
    requires WorldOk(w)
    ensures Shape(w.arena)
  {
  }

  lemma StateIsOk(w: World, id: u64)
    requires WorldOk(w) && id in w.states
    ensures StateOk(w.arena, w.states[id])
  {
  }

  lemma RecordMatches(w: World, id: u64)
    requires WorldOk(w)
    ensures id in w.states <==> id in BooksOf(w).live
    ensures id in w.states ==> w.states[id].side != NoSide && BooksOf(w).live[id] == OrderOf(w.states[id])
  {
    LivePositive(w.states, w.arena);
  }

  /** The reference decision on a partial cancel, in terms of the resident record. */
  lemma CancelDecides(w: World, locate: u16, id: u64, qty: u32)
    requires WorldOk(w)
    ensures var ref := CancelRef(BooksOf(w), locate, id, qty); var found := LookupRef(BooksOf(w), locate, id);
            if qty == 0 then ref == Outcome(InvalidQuantity, BooksOf(w))
            else if found != Applied then ref == Outcome(found, BooksOf(w))
            else
              && id in w.states && w.states[id].side != NoSide && w.states[id].locate == locate
              && if qty >= w.states[id].qty then ref == Outcome(QuantityExceeded, BooksOf(w))
                 else ref == Outcome(Applied, BooksOf(w).(
                        live := BooksOf(w).live[id := OrderOf(w.states[id].(qty := w.states[id].qty - qty))]))
  {
    hide WorldOk;
    RecordMatches(w, id);
  }

  lemma ExecuteDecides(w: World, locate: u16, id: u64, qty: u32)
    requires WorldOk(w)
    ensures var ref := ExecuteRef(BooksOf(w), locate, id, qty); var found := LookupRef(BooksOf(w), locate, id);
            if qty == 0 then ref == Outcome(InvalidQuantity, BooksOf(w))
            else if found != Applied then ref == Outcome(found, BooksOf(w))
            else
              && id in w.states && w.states[id].side != NoSide && w.states[id].locate == locate
              && if qty > w.states[id].qty then ref == Outcome(QuantityExceeded, BooksOf(w))
                 else if qty == w.states[id].qty then
                   ref == Outcome(Applied, BooksOf(w).(live := BooksOf(w).live - {id}))
                 else ref == Outcome(Applied, BooksOf(w).(
                        live := BooksOf(w).live[id := OrderOf(w.states[id].(qty := w.states[id].qty - qty))]))
  {
    hide WorldOk;
    RecordMatches(w, id);
  }

  lemma ReduceStep(w: World, mid: World, id: u64, qty: u32)
    requires WorldOk(w) && id in w.states && Wf(mid.arena) && SameOrders(w, mid) && 0 < qty < w.states[id].qty
    requires StateOk(w.arena, w.states[id])
    requires var st := w.states[id]; var v := LevelAt(w.arena, st.locate, st.side, PriceOf(st));
             v.total >= qty && OneLevel(w.arena, mid.arena, st.locate, st.side, PriceOf(st),
                 Level(v.total - qty, v.count))
    ensures var st' := w.states[id].(qty := w.states[id].qty - qty);
            forall w': World ::
              && w'.arena == mid.arena && w'.states == w.states[id := st'] && w'.seen == w.seen
              && OT.TakenSlots(w'.table) == OT.TakenSlots(w.table) ==>
              && WorldOk(w') && Updated(w, w', id, OrderOf(st'))
              && |OrdersOf(LiveOf(w'.states), st'.locate)| == |OrdersOf(LiveOf(w.states), st'.locate)|
  {
    hide Wf, LevelAt, LevelsOk, StatesOk, OrdersOf, OT.TakenSlots;
    SamePages(w.arena, mid.arena);
    var st := w.states[id];
    var v := LevelAt(w.arena, st.locate, st.side, PriceOf(st));
    ReduceKeeps(w.states, w.arena, mid.arena, id, qty, Level(v.total - qty, v.count));
    RecordMatches(w, id);
    var o := OrderOf(st.(qty := st.qty - qty));
    forall l: u16 ensures OrdersOf(LiveOf(w.states)[id := o], l) == OrdersOf(LiveOf(w.states), l) {
      BookAmend(LiveOf(w.states), id, o, l);
    }
  }

  lemma RemoveStep(w: World, mid: World, id: u64)
    requires WorldOk(w) && id in w.states && Wf(mid.arena) && SameOrders(w, mid) && StateOk(w.arena, w.states[id])
    requires var st := w.states[id]; var v := LevelAt(w.arena, st.locate, st.side, PriceOf(st));
             v.total >= st.qty && v.count >= 1 &&
             OneLevel(w.arena, mid.arena, st.locate, st.side, PriceOf(st), Level(v.total - st.qty, v.count - 1))
    ensures var locate := w.states[id].locate;
            forall w': World ::
              && w'.arena == mid.arena && w'.states == w.states - {id} && w'.seen == w.seen
              && OT.TakenSlots(w'.table) == OT.TakenSlots(w.table) ==>
              && WorldOk(w') && Removed(w, w', id, locate)
              && |OrdersOf(LiveOf(w'.states), locate)| == |OrdersOf(LiveOf(w.states), locate)| - 1
  {
    hide Wf, LevelAt, LevelsOk, StatesOk, OrdersOf, OT.TakenSlots;
    SamePages(w.arena, mid.arena);
    var st := w.states[id];
    var v := LevelAt(w.arena, st.locate, st.side, PriceOf(st));
    RemoveKeeps(w.states, w.arena, mid.arena, id, Level(v.total - st.qty, v.count - 1));
    RecordMatches(w, id);
    forall l: u16
      ensures |OrdersOf(LiveOf(w.states) - {id}, l)| ==
              |OrdersOf(LiveOf(w.states), l)| - (if l == st.locate then 1 else 0)
    {
      BookRemove(LiveOf(w.states), id, l);
    }
  }

  lemma UpdateRefines(ref: Outcome, w: World, w': World, locate: u16, id: u64, o: Order)
    requires Updated(w, w', id, o) && o.locate == locate
    requires ref == Outcome(Applied, BooksOf(w).(live := BooksOf(w).live[id := o]))
    ensures Refines(ref, Applied, w, w', locate)
  {
  }

  lemma RemoveRefines(ref: Outcome, w: World, w': World, locate: u16, id: u64)
    requires Removed(w, w', id, locate)
    requires ref == Outcome(Applied, BooksOf(w).(live := BooksOf(w).live - {id}))
    ensures Refines(ref, Applied, w, w', locate)
  {
  }

  // ----- Replacing an order -------------------------------------------------------------

  /** The books once `newId` is taken, if it is new. */
  function Retaken(z: Sizes, b: Books, oldId: u64, newId: u64): Books
    requires z.Valid()
  {
    if newId == oldId then b else Seated(z, b, newId)
  }

  ghost predicate Replaced(z: Sizes, w: World, w': World, oldId: u64, newId: u64, o: Order) {
    && z.Valid() && BooksOf(w') == Retaken(z, BooksOf(w), oldId,
       newId).(live := (BooksOf(w).live - {oldId})[newId := o])
    && w'.arena.prepared == w.arena.prepared
    && OthersKept(BooksOf(w).live, BooksOf(w').live, o.locate)
  }

  /** A refused replacement by a new reference: only that reference and its slot are taken. */
  ghost predicate Leaked(z: Sizes, w: World, w': World, newId: u64) {
    z.Valid() && w'.states == w.states && w'.arena == w.arena && BooksOf(w') == Seated(z, BooksOf(w), newId)
  }

  /** Moving a live order's quantity can only be refused because the destination's order count is
      at its maximum. */
  lemma MoveFacts(w: World, id: u64, st': OrderState, price: u32)
    requires WorldOk(w) && id in w.states && StateOk(w.arena, w.states[id]) && StateOk(w.arena, st')
    requires st'.locate == w.states[id].locate && st'.side == w.states[id].side
    requires st'.pageIndex == PageOf(price) && st'.levelIndex == LevelOf(price)
    ensures PriceOf(st') == price && PriceAt(w.arena, AddressOf(st')) == price
    ensures PriceAt(w.arena, AddressOf(w.states[id])) == PriceOf(w.states[id])
    ensures MoveOutcome(w.arena, AddressOf(w.states[id]), w.states[id].qty, AddressOf(st'), st'.qty, st'.side)
              in {Applied, OrderCountOverflow}
    ensures AddressOf(st') == AddressOf(w.states[id]) ==>
              MoveOutcome(w.arena, AddressOf(w.states[id]), w.states[id].qty, AddressOf(st'), st'.qty, st'.side) ==
                  Applied
  {
    hide Wf, LevelAt, LevelsOk, StatesOk, Levels;
    LiveLevel(w.states, w.arena, id);
    MoveRoom(w.states, w.arena, id, st'.qty);
    AddFacts(w.states, w.arena, st');
    SplitJoin(0, 0, price);
  }

  /** Exactly when the move is refused. */
  lemma MoveCrowded(w: World, id: u64, st': OrderState, price: u32)
    requires WorldOk(w) && id in w.states && StateOk(w.arena, w.states[id]) && StateOk(w.arena, st')
    requires st'.locate == w.states[id].locate && st'.side == w.states[id].side
    requires st'.pageIndex == PageOf(price) && st'.levelIndex == LevelOf(price)
    ensures MoveOutcome(w.arena, AddressOf(w.states[id]), w.states[id].qty, AddressOf(st'), st'.qty, st'.side) ==
              if Crowded(LiveOf(w.states), id, price) then OrderCountOverflow else Applied
  {
    hide Wf, LevelAt, StatesOk, Levels, CountAt, TotalAt, LiveOf;
    var st := w.states[id];
    MoveFacts(w, id, st', price);
    LiveLevel(w.states, w.arena, id);
    AddFacts(w.states, w.arena, st');
    RecordMatches(w, id);
    if AddressOf(st) != AddressOf(st') { AddressesDiffer(w.arena, AddressOf(st), AddressOf(st'), st.side); }
    assert LevelAt(w.arena, st.locate, st.side, price).count ==
        CountAt(LiveOf(w.states), Key(st.locate, st.side, price));
  }

  lemma MoveStep(z: Sizes, w: World, mid: World, id: u64, newId: u64, st': OrderState)
    requires z.Valid() && WorldOk(w) && id in w.states && StateOk(w.arena, st') && Wf(mid.arena)
    requires newId == id || newId !in w.states
    requires w.states[id].side == st'.side && w.states[id].locate == st'.locate
    requires Moved(w.arena, mid.arena, st'.locate, st'.side, PriceOf(w.states[id]), w.states[id].qty, PriceOf(st'),
             st'.qty)
    ensures forall w': World ::
              && w'.arena == mid.arena && w'.states == (w.states - {id})[newId := st'] && w'.seen == w.seen + {newId}
              && OT.TakenSlots(w'.table) == Retaken(z, BooksOf(w), id, newId).slots ==>
                && WorldOk(w') && Replaced(z, w, w', id, newId, OrderOf(st'))
                && |OrdersOf(LiveOf(w'.states), st'.locate)| == |OrdersOf(LiveOf(w.states), st'.locate)|
    ensures newId == id ==> w.states[id := st'] == (w.states - {id})[newId := st'] && w.seen == w.seen + {newId}
  {
    hide Wf, LevelAt, LevelsOk, StatesOk, OrdersOf, OT.TakenSlots, OT.SeatsWith;
    MoveKeeps(w.states, w.arena, mid.arena, id, newId, st');
    SamePages(w.arena, mid.arena);
    RecordMatches(w, id);
    RecordMatches(w, newId);
    var live := LiveOf(w.states);
    var o := OrderOf(st');
    forall l: u16
      ensures |OrdersOf((live - {id})[newId := o], l)| == |OrdersOf(live, l)|
    {
      BookRemove(live, id, l);
      BookInsert(live - {id}, newId, o, l);
    }
  }

  /** The reference decision on a replacement, up to the old order being found. */
  lemma ReplaceDecides(z: Sizes, w: World, locate: u16, oldId: u64, newId: u64, price: u64, qty: u32)
    requires z.Valid() && WorldOk(w)
    ensures var b := BooksOf(w); var ref := ReplaceRef(z, b, locate, oldId, newId, price, qty);
            var found := LookupRef(b, locate, oldId);
            if qty == 0 then ref == Outcome(InvalidQuantity, b)
            else if price > MAX_ITCH_PRICE4 then ref == Outcome(PriceOutOfRange, b)
            else if found != Applied then ref == Outcome(found, b)
            else
              && oldId in w.states && w.states[oldId].side != NoSide && w.states[oldId].locate == locate
              && ref == SwapRef(z, b, oldId, newId, Order(locate, w.states[oldId].side, price, qty))
  {
    hide WorldOk, SwapRef;
    RecordMatches(w, oldId);
  }

  /** Why a replacement of a live order is refused, in the order in which the stores find out. */
  lemma SwapDecides(z: Sizes, w: World, oldId: u64, newId: u64, o: Order)
    requires z.Valid() && WorldOk(w) && oldId in w.states
    ensures oldId in w.seen
    ensures var b := BooksOf(w); var ref := SwapRef(z, b, oldId, newId, o);
            if newId != oldId && newId in w.seen then ref == Outcome(DuplicateOrderRef, b)
            else if newId != oldId && OT.NoSeat(z.table, OT.TakenSlots(w.table), newId) then
              ref == Outcome(OrderTableCapacityExceeded, b)
            else if PageFull(z, b, PageAt(o)) then ref == Outcome(PricePageCapacityExceeded, b)
            else if Crowded(LiveOf(w.states), oldId, o.price)
                then ref == Outcome(OrderCountOverflow, Retaken(z, b, oldId, newId))
            else
              ref == Outcome(Applied, Retaken(z, b, oldId, newId).(
                       live := (b.live - {oldId})[newId := o], pages := b.pages + {PageAt(o)}))
  {
    hide OT.NoSeat, OT.TakenSlots, PageFull, Crowded, LiveOf, OT.SeatsWith, PagesOf, Consistent;
  }

  lemma OverflowRefines(z: Sizes, w: World, mid: World, w': World, locate: u16, oldId: u64, newId: u64, o: Order,
                        res: PriceReservation)
    requires z.Valid() && WorldOk(w) && oldId in w.states && w.states[oldId].side == o.side &&
             w.states[oldId].locate == o.locate
    requires Claims(w, mid, o.locate, o.price, res) && Crowded(LiveOf(w.states), oldId, o.price) && locate == o.locate
    requires if newId == oldId then w' == mid else Leaked(z, mid, w', newId)
    requires SwapRef(z, BooksOf(w), oldId, newId, o) ==
             Outcome(OrderCountOverflow, Retaken(z, BooksOf(w), oldId, newId))
    ensures Refines(SwapRef(z, BooksOf(w), oldId, newId, o), OrderCountOverflow, w, w', locate)
  {
    hide OT.NoSeat, OT.TakenSlots, LiveOf, OT.SeatsWith, PagesOf, OrdersOf, Wf, Shape, PageFull, SwapRef, CountAt;
    hide Claims, WorldOk;
    RecordMatches(w, oldId);
    FullLevelWasClaimed(w, mid, o, res);
  }

  lemma ReplaceRefines(z: Sizes, w: World, mid: World, w': World, oldId: u64, newId: u64, o: Order,
                       res: PriceReservation)
    requires z.Valid() && Claims(w, mid, o.locate, o.price, res) && Replaced(z, mid, w', oldId, newId, o)
    requires SwapRef(z, BooksOf(w), oldId, newId, o).result == Applied
    ensures Refines(SwapRef(z, BooksOf(w), oldId, newId, o), Applied, w, w', o.locate)
  {
    hide OT.NoSeat, OT.TakenSlots, LiveOf, OT.SeatsWith, PagesOf, OrdersOf, Wf, Shape, PageFull, Crowded;
  }

  /** Live orders are on pages in use. */
  lemma BooksCover(w: World)
    requires WorldOk(w)
    ensures PagesCover(BooksOf(w))
  {
    hide Wf, LevelsOk, OT.TakenSlots, PagesOf;
    forall r | r in BooksOf(w).live ensures PageAt(BooksOf(w).live[r]) in BooksOf(w).pages {
      var st := w.states[r];
      assert StateOk(w.arena, st);
      SplitJoin(st.pageIndex, st.levelIndex, 0);
      OwnerPage(w.arena, st.pageHandle);
    }
  }

  lemma OwnerPage(a: Arena, h: u32)
    requires Shape(a) && 1 <= h <= a.committed
    ensures Page(a.owners[h].locate, a.owners[h].page) in PagesOf(a)
  {
  }

  /** Exactly when a refused replacement takes its new reference. */
  lemma ReplaceLeaks(z: Sizes, w: World, w': World, locate: u16, oldId: u64, newId: u64, price: u64, qty: u32,
                     r: MutationResult)
    requires z.Valid() && WorldOk(w)
    requires Refines(ReplaceRef(z, BooksOf(w), locate, oldId, newId, price, qty), r, w, w', locate)
    ensures r !in DEFENSIVE
    ensures r != Applied && w'.seen != w.seen <==> Leaks(z, BooksOf(w), locate, oldId, newId, price, qty)
  {
    hide OT.NoSeat, OT.TakenSlots, LiveOf, OT.SeatsWith, PagesOf, Leaks, WorldOk, Crowded, PageFull;
    BooksCover(w);
    LeaksExactly(z, BooksOf(w), locate, oldId, newId, price, qty);
  }
}
