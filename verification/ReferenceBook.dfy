/** The simple form of the order book: a map of live orders, from which every aggregate follows. */
module ReferenceBook {
  import opened Types
  import opened BookTypes
  import opened FiniteSets
  import opened PriceIndex
  import OT = OrderTable

  const MAX_ITCH_PRICE4: nat := 2_000_000_000

  datatype Order = Order(locate: u16, side: Side, price: u32, qty: u32)

  type Live = map<u64, Order>

  /** One page of prices of one book. */
  datatype Page = Page(locate: u16, index: u16)

  /** The live orders and every reference accepted so far in the session, with the price pages and
      the fallback slots of the order table that they have used up. */
  datatype Books = Books(live: Live, seen: set<u64>, pages: set<Page>, slots: set<nat>)

  const NO_BOOKS: Books := Books(map[], {}, {}, {})

  /** How much room there is: the order table and the number of price pages. */
  datatype Sizes = Sizes(table: OT.Config, pages: nat) {
    predicate Valid() { table.Valid() }
  }

  datatype Key = Key(locate: u16, side: Side, price: u32)

  function KeyOf(o: Order): Key { Key(o.locate, o.side, o.price) }

  // ----- Aggregates ---------------------------------------------------------------------

  ghost function OrdersAt(live: Live, k: Key): set<u64> {
    set r | r in live && KeyOf(live[r]) == k
  }

  ghost function OrdersOf(live: Live, locate: u16): set<u64> {
    set r | r in live && live[r].locate == locate
  }

  ghost function SumQty(live: Live, rs: set<u64>): nat
    requires rs <= live.Keys
  {
    if rs == {} then 0 else
    var r :| r in rs;
    live[r].qty + SumQty(live, rs - {r})
  }

  ghost function CountAt(live: Live, k: Key): nat { |OrdersAt(live, k)| }

  ghost function TotalAt(live: Live, k: Key): nat { SumQty(live, OrdersAt(live, k)) }

  /** The sum does not depend on the order of summation. */
  lemma {:induction false} SumWithout(live: Live, rs: set<u64>, x: u64)
    requires rs <= live.Keys && x in rs
    ensures SumQty(live, rs) == live[x].qty + SumQty(live, rs - {x})
    decreases |rs|
  {
    var r :| r in rs && SumQty(live, rs) == live[r].qty + SumQty(live, rs - {r});
    if r != x {
      SumWithout(live, rs - {r}, x);
      SumWithout(live, rs - {x}, r);
      assert rs - {r} - {x} == rs - {x} - {r};
    }
  }

  lemma {:induction false} SumAgrees(a: Live, b: Live, rs: set<u64>)
    requires rs <= a.Keys && rs <= b.Keys && forall r :: r in rs ==> a[r].qty == b[r].qty
    ensures SumQty(a, rs) == SumQty(b, rs)
    decreases |rs|
  {
    if rs != {} {
      var r :| r in rs;
      SumWithout(a, rs, r);
      SumWithout(b, rs, r);
      SumAgrees(a, b, rs - {r});
    }
  }

  lemma {:induction false} SumBounds(live: Live, rs: set<u64>)
    requires rs <= live.Keys && forall r :: r in rs ==> live[r].qty > 0
    ensures |rs| <= SumQty(live, rs) <= |rs| * U32_MAX
    decreases |rs|
  {
    if rs != {} {
      var r :| r in rs;
      SumWithout(live, rs, r);
      SumBounds(live, rs - {r});
      assert |rs| == |rs - {r}| + 1;
    }
  }

  ghost predicate Positive(live: Live) {
    forall r :: r in live ==> live[r].qty > 0
  }

  /** Adding one order adds it to its own level only. */
  lemma InsertAggregates(live: Live, id: u64, o: Order, k: Key)
    requires id !in live
    ensures CountAt(live[id := o], k) == CountAt(live, k) + (if KeyOf(o) == k then 1 else 0)
    ensures TotalAt(live[id := o], k) == TotalAt(live, k) + (if KeyOf(o) == k then o.qty else 0)
  {
    var live' := live[id := o];
    if KeyOf(o) == k {
      assert OrdersAt(live', k) == OrdersAt(live, k) + {id};
      SumWithout(live', OrdersAt(live', k), id);
      assert OrdersAt(live', k) - {id} == OrdersAt(live, k);
    } else {
      assert OrdersAt(live', k) == OrdersAt(live, k);
    }
    SumAgrees(live, live', OrdersAt(live, k));
  }

  /** Removing one order removes it from its own level only. */
  lemma RemoveAggregates(live: Live, id: u64, k: Key)
    requires id in live
    ensures CountAt(live - {id}, k) == CountAt(live, k) - (if KeyOf(live[id]) == k then 1 else 0)
    ensures TotalAt(live - {id}, k) == TotalAt(live, k) - (if KeyOf(live[id]) == k then live[id].qty else 0)
  {
    var rest := live - {id};
    assert rest[id := live[id]] == live;
    InsertAggregates(rest, id, live[id], k);
  }

  /** Replacing an order's record moves it from its old level to its new one. */
  lemma UpdateAggregates(live: Live, id: u64, o: Order, k: Key)
    requires id in live
    ensures CountAt(live[id := o], k) ==
              CountAt(live, k) - (if KeyOf(live[id]) == k then 1 else 0) + (if KeyOf(o) == k then 1 else 0)
    ensures TotalAt(live[id := o], k) ==
              TotalAt(live, k) - (if KeyOf(live[id]) == k then live[id].qty else 0) + (if KeyOf(o) == k then o.qty
                  else 0)
  {
    RemoveAggregates(live, id, k);
    assert (live - {id})[id := o] == live[id := o];
    InsertAggregates(live - {id}, id, o, k);
  }

  /** What one live order implies about its level. */
  lemma MemberAggregates(live: Live, id: u64)
    requires id in live && Positive(live)
    ensures var k := KeyOf(live[id]); var n := CountAt(live, k); var t := TotalAt(live, k);
            && n >= 1 && t >= live[id].qty && t <= n * U32_MAX
            && (n == 1 <==> t == live[id].qty)
  {
    var rs := OrdersAt(live, KeyOf(live[id]));
    SumWithout(live, rs, id);
    SumBounds(live, rs);
    SumBounds(live, rs - {id});
    assert |rs| == |rs - {id}| + 1;
  }

  lemma LevelBounds(live: Live, k: Key)
    requires Positive(live)
    ensures CountAt(live, k) <= TotalAt(live, k) <= CountAt(live, k) * U32_MAX
  {
    SumBounds(live, OrdersAt(live, k));
  }

  // ----- Counting a book's orders -------------------------------------------------------

  lemma BookInsert(live: Live, id: u64, o: Order, l: u16)
    requires id !in live
    ensures |OrdersOf(live[id := o], l)| == |OrdersOf(live, l)| + (if o.locate == l then 1 else 0)
  {
    assert OrdersOf(live[id := o], l) == if o.locate == l then OrdersOf(live, l) + {id} else OrdersOf(live, l);
  }

  lemma BookRemove(live: Live, id: u64, l: u16)
    requires id in live
    ensures |OrdersOf(live - {id}, l)| == |OrdersOf(live, l)| - (if live[id].locate == l then 1 else 0)
  {
    assert (live - {id})[id := live[id]] == live;
    BookInsert(live - {id}, id, live[id], l);
  }

  lemma BookAmend(live: Live, id: u64, o: Order, l: u16)
    requires id in live && o.locate == live[id].locate
    ensures OrdersOf(live[id := o], l) == OrdersOf(live, l)
  {
  }

  // ----- Room ---------------------------------------------------------------------------

  function PageAt(o: Order): Page { Page(o.locate, PageOf(o.price)) }

  /** All pages are in use and this is not one of them. */
  ghost predicate PageFull(z: Sizes, b: Books, page: Page) { page !in b.pages && |b.pages| >= z.pages }

  /** The order count of the level is at its maximum. */
  ghost predicate LevelFull(live: Live, k: Key) { CountAt(live, k) == U32_MAX }

  /** Moving `id` would take it to another price whose level is full. */
  ghost predicate Crowded(live: Live, id: u64, price: u32) {
    id in live && live[id].price != price && LevelFull(live, Key(live[id].locate, live[id].side, price))
  }

  /** The reference is taken from now on, and so is its slot. */
  function Seated(z: Sizes, b: Books, id: u64): Books
    requires z.Valid()
  {
    b.(seen := b.seen + {id}, slots := OT.SeatsWith(z.table, b.slots, id))
  }

  // ----- The five mutations -------------------------------------------------------------

  function DecodeSide(c: char): OrderSide {
    if c == 'B' then Buy else if c == 'S' then Sell else NoSide
  }

  datatype Outcome = Outcome(result: MutationResult, books: Books)

  /** Adds an order whose fields are in range. */
  ghost function PlaceRef(z: Sizes, b: Books, id: u64, o: Order): Outcome
    requires z.Valid()
  {
    if id in b.seen then Outcome(DuplicateOrderRef, b)
    else if OT.NoSeat(z.table, b.slots, id) then Outcome(OrderTableCapacityExceeded, b)
    else if PageFull(z, b, PageAt(o)) then Outcome(PricePageCapacityExceeded, b)
    else if LevelFull(b.live, KeyOf(o)) then Outcome(OrderCountOverflow, b)
    else Outcome(Applied, Seated(z, b, id).(live := b.live[id := o], pages := b.pages + {PageAt(o)}))
  }

  ghost function AddRef(z: Sizes, b: Books, locate: u16, id: u64, price: u64, qty: u32, side: char): Outcome
    requires z.Valid()
  {
    if DecodeSide(side) == NoSide then Outcome(InvalidSide, b)
    else if qty == 0 then Outcome(InvalidQuantity, b)
    else if price > MAX_ITCH_PRICE4 then Outcome(PriceOutOfRange, b)
    else PlaceRef(z, b, id, Order(locate, DecodeSide(side), price, qty))
  }

  function CancelRef(b: Books, locate: u16, id: u64, qty: u32): Outcome {
    if qty == 0 then Outcome(InvalidQuantity, b)
    else if id !in b.live then Outcome(OrderNotFound, b)
    else if b.live[id].locate != locate then Outcome(LocateMismatch, b)
    else if qty >= b.live[id].qty then Outcome(QuantityExceeded, b)
    else Outcome(Applied, b.(live := b.live[id := b.live[id].(qty := b.live[id].qty - qty)]))
  }

  function DeleteRef(b: Books, locate: u16, id: u64): Outcome {
    if id !in b.live then Outcome(OrderNotFound, b)
    else if b.live[id].locate != locate then Outcome(LocateMismatch, b)
    else Outcome(Applied, b.(live := b.live - {id}))
  }

  function ExecuteRef(b: Books, locate: u16, id: u64, qty: u32): Outcome {
    if qty == 0 then Outcome(InvalidQuantity, b)
    else if id !in b.live then Outcome(OrderNotFound, b)
    else if b.live[id].locate != locate then Outcome(LocateMismatch, b)
    else if qty > b.live[id].qty then Outcome(QuantityExceeded, b)
    else if qty == b.live[id].qty then Outcome(Applied, b.(live := b.live - {id}))
    else Outcome(Applied, b.(live := b.live[id := b.live[id].(qty := b.live[id].qty - qty)]))
  }

  /** Replaces a live order by `o`.  The new reference is taken before the destination is known to
      have room for one more order. */
  ghost function SwapRef(z: Sizes, b: Books, oldId: u64, newId: u64, o: Order): Outcome
    requires z.Valid()
  {
    var b' := if newId == oldId then b else Seated(z, b, newId);
    if newId != oldId && newId in b.seen then Outcome(DuplicateOrderRef, b)
    else if newId != oldId && OT.NoSeat(z.table, b.slots, newId) then Outcome(OrderTableCapacityExceeded, b)
    else if PageFull(z, b, PageAt(o)) then Outcome(PricePageCapacityExceeded, b)
    else if Crowded(b.live, oldId, o.price) then Outcome(OrderCountOverflow, b')
    else Outcome(Applied, b'.(live := (b.live - {oldId})[newId := o], pages := b.pages + {PageAt(o)}))
  }

  ghost function ReplaceRef(z: Sizes, b: Books, locate: u16, oldId: u64, newId: u64, price: u64, qty: u32): Outcome
    requires z.Valid()
  {
    if qty == 0 then Outcome(InvalidQuantity, b)
    else if price > MAX_ITCH_PRICE4 then Outcome(PriceOutOfRange, b)
    else if oldId !in b.live then Outcome(OrderNotFound, b)
    else if b.live[oldId].locate != locate then Outcome(LocateMismatch, b)
    else SwapRef(z, b, oldId, newId, Order(locate, b.live[oldId].side, price, qty))
  }

  /** The rejections that depend on how much room is left. */
  const CAPACITY_RESULTS: set<MutationResult> :=
    {OrderTableCapacityExceeded, PricePageCapacityExceeded, OrderCountOverflow}

  // ----- The reference a refused replacement takes --------------------------------------

  /** Every live order is on a page in use. */
  ghost predicate PagesCover(b: Books) {
    forall r :: r in b.live ==> PageAt(b.live[r]) in b.pages
  }

  /** A replacement nothing speaks against but room. */
  ghost predicate Replaceable(b: Books, locate: u16, oldId: u64, newId: u64, price: u64, qty: u32) {
    && qty > 0 && price <= MAX_ITCH_PRICE4 && oldId in b.live && b.live[oldId].locate == locate
    && (newId == oldId || newId !in b.seen)
  }

  /** The condition under which a refused replacement leaves a trace. */
  ghost predicate Leaks(z: Sizes, b: Books, locate: u16, oldId: u64, newId: u64, price: u64, qty: u32)
    requires z.Valid()
  {
    && Replaceable(b, locate, oldId, newId, price, qty) && newId != oldId
    && !OT.NoSeat(z.table, b.slots, newId) && Crowded(b.live, oldId, price)
  }

  lemma LevelHasPage(b: Books, k: Key)
    requires PagesCover(b) && CountAt(b.live, k) > 0
    ensures Page(k.locate, PageOf(k.price)) in b.pages
  {
    var r :| r in OrdersAt(b.live, k);
    assert PageAt(b.live[r]) == Page(k.locate, PageOf(k.price));
  }

  /** A replacement is refused and yet takes its new reference exactly when it could go ahead but
      for a destination, at another price, whose order count is at its maximum. */
  lemma LeaksExactly(z: Sizes, b: Books, locate: u16, oldId: u64, newId: u64, price: u64, qty: u32)
    requires z.Valid() && PagesCover(b)
    ensures var o := ReplaceRef(z, b, locate, oldId, newId, price, qty);
            && (o.result != Applied && o.books.seen != b.seen <==> Leaks(z, b, locate, oldId, newId, price, qty))
            && (Leaks(z, b, locate, oldId, newId, price, qty) ==> o == Outcome(OrderCountOverflow, Seated(z, b, newId)))
            && (o.result != Applied && !Leaks(z, b, locate, oldId, newId, price, qty) ==> o.books == b)
  {
    hide OT.NoSeat, OT.SeatsWith, CountAt, PagesCover;
    if oldId in b.live && price <= MAX_ITCH_PRICE4 && Crowded(b.live, oldId, price) {
      LevelHasPage(b, Key(b.live[oldId].locate, b.live[oldId].side, price));
    }
  }
}
