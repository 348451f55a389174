/** What the five mutations mean to a trader, on the orders and on the totals of each price. */
module BookLaws {
  import opened Types
  import opened BookTypes
  import opened PriceIndex
  import opened ReferenceBook
  import OT = OrderTable

  /** The level at one key gains (or loses) shares and orders and every other level stays. */
  ghost predicate OnlyLevel(live: Live, live': Live, key: Key, shares: int, orders: int) {
    forall k ::
      && TotalAt(live', k) - TotalAt(live, k) == (if k == key then shares else 0)
      && CountAt(live', k) - CountAt(live, k) == (if k == key then orders else 0)
  }

  /** An addition is taken exactly when its fields are in range, its reference is new and there is
      room. */
  lemma AddTaken(z: Sizes, b: Books, l: u16, id: u64, price: u64, qty: u32, side: char)
    requires z.Valid()
    ensures AddRef(z, b, l, id, price, qty, side).result == Applied <==>
              && (side == 'B' || side == 'S') && qty > 0 && price <= 2_000_000_000 && id !in b.seen
              && !OT.NoSeat(z.table, b.slots, id) && !PageFull(z, b, Page(l, PageOf(price)))
              && CountAt(b.live, Key(l, if side == 'B' then Buy else Sell, price)) != U32_MAX
    ensures AddRef(z, b, l, id, price, qty, side).result == InvalidSide <==> side != 'B' && side != 'S'
    ensures AddRef(z, b, l, id, price, qty, side).result != Applied ==>
              AddRef(z, b, l, id, price, qty, side).books == b
  {
    hide OT.NoSeat, OT.SeatsWith, CountAt;
  }

  /** Why an addition is refused: the first reason that applies, in this order. */
  lemma AddRefused(z: Sizes, b: Books, l: u16, id: u64, price: u64, qty: u32, side: char)
    requires z.Valid()
    ensures var r := AddRef(z, b, l, id, price, qty, side).result;
            var page := PageFull(z, b, Page(l, PageOf(if price <= U32_MAX then price else 0)));
            if side != 'B' && side != 'S' then r == InvalidSide
            else if qty == 0 then r == InvalidQuantity
            else if price > 2_000_000_000 then r == PriceOutOfRange
            else if id in b.seen then r == DuplicateOrderRef
            else if OT.NoSeat(z.table, b.slots, id) then r == OrderTableCapacityExceeded
            else if page then r == PricePageCapacityExceeded
            else r == Applied || r == OrderCountOverflow
  {
    hide OT.NoSeat, OT.SeatsWith, CountAt, PageFull;
  }

  /** Why a mutation of a live order is refused: the first reason that applies, in this order. */
  lemma MutationRefused(b: Books, l: u16, id: u64, qty: u32)
    ensures var cancel, execute := CancelRef(b, l, id, qty).result, ExecuteRef(b, l, id, qty).result;
            if qty == 0 then cancel == execute == InvalidQuantity
            else if id !in b.live then cancel == execute == OrderNotFound
            else if b.live[id].locate != l then cancel == execute == LocateMismatch
            else && cancel == (if qty < b.live[id].qty then Applied else QuantityExceeded)
                 && execute == (if qty <= b.live[id].qty then Applied else QuantityExceeded)
    ensures var delete := DeleteRef(b, l, id).result;
            if id !in b.live then delete == OrderNotFound
            else if b.live[id].locate != l then delete == LocateMismatch
            else delete == Applied
  {
  }

  /** A 'B' buys and an 'S' sells: the order is live with its own fields, its level gains its shares
      and one order, and no other level changes. */
  lemma AddMeans(z: Sizes, b: Books, l: u16, id: u64, price: u64, qty: u32, side: char)
    requires z.Valid() && b.live.Keys <= b.seen
    ensures var o := AddRef(z, b, l, id, price, qty, side);
            o.result == Applied ==>
              && price <= U32_MAX && id !in b.live && o.books.seen == b.seen + {id}
              && (side == 'B' ==> o.books.live == b.live[id := Order(l, Buy, price, qty)] &&
                                  OnlyLevel(b.live, o.books.live, Key(l, Buy, price), qty, 1))
              && (side == 'S' ==> o.books.live == b.live[id := Order(l, Sell, price, qty)] &&
                                  OnlyLevel(b.live, o.books.live, Key(l, Sell, price), qty, 1))
  {
    hide OT.NoSeat, OT.SeatsWith, CountAt, TotalAt, PageFull, LevelFull;
    var o := AddRef(z, b, l, id, price, qty, side);
    if o.result == Applied {
      var order := o.books.live[id];
      forall k ensures TotalAt(o.books.live, k) - TotalAt(b.live, k) == (if k == KeyOf(order) then qty else 0)
               ensures CountAt(o.books.live, k) - CountAt(b.live, k) == (if k == KeyOf(order) then 1 else 0)
      {
        InsertAggregates(b.live, id, order, k);
      }
    }
  }

  /** A cancellation takes shares from a live order of the book that keeps some. */
  lemma CancelMeans(b: Books, l: u16, id: u64, qty: u32)
    ensures CancelRef(b, l, id, qty).result == Applied <==>
              id in b.live && b.live[id].locate == l && 0 < qty < b.live[id].qty
    ensures CancelRef(b, l, id, qty).result != Applied ==> CancelRef(b, l, id, qty).books == b
    ensures var o := CancelRef(b, l, id, qty);
            o.result == Applied ==>
              && o.books == b.(live := o.books.live)
              && o.books.live == b.live[id := b.live[id].(qty := b.live[id].qty - qty)]
              && OnlyLevel(b.live, o.books.live, KeyOf(b.live[id]), 0 - qty, 0)
  {
    hide CountAt, TotalAt;
    if id in b.live && 0 < qty < b.live[id].qty { LevelReduced(b.live, id, qty); }
  }

  lemma LevelReduced(live: Live, id: u64, qty: u32)
    requires id in live && qty <= live[id].qty
    ensures OnlyLevel(live, live[id := live[id].(qty := live[id].qty - qty)], KeyOf(live[id]), 0 - qty, 0)
  {
    hide CountAt, TotalAt;
    var o := live[id].(qty := live[id].qty - qty);
    forall k ensures TotalAt(live[id := o], k) - TotalAt(live, k) == (if k == KeyOf(live[id]) then 0 - qty else 0)
             ensures CountAt(live[id := o], k) == CountAt(live, k)
    {
      UpdateAggregates(live, id, o, k);
    }
  }

  lemma LevelWithout(live: Live, id: u64)
    requires id in live
    ensures OnlyLevel(live, live - {id}, KeyOf(live[id]), 0 - live[id].qty, -1)
  {
    hide CountAt, TotalAt;
    var qty: int := live[id].qty;
    forall k ensures TotalAt(live - {id}, k) - TotalAt(live, k) == (if k == KeyOf(live[id]) then 0 - qty else 0)
             ensures CountAt(live - {id}, k) - CountAt(live, k) == (if k == KeyOf(live[id]) then -1 else 0)
    {
      RemoveAggregates(live, id, k);
    }
  }

  lemma DeleteMeans(b: Books, l: u16, id: u64)
    ensures DeleteRef(b, l, id).result == Applied <==> id in b.live && b.live[id].locate == l
    ensures DeleteRef(b, l, id).result != Applied ==> DeleteRef(b, l, id).books == b
    ensures var o := DeleteRef(b, l, id);
            o.result == Applied ==>
              && o.books == b.(live := b.live - {id})
              && OnlyLevel(b.live, o.books.live, KeyOf(b.live[id]), 0 - b.live[id].qty, -1)
  {
    hide CountAt, TotalAt;
    if id in b.live { LevelWithout(b.live, id); }
  }

  /** An execution may take the whole order, which is then gone; its level loses the shares, and one
      order exactly when nothing is left. */
  lemma ExecuteMeans(b: Books, l: u16, id: u64, qty: u32)
    ensures ExecuteRef(b, l, id, qty).result == Applied <==>
              id in b.live && b.live[id].locate == l && 0 < qty <= b.live[id].qty
    ensures ExecuteRef(b, l, id, qty).result != Applied ==> ExecuteRef(b, l, id, qty).books == b
    ensures var o := ExecuteRef(b, l, id, qty);
            o.result == Applied ==>
              && o.books == b.(live := o.books.live)
              && o.books.live == (if qty == b.live[id].qty then b.live - {id}
                                  else b.live[id := b.live[id].(qty := b.live[id].qty - qty)])
              && OnlyLevel(b.live, o.books.live, KeyOf(b.live[id]), 0 - qty, if qty == b.live[id].qty then -1 else 0)
  {
    hide CountAt, TotalAt;
    if id in b.live && qty <= b.live[id].qty {
      LevelWithout(b.live, id);
      LevelReduced(b.live, id, qty);
    }
  }

  /** A replacement keeps book and side, takes the new price and size under the new reference, and
      leaves the old reference without an order. */
  lemma ReplaceMeans(z: Sizes, b: Books, l: u16, oldId: u64, newId: u64, price: u64, qty: u32)
    requires z.Valid() && b.live.Keys <= b.seen
    ensures var o := ReplaceRef(z, b, l, oldId, newId, price, qty);
            && (o.result == Applied ==>
                 && oldId in b.live && b.live[oldId].locate == l && 0 < qty && price <= 2_000_000_000
                 && (newId == oldId || newId !in b.seen)
                 && o.books.live == (b.live - {oldId})[newId := Order(l, b.live[oldId].side, price, qty)]
                 && forall k ::
                      TotalAt(o.books.live, k) - TotalAt(b.live, k) ==
                        (if k == Key(l, b.live[oldId].side, price) then qty else 0)
                        - (if k == KeyOf(b.live[oldId]) then b.live[oldId].qty else 0))
            && (o.result != Applied ==> o.books.live == b.live && o.books.pages == b.pages)
  {
    hide OT.NoSeat, OT.SeatsWith, CountAt, TotalAt, PageFull, LevelFull;
    var o := ReplaceRef(z, b, l, oldId, newId, price, qty);
    if o.result == Applied {
      var rest, order := b.live - {oldId}, Order(l, b.live[oldId].side, price, qty);
      assert newId !in rest;
      forall k ensures TotalAt(o.books.live, k) - TotalAt(b.live, k) ==
                         (if k == KeyOf(order) then qty else 0)
                         - (if k == KeyOf(b.live[oldId]) then b.live[oldId].qty else 0)
      {
        RemoveAggregates(b.live, oldId, k);
        InsertAggregates(rest, newId, order, k);
      }
    }
  }
}
