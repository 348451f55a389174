/** How the order table and the price index agree: every level is the sum of its live orders. */
module BookInvariant {
  import opened Types
  import opened BookTypes
  import opened PriceIndex
  import opened PriceTraversal
  import opened PriceLevelStore
  import opened ReferenceBook

  type States = map<u64, OrderState>

  function AddressOf(st: OrderState): Address { Address(st.pageHandle, st.levelIndex) }

  function PriceOf(st: OrderState): u32 { JoinPrice(st.pageIndex, st.levelIndex) }

  function OrderOf(st: OrderState): Order
    requires st.side != NoSide
  {
    Order(st.locate, st.side, PriceOf(st), st.qty)
  }

  /** A resident record points at the committed page of its own book and price. */
  ghost predicate StateOk(a: Arena, st: OrderState)
    requires Shape(a)
  {
    && st.qty > 0 && st.side != NoSide && st.locate != 0
    && 1 <= st.pageHandle <= a.committed
    && a.owners[st.pageHandle] == PageOwner(st.locate, st.pageIndex, true)
  }

  /** The live orders the table holds. */
  ghost function LiveOf(states: States): Live {
    map r | r in states && states[r].side != NoSide :: OrderOf(states[r])
  }

  ghost predicate StatesOk(states: States, a: Arena)
    requires Shape(a)
  {
    forall r :: r in states ==> StateOk(a, states[r])
  }

  /** Each level's quantity and count are the sum and number of the live orders at its price. */
  ghost predicate LevelsOk(live: Live, a: Arena)
    requires Shape(a)
  {
    forall l: u16, s: Side, raw: u32 ::
      && LevelAt(a, l, s, raw).total == TotalAt(live, Key(l, s, raw))
      && LevelAt(a, l, s, raw).count == CountAt(live, Key(l, s, raw))
  }

  ghost predicate Consistent(states: States, a: Arena) {
    && Wf(a) && Shape(a) && StatesOk(states, a) && LevelsOk(LiveOf(states), a)
  }

  lemma LivePositive(states: States, a: Arena)
    requires Shape(a) && StatesOk(states, a)
    ensures Positive(LiveOf(states)) && LiveOf(states).Keys == states.Keys
  {
  }

  /** What the level of a live order looks like, so that taking some or all of the order out of
      it cannot be refused. */
  lemma LiveLevel(states: States, a: Arena, id: u64)
    requires Consistent(states, a) && id in states
    ensures var st := states[id]; var v := Levels(a, st.pageHandle, st.side)[st.levelIndex];
            && st.side != NoSide && PriceAt(a, AddressOf(st)) == PriceOf(st)
            && LevelAt(a, st.locate, st.side, PriceOf(st)) == v
            && v.count >= 1 && v.total >= st.qty && (v.count == 1 <==> v.total == st.qty)
            && EraseOutcome(a, AddressOf(st), st.side, st.qty) == Applied
            && forall q: u32 :: 0 < q < st.qty ==>
                 ReduceOutcome(a, st.locate, st.pageIndex, AddressOf(st), st.side, st.qty, q) == Applied
  {
    hide Wf, TotalAt, CountAt;
    var st := states[id];
    LivePositive(states, a);
    MemberAggregates(LiveOf(states), id);
    LevelAtAddress(a, AddressOf(st), st.side);
    assert LevelAt(a, st.locate, st.side, PriceOf(st)).total ==
        TotalAt(LiveOf(states), Key(st.locate, st.side, PriceOf(st)));
  }

  /** A further order at a level can only be refused because the order count is at its maximum:
      the quantity is at most count * (2^32 - 1), so the 64-bit sum cannot overflow. */
  lemma RoomForQuantity(states: States, a: Arena, l: u16, s: Side, raw: u32, qty: u32)
    requires Consistent(states, a)
    ensures var v := LevelAt(a, l, s, raw);
            v.total <= v.count * U32_MAX && (v.count < U32_MAX ==> v.total <= U64_MAX - qty)
  {
    LivePositive(states, a);
    LevelBounds(LiveOf(states), Key(l, s, raw));
    assert LevelAt(a, l, s, raw).total == TotalAt(LiveOf(states), Key(l, s, raw));
    hide Wf;
  }

  lemma MoveRoom(states: States, a: Arena, id: u64, qty: u32)
    requires Consistent(states, a) && id in states
    ensures var st := states[id]; var v := Levels(a, st.pageHandle, st.side)[st.levelIndex];
            v.total - st.qty <= U64_MAX - qty
  {
    hide Wf, Levels, LevelAt;
    var st := states[id];
    LiveLevel(states, a, id);
    RoomForQuantity(states, a, st.locate, st.side, PriceOf(st), 0);
    RestBound(states, a, id);
  }

  /** Without one order, the rest of a level fits below (2^32 - 1)^2. */
  lemma RestBound(states: States, a: Arena, id: u64)
    requires Consistent(states, a) && id in states && states[id].side != NoSide
    ensures var st := states[id];
            LevelAt(a, st.locate, st.side, PriceOf(st)).total - st.qty <= (U32_MAX - 1) * U32_MAX
  {
    hide Wf, LevelAt;
    var st := states[id];
    var live := LiveOf(states);
    var k := Key(st.locate, st.side, PriceOf(st));
    LivePositive(states, a);
    assert LevelAt(a, st.locate, st.side, PriceOf(st)).total == TotalAt(live, k);
    assert LevelAt(a, st.locate, st.side, PriceOf(st)).count == CountAt(live, k);
    RemoveAggregates(live, id, k);
    LevelBounds(live - {id}, k);
  }

  // ----- How each step keeps the invariant ----------------------------------------------

  lemma CommitKeeps(states: States, a: Arena, l: u16, p: u16)
    requires Consistent(states, a)
    requires a.committed < a.capacity && l != 0 && a.prepared[l] && Root(a, l, p) == INVALID_HANDLE
    ensures Consistent(states, PageCommitted(a, l, p))
  {
    hide Wf, LevelAt, TotalAt, CountAt;
    PageCommittedWf(a, l, p);
    WfShape(PageCommitted(a, l, p));
  }

  lemma InsertKeeps(states: States, a: Arena, a': Arena, id: u64, st: OrderState, v: Level)
    requires Consistent(states, a) && id !in states && Wf(a') && StateOk(a, st)
    requires OneLevel(a, a', st.locate, st.side, PriceOf(st), v)
    requires var w := LevelAt(a, st.locate, st.side, PriceOf(st)); v.total == w.total + st.qty && v.count == w.count + 1
    ensures Consistent(states[id := st], a') && LiveOf(states[id := st]) == LiveOf(states)[id := OrderOf(st)]
  {
    hide Wf, LevelAt, TotalAt, CountAt;
    var states' := states[id := st];
    assert LiveOf(states') == LiveOf(states)[id := OrderOf(st)];
    forall l: u16, s: Side, raw: u32
      ensures LevelAt(a', l, s, raw).total == TotalAt(LiveOf(states'), Key(l, s, raw))
      ensures LevelAt(a', l, s, raw).count == CountAt(LiveOf(states'), Key(l, s, raw))
    {
      InsertAggregates(LiveOf(states), id, OrderOf(st), Key(l, s, raw));
    }
  }

  lemma RemoveKeeps(states: States, a: Arena, a': Arena, id: u64, v: Level)
    requires Consistent(states, a) && id in states && Wf(a') && states[id].side != NoSide
    requires OneLevel(a, a', states[id].locate, states[id].side, PriceOf(states[id]), v)
    requires var w := LevelAt(a, states[id].locate, states[id].side, PriceOf(states[id]));
             v.total == w.total - states[id].qty && v.count == w.count - 1
    ensures Consistent(states - {id}, a') && LiveOf(states - {id}) == LiveOf(states) - {id}
  {
    hide Wf, LevelAt, TotalAt, CountAt;
    var states' := states - {id};
    assert LiveOf(states') == LiveOf(states) - {id};
    forall l: u16, s: Side, raw: u32
      ensures LevelAt(a', l, s, raw).total == TotalAt(LiveOf(states'), Key(l, s, raw))
      ensures LevelAt(a', l, s, raw).count == CountAt(LiveOf(states'), Key(l, s, raw))
    {
      RemoveAggregates(LiveOf(states), id, Key(l, s, raw));
    }
  }

  lemma ReduceKeeps(states: States, a: Arena, a': Arena, id: u64, qty: u32, v: Level)
    requires Consistent(states, a) && id in states && Wf(a') && states[id].side != NoSide && 0 < qty < states[id].qty
    requires OneLevel(a, a', states[id].locate, states[id].side, PriceOf(states[id]), v)
    requires var w := LevelAt(a, states[id].locate, states[id].side, PriceOf(states[id]));
             v.total == w.total - qty && v.count == w.count
    ensures var st' := states[id].(qty := states[id].qty - qty);
            Consistent(states[id := st'], a') && LiveOf(states[id := st']) == LiveOf(states)[id := OrderOf(st')]
  {
    hide Wf, LevelAt, TotalAt, CountAt;
    var st' := states[id].(qty := states[id].qty - qty);
    var states' := states[id := st'];
    assert LiveOf(states') == LiveOf(states)[id := OrderOf(st')];
    forall l: u16, s: Side, raw: u32
      ensures LevelAt(a', l, s, raw).total == TotalAt(LiveOf(states'), Key(l, s, raw))
      ensures LevelAt(a', l, s, raw).count == CountAt(LiveOf(states'), Key(l, s, raw))
    {
      UpdateAggregates(LiveOf(states), id, OrderOf(st'), Key(l, s, raw));
    }
  }

  /** Moving the quantity of order `id` to the level of `st`, which takes over as order `newId`. */
  lemma MoveKeeps(states: States, a: Arena, a': Arena, id: u64, newId: u64, st: OrderState)
    requires Consistent(states, a) && id in states && Wf(a') && StateOk(a, st)
    requires newId == id || newId !in states
    requires states[id].side == st.side && states[id].locate == st.locate
    requires Moved(a, a', st.locate, st.side, PriceOf(states[id]), states[id].qty, PriceOf(st), st.qty)
    ensures Consistent((states - {id})[newId := st], a')
    ensures LiveOf((states - {id})[newId := st]) == (LiveOf(states) - {id})[newId := OrderOf(st)]
  {
    hide Wf, LevelAt, TotalAt, CountAt;
    var states' := (states - {id})[newId := st];
    var rest := LiveOf(states) - {id};
    assert LiveOf(states') == rest[newId := OrderOf(st)];
    forall l: u16, s: Side, raw: u32
      ensures LevelAt(a', l, s, raw).total == TotalAt(LiveOf(states'), Key(l, s, raw))
      ensures LevelAt(a', l, s, raw).count == CountAt(LiveOf(states'), Key(l, s, raw))
    {
      RemoveAggregates(LiveOf(states), id, Key(l, s, raw));
      InsertAggregates(rest, newId, OrderOf(st), Key(l, s, raw));
    }
  }

  /** The active prices of the index are the prices of the live orders. */
  ghost function ReferencePrices(live: Live, l: u16, s: Side): set<nat> {
    set raw: u32 | 0 <= raw <= U32_MAX && CountAt(live, Key(l, s, raw)) != 0
  }

  lemma PricesAreReference(states: States, a: Arena, l: u16, s: Side)
    requires Consistent(states, a)
    ensures ActivePrices(a, l, s) == ReferencePrices(LiveOf(states), l, s)
  {
    hide Wf, LevelAt, CountAt, TotalAt;
  }

  // ----- Pages in use -------------------------------------------------------------------

  /** The pages with handles 1..k. */
  ghost function PagesUpTo(a: Arena, k: nat): set<Page> {
    set h: nat | 1 <= h <= k && h < |a.owners| :: Page(a.owners[h].locate, a.owners[h].page)
  }

  ghost function PagesOf(a: Arena): set<Page> { PagesUpTo(a, a.committed) }

  lemma {:induction false} PagesSize(a: Arena, k: nat)
    requires Shape(a) && OwnersOk(a) && k <= a.committed
    ensures |PagesUpTo(a, k)| == k
  {
    hide PageSum;
    if k > 0 {
      PagesSize(a, k - 1);
      var last := Page(a.owners[k].locate, a.owners[k].page);
      assert PagesUpTo(a, k) == PagesUpTo(a, k - 1) + {last};
      assert OwnerOk(a, k);
      forall h: nat | 1 <= h <= k - 1 ensures Page(a.owners[h].locate, a.owners[h].page) != last {
        assert OwnerOk(a, h);
      }
    } else {
      assert PagesUpTo(a, 0) == {};
    }
  }

  /** A page is in use exactly when it has a root, and the pages in use are counted. */
  lemma PagesAreRoots(a: Arena, l: u16, p: u16)
    requires Wf(a)
    ensures |PagesOf(a)| == a.committed && (Page(l, p) in PagesOf(a) <==> Root(a, l, p) != INVALID_HANDLE)
  {
    hide PageOk, BookOk;
    PagesSize(a, a.committed);
    var h := Root(a, l, p);
    if h != INVALID_HANDLE {
      RootOwner(a, l, p);
      assert Page(l, p) == Page(a.owners[h].locate, a.owners[h].page);
    }
    if Page(l, p) in PagesOf(a) {
      var g: nat :| 1 <= g <= a.committed && Page(l, p) == Page(a.owners[g].locate, a.owners[g].page);
      assert OwnerOk(a, g);
    }
  }

  lemma PagesCommitted(a: Arena, l: u16, p: u16)
    requires Wf(a) && a.committed < a.capacity && Shape(PageCommitted(a, l, p))
    ensures PagesOf(PageCommitted(a, l, p)) == PagesOf(a) + {Page(l, p)}
  {
    hide PageOk, BookOk;
    var a' := PageCommitted(a, l, p);
    assert forall h: nat :: 1 <= h <= a.committed ==> a'.owners[h] == a.owners[h];
    assert Page(l, p) == Page(a'.owners[a'.committed].locate, a'.owners[a'.committed].page);
  }
}
