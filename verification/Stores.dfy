/** The order table and the price-level store that all books share, as one object whose abstract
    state is a single value.  Every method passes one call through. */
module Stores {
  import opened Types
  import opened BookTypes
  import opened PriceIndex
  import opened PriceTraversal
  import PLS = PriceLevelStore
  import OT = OrderTable
  import opened BookInvariant
  import RB = ReferenceBook

  /** Both stores at one moment. */
  datatype World = World(states: States, seen: set<u64>, at: map<u64, nat>, table: OT.Table, arena: Arena)

  class Stores {
    const orders: OT.OrderTable
    const prices: PLS.PriceLevelStore
    ghost var world: World

    ghost function Repr(): set<object> {
      {this, orders, orders.direct, orders.fallback, prices} + prices.Repr()
    }

    /** How much room the two stores have in all. */
    ghost function Room(): RB.Sizes { RB.Sizes(orders.config, prices.capacity) }

    ghost predicate Linked()
      reads this, Repr()
    {
      && orders.direct as object !in prices.Repr() && orders.fallback as object !in prices.Repr()
      && orders.Valid() && prices.Valid()
      && world == World(orders.live, orders.seen, orders.at, orders.Snap(), prices.View())
    }

    constructor (config: OT.Config, pageCapacity: nat)
      requires config.Valid() && 1 <= pageCapacity < U32_MAX
      ensures Linked() && fresh(Repr())
      ensures world.states == map[] && world.seen == {} && Consistent(world.states, world.arena)
      ensures OT.TakenSlots(world.table) == {} && world.arena.committed == 0 && Room() == RB.Sizes(config, pageCapacity)
      ensures forall l: u16 :: !world.arena.prepared[l]
    {
      orders := new OT.OrderTable(config);
      prices := new PLS.PriceLevelStore(pageCapacity);
      new;
      world := World(orders.live, orders.seen, orders.at, orders.Snap(), prices.View());
      assert LiveOf(map[]) == map[];
    }

    method IsBookPrepared(locate: u16) returns (r: bool)
      requires Linked()
      ensures Shape(world.arena) && r == (locate != 0 && world.arena.prepared[locate])
    {
      r := prices.IsBookPrepared(locate);
    }

    method PreparedBookCount() returns (n: nat)
      requires Linked()
      ensures Shape(world.arena) && n == |PLS.PreparedBooks(world.arena)|
    {
      n := prices.preparedBookCount;
    }

    method PrepareBook(locate: u16) returns (r: MutationResult)
      requires Linked()
      modifies Repr()
      ensures Linked() && Shape(old(world).arena) && r == if locate == 0 then InvalidLocate else Applied
      ensures world == if locate == 0 then old(world)
                       else
                         var a := old(world).arena;
                         old(world).(arena := a.(prepared := a.prepared[locate := true]))
    {
      hide Wf, OT.Represents;
      r := prices.PrepareBook(locate);
      world := world.(arena := prices.View());
    }

    method Reserve(id: u64) returns (r: OT.Reservation)
      requires Linked()
      ensures r.ref == id && OT.Shape(orders.config, world.table)
      ensures r.result in {Applied, DuplicateOrderRef, OrderTableCapacityExceeded}
      ensures r.result == DuplicateOrderRef <==> id in world.seen
      ensures r.result == OrderTableCapacityExceeded <==>
                id !in world.seen && OT.NoSeat(orders.config, OT.TakenSlots(world.table), id)
      ensures r.result == Applied ==> OT.IssuedIn(orders.config, world.table, r) && id !in world.states
    {
      hide Wf, OT.IssuedIn, OT.NoSeat, OT.Candidates, OT.TakenSlots;
      OT.FullSeat(orders.config, world.table, id);
      r := orders.Reserve(id);
    }

    method Commit(r: OT.Reservation, state: OrderState, ghost origin: OT.Table) returns (result: MutationResult)
      requires Linked() && r.result == Applied && state.active && state.seen
      requires OT.Shape(orders.config, origin) && OT.IssuedIn(orders.config, origin, r) && world.table == origin
      modifies Repr()
      ensures Linked() && result == Applied && world.arena == old(world).arena
      ensures world.states == old(world).states[r.ref := state] && world.seen == old(world).seen + {r.ref}
      ensures OT.TakenSlots(world.table) == OT.SeatsWith(orders.config, OT.TakenSlots(old(world).table), r.ref)
      ensures forall x :: x in old(world).at ==> x in world.at && world.at[x] == old(world).at[x]
    {
      hide Wf, OT.Represents, OT.Extends, OT.TakenSlots, OT.SeatsWith, OT.IssuedIn, OT.Commits, OT.Taken;
      hide PLS.PriceLevelStore.Valid;
      OT.ExtendsReflexive(origin);
      OT.IssuedCommits(orders.config, origin, origin, r);
      OT.IssuedUntaken(orders.config, origin, r);
      OT.IssuedSeat(orders.config, origin, r);
      result := orders.Commit(r, state, origin);
      world := World(orders.live, orders.seen, orders.at, orders.Snap(), world.arena);
    }

    method FindState(id: u64) returns (s: Option<OT.Slot>)
      requires Linked()
      ensures s.Some? <==> id in world.states
      ensures s.Some? ==> Holds(orders.config, world, s.value, id)
    {
      hide Wf, OT.Represents;
      s := orders.FindState(id);
    }

    method Read(s: OT.Slot, ghost id: u64) returns (st: OrderState)
      requires Linked() && Holds(orders.config, world, s, id)
      ensures id in world.states && st == world.states[id] && st.active && st.seen
    {
      hide Wf, OT.Represents;
      st := orders.Read(s, id);
    }

    method Write(s: OT.Slot, st: OrderState, ghost id: u64)
      requires Linked() && Holds(orders.config, world, s, id) && st.seen
      modifies Repr()
      ensures Linked() && world.arena == old(world).arena && world.seen == old(world).seen
      ensures OT.TakenSlots(world.table) == OT.TakenSlots(old(world).table)
      ensures world.states == if st.active then old(world).states[id := st] else old(world).states - {id}
    {
      hide Wf, OT.Represents;
      orders.Write(s, st, id);
      world := World(orders.live, orders.seen, orders.at, orders.Snap(), world.arena);
    }

    method EraseSlot(s: OT.Slot, ghost id: u64) returns (r: MutationResult)
      requires Linked() && Holds(orders.config, world, s, id)
      modifies Repr()
      ensures Linked() && r == Applied && world.arena == old(world).arena && world.seen == old(world).seen
      ensures OT.TakenSlots(world.table) == OT.TakenSlots(old(world).table)
      ensures world.states == old(world).states - {id}
    {
      hide Wf, OT.Represents;
      r := orders.EraseSlot(Some(s), id);
      world := World(orders.live, orders.seen, orders.at, orders.Snap(), world.arena);
    }

    method Erase(id: u64) returns (r: MutationResult)
      requires Linked()
      modifies Repr()
      ensures Linked() && world.arena == old(world).arena && world.seen == old(world).seen
      ensures OT.TakenSlots(world.table) == OT.TakenSlots(old(world).table)
      ensures r == if id in old(world).states then Applied else OrderNotFound
      ensures world.states == old(world).states - {id}
    {
      hide Wf, OT.Represents;
      r := orders.Erase(id);
      world := World(orders.live, orders.seen, orders.at, orders.Snap(), world.arena);
    }

    /** Changing prices leaves a found slot where it is. */
    method ReservePrice(locate: u16, raw: u32) returns (r: PLS.PriceReservation)
      requires Linked()
      ensures Shape(world.arena) && world.arena.capacity == prices.capacity
      ensures r.result == PLS.ReserveOutcome(world.arena, locate, raw)
      ensures r.result == Applied ==> PLS.IssuedIn(world.arena, locate, raw, r)
    {
      r := prices.ReservePrice(locate, raw);
    }

    method CommitReservation(r: PLS.PriceReservation) returns (result: MutationResult)
      requires Linked()
      modifies Repr()
      ensures Linked() && SameOrders(old(world), world) && Shape(old(world).arena) && Shape(world.arena)
      ensures result == PLS.CommitOutcome(old(world).arena, r)
      ensures result == Applied && r.requiresCommit ==> old(world).arena.committed < old(world).arena.capacity
      ensures world.arena == if result == Applied && r.requiresCommit
              then PageCommitted(old(world).arena, r.locate, r.page)
                             else old(world).arena
    {
      hide Wf, OT.Represents, LevelAt;
      result := prices.CommitReservation(r);
      world := world.(arena := prices.View());
    }

    method Add(addr: Address, side: OrderSide, qty: u32) returns (r: MutationResult)
      requires Linked()
      modifies Repr()
      ensures Linked() && SameOrders(old(world), world) && Shape(old(world).arena) && Wf(world.arena)
      ensures r == PLS.AddOutcome(old(world).arena, addr, side, qty)
      ensures r != Applied ==> world == old(world)
      ensures r == Applied ==>
                var a := old(world).arena; var v := Levels(a, addr.handle, side)[addr.level];
                PLS.OneLevel(a, world.arena, a.owners[addr.handle].locate, side, PLS.PriceAt(a, addr),
                    Level(v.total + qty, v.count + 1))
    {
      hide Wf, OT.Represents, PLS.OneLevel, Levels;
      r := prices.Add(addr, side, qty);
      world := world.(arena := prices.View());
    }

    method ErasePrice(addr: Address, side: OrderSide, qty: u32) returns (r: MutationResult)
      requires Linked()
      modifies Repr()
      ensures Linked() && SameOrders(old(world), world) && Shape(old(world).arena) && Wf(world.arena)
      ensures r == PLS.EraseOutcome(old(world).arena, addr, side, qty)
      ensures r != Applied ==> world == old(world)
      ensures r == Applied ==>
                var a := old(world).arena; var v := Levels(a, addr.handle, side)[addr.level];
                PLS.OneLevel(a, world.arena, a.owners[addr.handle].locate, side, PLS.PriceAt(a, addr),
                    Level(v.total - qty, v.count - 1))
    {
      hide Wf, OT.Represents, PLS.OneLevel, Levels;
      r := prices.Erase(addr, side, qty);
      world := world.(arena := prices.View());
    }

    method ReduceChecked(locate: u16, page: u16, addr: Address, side: OrderSide, current: u32, reduction: u32)
      returns (r: MutationResult)
      requires Linked()
      modifies Repr()
      ensures Linked() && SameOrders(old(world), world) && Shape(old(world).arena) && Wf(world.arena)
      ensures r == PLS.ReduceOutcome(old(world).arena, locate, page, addr, side, current, reduction)
      ensures r != Applied ==> world == old(world)
      ensures r == Applied ==>
                var a := old(world).arena; var v := Levels(a, addr.handle, side)[addr.level];
                PLS.OneLevel(a, world.arena, a.owners[addr.handle].locate, side, PLS.PriceAt(a, addr),
                    Level(v.total - reduction, v.count))
    {
      hide Wf, OT.Represents, PLS.OneLevel, Levels;
      r := prices.ReduceChecked(locate, page, addr, side, current, reduction);
      world := world.(arena := prices.View());
    }

    method Move(from: Address, oldQty: u32, to: Address, newQty: u32, side: OrderSide) returns (r: MutationResult)
      requires Linked()
      modifies Repr()
      ensures Linked() && SameOrders(old(world), world) && Shape(old(world).arena) && Wf(world.arena)
      ensures r == PLS.MoveOutcome(old(world).arena, from, oldQty, to, newQty, side)
      ensures r != Applied ==> world == old(world)
      ensures r == Applied ==>
                var a := old(world).arena;
                PLS.Moved(a, world.arena, a.owners[from.handle].locate, side, PLS.PriceAt(a, from), oldQty,
                    PLS.PriceAt(a, to), newQty)
    {
      hide Wf, OT.Represents, PLS.Moved, Levels, PLS.MoveOutcome;
      r := prices.Move(from, oldQty, to, newQty, side);
      world := world.(arena := prices.View());
    }

    /** The best level of one side, as the cached summary gives it. */
    method BestLevel(locate: u16, side: Side) returns (v: PLS.LevelView)
      requires Linked()
      ensures Shape(world.arena) && (v.valid <==> ActivePrices(world.arena, locate, side) != {})
      ensures v.valid ==>
                && IsBest(ActivePrices(world.arena, locate, side), side, v.raw)
                && v.total == LevelAt(world.arena, locate, side, v.raw).total
                && v.count == LevelAt(world.arena, locate, side, v.raw).count
    {
      hide Wf, OT.Represents, IsBest, ActivePrices, LevelAt;
      var c := prices.Best(locate, side);
      v := prices.ViewAt(c, side);
    }

    /** The ten best levels of one side. */
    method TopTen(locate: u16, side: Side) returns (views: seq<PLS.LevelView>, ghost t: seq<nat>)
      requires Linked()
      ensures Linked() && world == old(world) && Shape(world.arena)
      ensures var active := ActivePrices(world.arena, locate, side);
              && |views| == |t| == PLS.TopCount(PLS.TOP_LEVEL_COUNT, |active|)
              && IsTop(active, side, t) && PLS.Shows(world.arena, locate, side, views, t)
    {
      hide Wf, OT.Represents, IsTop, ActivePrices, PLS.Shows;
      var output := new PLS.LevelView[PLS.TOP_LEVEL_COUNT](_ => PLS.NO_VIEW);
      var count;
      count, t := prices.TopTen(locate, side, output);
      views := output[..count];
      PLS.ShowsPrefix(prices.View(), locate, side, output[..], t);
    }

    method OwnsAddress(locate: u16, page: u16, addr: Address) returns (r: bool)
      requires Linked()
      ensures Shape(world.arena)
      ensures r == (locate != 0 && 1 <= addr.handle <= world.arena.committed &&
                    world.arena.owners[addr.handle].locate == locate && world.arena.owners[addr.handle].page == page)
    {
      r := prices.OwnsAddress(locate, page, addr);
    }
  }

  ghost predicate SameOrders(w: World, w': World) {
    w'.states == w.states && w'.seen == w.seen && w'.at == w.at && w'.table == w.table
  }

  /** Slot `s` is the one that holds the record of the live order `id`. */
  ghost predicate Holds(c: OT.Config, w: World, s: OT.Slot, id: u64) {
    && id in w.states
    && match s
       case DirectSlot(i) => i == id && i < c.directSlots
       case FallbackSlot(k) => id >= c.directSlots && id in w.at && k == w.at[id]
  }
}
