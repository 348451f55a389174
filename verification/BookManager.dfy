/** All books over one pair of stores, addressed by stock locate. */
module BookManager {
  import opened Types
  import opened BookTypes
  import opened FiniteSets
  import opened PriceIndex
  import PLS = PriceLevelStore
  import opened ReferenceBook
  import opened BookInvariant
  import opened Stores
  import opened OrderBook
  import OT = OrderTable
  import SD = StockDirectory

  /** A mutation of a book that was never created is refused. */
  function Routed(prepared: bool, b: Books, ref: Outcome): Outcome {
    if prepared then ref else Outcome(BookNotPrepared, b)
  }

  /** What a book descriptor must say about the shared stores. */
  ghost predicate DescriptorOk(book: OrderBook, stores: Stores, w: World, l: u16)
    reads book
  {
    && book.stores == stores && book.locate == l && book as object !in stores.Repr()
    && !book.localInvalid && book.liveOrderCount == |OrdersOf(LiveOf(w.states), l)|
  }

  datatype Audit = Audit(registered: nat, materialized: nat, prepared: nat, registeredMissing: nat,
                         unregisteredPresent: nat, priceStateMismatches: nat, identityMismatches: nat) {
    predicate Clean() {
      && registeredMissing == 0 && unregisteredPresent == 0 && priceStateMismatches == 0 && identityMismatches == 0
      && registered == materialized && registered == prepared
    }
  }

  class BookManager {
    const stores: Stores
    const books: array<OrderBook?>
    ghost var repr: set<object>

    /** The objects every book manager has from the start. */
    ghost function Roots(): set<object> { {this, stores, books} + stores.Repr() }

    ghost predicate Valid()
      reads this, repr, stores, stores.Repr(), books
    {
      && this in repr && books in repr && stores.Repr() <= repr
      && this as object !in stores.Repr() && books as object !in stores.Repr()
      && books.Length == LOCATES
      && stores.Linked() && WorldOk(stores.world)
      && books[0] == null
      && (forall l: u16 :: books[l] != null ==>
           books[l] in repr && books[l] as object != books && DescriptorOk(books[l], stores, stores.world, l))
      && (forall l: u16 :: stores.world.arena.prepared[l] <==> books[l] != null)
    }

    ghost function Room(): Sizes { stores.Room() }

    ghost function Books(): Books
      reads stores
    {
      BooksOf(stores.world)
    }

    constructor (config: OT.Config, pageCapacity: nat)
      requires config.Valid() && 1 <= pageCapacity < U32_MAX
      ensures Valid() && fresh(repr) && Roots() <= repr
      ensures Books() == NO_BOOKS && Room() == Sizes(config, pageCapacity)
      ensures forall l: u16 :: books[l] == null
    {
      hide Wf, LevelsOk, StatesOk, Stores.Linked, LevelAt, Shape;
      var s := new Stores(config, pageCapacity);
      stores := s;
      books := new OrderBook?[LOCATES](_ => null);
      new;
      repr := {this, books} + stores.Repr();
      assert LiveOf(map[]) == map[];
    }

    /** No book counts an order and no level is active on either side. */
    ghost predicate AllEmpty()
      reads this, repr, stores, stores.Repr(), books
    {
      && Valid()
      && (forall l: u16 :: books[l] != null ==> books[l].liveOrderCount == 0)
      && forall l: u16, s: Side, raw: u32 :: LevelAt(stores.world.arena, l, s, raw).count == 0
    }

    lemma NoOrdersLeft()
      requires Valid() && Books().live == map[]
      ensures AllEmpty()
    {
      hide Wf, LevelsOk, StatesOk, Stores.Linked, LevelAt, OrdersOf, LiveOf, BooksOf;
      EmptyWorld(stores.world);
    }

    lemma RoomIsValid()
      requires Valid()
      ensures Room().Valid()
    {
      hide Wf, LevelsOk, StatesOk, LevelAt, OrdersOf, LiveOf;
      RoomValid(stores);
    }

    method Find(locate: u16) returns (book: OrderBook?)
      requires Valid()
      ensures book == books[locate]
    {
      if locate == 0 {
        return null;
      }
      book := books[locate];
    }

    /** The book of a locate, created and price-prepared on first use. */
    method GetOrCreate(locate: u16) returns (book: OrderBook?)
      requires Valid()
      modifies repr
      ensures Valid() && fresh(repr - old(repr)) && Roots() <= repr
      ensures book == null <==> locate == 0
      ensures Books() == old(Books())
      ensures forall l: u16 :: books[l] != null <==> old(books[l]) != null || (l == locate && l != 0)
    {
      hide Wf, Shape, LevelsOk, StatesOk, Stores.Linked, LevelAt, WorldOk, OrdersOf, LiveOf;
      if locate == 0 {
        return null;
      }
      book := Find(locate);
      if book != null {
        return;
      }
      book := CreateBook(locate);
    }

    /** Prepares the price state of a locate and creates its descriptor. */
    method CreateBook(locate: u16) returns (book: OrderBook)
      requires Valid() && locate != 0 && books[locate] == null
      modifies repr
      ensures Valid() && fresh(repr - old(repr)) && Roots() <= repr
      ensures Books() == old(Books())
      ensures forall l: u16 :: books[l] != null <==> old(books[l]) != null || l == locate
    {
      hide Wf, Shape, LevelsOk, StatesOk, Stores.Linked, LevelAt, WorldOk, OrdersOf, LiveOf;
      ghost var w := stores.world;
      UnpreparedHasNoOrders(w, locate);
      PreparedKeeps(w, locate);
      var r := stores.PrepareBook(locate);
      book := new OrderBook(locate, stores);
      books[locate] := book;
      repr := repr + {book};
    }

    method AddOrder(locate: u16, id: u64, price: u64, qty: u32, side: char, timestamp: u64) returns (r: MutationResult)
      requires Valid()
      modifies repr
      ensures Valid() && repr == old(repr) && Room().Valid()
      ensures forall l: u16 :: books[l] == old(books[l])
      ensures r == Applied ==> books[locate] != null && books[locate].latestTimestamp == timestamp
      ensures Refines(Routed(books[locate] != null, old(Books()),
                             AddRef(Room(), old(Books()), locate, id, price, qty, side)),
                      r, old(stores.world), stores.world, locate)
    {
      hide Wf, Shape, LevelsOk, StatesOk, Stores.Linked, LevelAt, WorldOk, OrdersOf, LiveOf, Refines, AddRef;
      ghost var w := stores.world;
      assert Room().Valid() by { RoomValid(stores); }
      var book := Find(locate);
      if book == null {
        RejectionRefines(Outcome(BookNotPrepared, Books()), BookNotPrepared, w, locate);
        return BookNotPrepared;
      }
      assert DescriptorOk(book, stores, w, locate);
      r := book.AddOrder(id, price, qty, side, timestamp);
      RefinesKeepsOthers(AddRef(Room(), BooksOf(w), locate, id, price, qty, side), r, w, stores.world, locate);
    }

    method CancelShares(locate: u16, id: u64, qty: u32, timestamp: u64) returns (r: MutationResult)
      requires Valid()
      modifies repr
      ensures Valid() && repr == old(repr)
      ensures forall l: u16 :: books[l] == old(books[l])
      ensures r == Applied ==> books[locate] != null && books[locate].latestTimestamp == timestamp
      ensures Refines(Routed(books[locate] != null, old(Books()), CancelRef(old(Books()), locate, id, qty)),
                      r, old(stores.world), stores.world, locate)
    {
      hide Wf, Shape, LevelsOk, StatesOk, Stores.Linked, LevelAt, WorldOk, OrdersOf, LiveOf, Refines, CancelRef;
      ghost var w := stores.world;
      var book := Find(locate);
      if book == null {
        RejectionRefines(Outcome(BookNotPrepared, Books()), BookNotPrepared, w, locate);
        return BookNotPrepared;
      }
      assert DescriptorOk(book, stores, w, locate);
      r := book.CancelShares(id, qty, timestamp);
      RefinesKeepsOthers(CancelRef(BooksOf(w), locate, id, qty), r, w, stores.world, locate);
    }

    method DeleteOrder(locate: u16, id: u64, timestamp: u64) returns (r: MutationResult)
      requires Valid()
      modifies repr
      ensures Valid() && repr == old(repr)
      ensures forall l: u16 :: books[l] == old(books[l])
      ensures r == Applied ==> books[locate] != null && books[locate].latestTimestamp == timestamp
      ensures Refines(Routed(books[locate] != null, old(Books()), DeleteRef(old(Books()), locate, id)),
                      r, old(stores.world), stores.world, locate)
    {
      hide Wf, Shape, LevelsOk, StatesOk, Stores.Linked, LevelAt, WorldOk, OrdersOf, LiveOf, Refines, DeleteRef;
      ghost var w := stores.world;
      var book := Find(locate);
      if book == null {
        RejectionRefines(Outcome(BookNotPrepared, Books()), BookNotPrepared, w, locate);
        return BookNotPrepared;
      }
      assert DescriptorOk(book, stores, w, locate);
      r := book.DeleteOrder(id, timestamp);
      RefinesKeepsOthers(DeleteRef(BooksOf(w), locate, id), r, w, stores.world, locate);
    }

    method ExecuteOrder(locate: u16, id: u64, qty: u32, timestamp: u64) returns (r: MutationResult)
      requires Valid()
      modifies repr
      ensures Valid() && repr == old(repr)
      ensures forall l: u16 :: books[l] == old(books[l])
      ensures r == Applied ==> books[locate] != null && books[locate].latestTimestamp == timestamp
      ensures Refines(Routed(books[locate] != null, old(Books()), ExecuteRef(old(Books()), locate, id, qty)),
                      r, old(stores.world), stores.world, locate)
    {
      hide Wf, Shape, LevelsOk, StatesOk, Stores.Linked, LevelAt, WorldOk, OrdersOf, LiveOf, Refines, ExecuteRef;
      ghost var w := stores.world;
      var book := Find(locate);
      if book == null {
        RejectionRefines(Outcome(BookNotPrepared, Books()), BookNotPrepared, w, locate);
        return BookNotPrepared;
      }
      assert DescriptorOk(book, stores, w, locate);
      r := book.ExecuteOrder(id, qty, timestamp);
      RefinesKeepsOthers(ExecuteRef(BooksOf(w), locate, id, qty), r, w, stores.world, locate);
    }

    method ReplaceOrder(locate: u16, oldId: u64, newId: u64, price: u64, qty: u32, timestamp: u64)
      returns (r: MutationResult)
      requires Valid()
      modifies repr
      ensures Valid() && repr == old(repr) && Room().Valid()
      ensures forall l: u16 :: books[l] == old(books[l])
      ensures r == Applied ==> books[locate] != null && books[locate].latestTimestamp == timestamp
      ensures Refines(Routed(books[locate] != null, old(Books()),
                             ReplaceRef(Room(), old(Books()), locate, oldId, newId, price, qty)),
                      r, old(stores.world), stores.world, locate)
      ensures r != Applied && Books().seen != old(Books()).seen <==>
                books[locate] != null && Leaks(Room(), old(Books()), locate, oldId, newId, price, qty)
    {
      hide Wf, Shape, LevelsOk, StatesOk, Stores.Linked, LevelAt, WorldOk, OrdersOf, LiveOf, Refines, ReplaceRef, Leaks;
      ghost var w := stores.world;
      assert Room().Valid() by { RoomValid(stores); }
      var book := Find(locate);
      if book == null {
        RejectionRefines(Outcome(BookNotPrepared, Books()), BookNotPrepared, w, locate);
        return BookNotPrepared;
      }
      assert DescriptorOk(book, stores, w, locate);
      r := book.ReplaceOrder(oldId, newId, price, qty, timestamp);
      RefinesKeepsOthers(ReplaceRef(Room(), BooksOf(w), locate, oldId, newId, price, qty), r, w, stores.world, locate);
    }

    /** The sum over all books of their live-order counters is the number of live orders. */
    method TotalLiveOrderCount() returns (total: nat)
      requires Valid()
      ensures total == |Books().live|
    {
      hide Wf, Shape, LevelsOk, StatesOk, Stores.Linked, LevelAt, WorldOk, OrdersOf, LiveOf, OrdersBelow;
      total := 0;
      ghost var w := stores.world;
      NoOrderAtZero(w);
      for slot := 1 to LOCATES
        invariant total == |OrdersBelow(LiveOf(w.states), slot)|
      {
        var book := books[slot];
        if book != null {
          assert DescriptorOk(book, stores, w, slot);
          total := total + book.liveOrderCount;
        } else {
          UnpreparedHasNoOrders(w, slot);
        }
        OneMoreBook(LiveOf(w.states), slot);
      }
      AllBooks(LiveOf(w.states));
    }

    /** Compares the directory, the descriptors and the price store locate by locate.  The audit is
        clean exactly when the same locates are registered and materialized. */
    method AuditDirectory(directory: SD.StockDirectory) returns (audit: Audit)
      requires Valid() && directory.Valid()
      ensures audit.Clean() <==> forall l: u16 :: l in directory.names <==> books[l] != null
    {
      hide Wf, LevelsOk, StatesOk, Stores.Linked, LevelAt, OrdersOf, LiveOf, SD.Indexed, AuditOk, WorldOk, Shape;
      var registeredCount := directory.count;
      var preparedCount := stores.PreparedBookCount();
      audit := Audit(registeredCount, 0, preparedCount, 0, 0, 0, 0);
      ghost var have: set<u16> := PLS.PreparedBooks(stores.world.arena);
      ghost var names := directory.names.Keys;
      HaveBooks(stores.world);
      AuditStart(registeredCount, preparedCount, names, have);
      for slot := 1 to LOCATES
        invariant AuditOk(audit, registeredCount, preparedCount, names, have, slot)
      {
        var locate: u16 := slot;
        var registered := directory.IsRegistered(locate);
        var book := books[slot];
        var ready := stores.IsBookPrepared(locate);
        assert book != null ==> DescriptorOk(book, stores, stores.world, locate);
        AuditNext(audit, registeredCount, preparedCount, names, have, locate);
        audit := AuditLocate(audit, registered, book != null, ready, book == null || book.locate == locate);
      }
      SD.NotZero(directory.index[..], directory.entries[..], directory.names, directory.slotOf,
          directory.NaturalSlots());
      AuditEnd(audit, registeredCount, preparedCount, names, have);
      assert |directory.names.Keys| == |directory.names|;
    }
  }

  /** What the audit counts for one locate. */
  function AuditLocate(a: Audit, registered: bool, materialized: bool, ready: bool, sameIdentity: bool): Audit {
    Audit(a.registered, if materialized then a.materialized + 1 else a.materialized, a.prepared,
          if registered && (!materialized || !ready) then a.registeredMissing + 1 else a.registeredMissing,
          if !registered && (materialized || ready) then a.unregisteredPresent + 1 else a.unregisteredPresent,
          if materialized != ready then a.priceStateMismatches + 1 else a.priceStateMismatches,
          if materialized && !sameIdentity then a.identityMismatches + 1 else a.identityMismatches)
  }

  /** The audit of the locates 1..slot-1, when `names` are registered and `have` have a prepared book. */
  ghost predicate AuditOk(a: Audit, registered: nat, prepared: nat, names: set<u16>, have: set<u16>, slot: nat) {
    && a.registered == registered && a.prepared == prepared
    && a.materialized == |Below(have, slot)|
    && a.priceStateMismatches == 0 && a.identityMismatches == 0
    && (a.registeredMissing == 0 && a.unregisteredPresent == 0 <==>
         forall l: u16 :: 0 < l < slot ==> (l in names <==> l in have))
  }

  ghost function Below(have: set<u16>, slot: nat): set<u16> {
    set l | l in have && 0 < l < slot
  }

  lemma HaveBooks(w: World)
    requires WorldOk(w)
    ensures Shape(w.arena) && forall l: u16 :: l in PLS.PreparedBooks(w.arena) <==> w.arena.prepared[l]
  {
  }

  lemma AuditStart(registered: nat, prepared: nat, names: set<u16>, have: set<u16>)
    ensures AuditOk(Audit(registered, 0, prepared, 0, 0, 0, 0), registered, prepared, names, have, 1)
  {
    assert Below(have, 1) == {};
  }

  lemma AuditNext(a: Audit, registered: nat, prepared: nat, names: set<u16>, have: set<u16>, l: u16)
    requires AuditOk(a, registered, prepared, names, have, l) && l > 0
    ensures AuditOk(AuditLocate(a, l in names, l in have, l in have, true), registered, prepared, names, have, l + 1)
  {
    assert Below(have, l + 1) == if l in have then Below(have, l) + {l} else Below(have, l);
  }

  lemma AuditEnd(a: Audit, registered: nat, prepared: nat, names: set<u16>, have: set<u16>)
    requires AuditOk(a, registered, prepared, names, have, LOCATES) && registered == |names| && prepared == |have|
    requires 0 !in names && 0 !in have
    ensures a.Clean() <==> names == have
  {
    assert Below(have, LOCATES) == have;
    if a.Clean() {
      forall l | l in names + have ensures l in names <==> l in have {}
    }
  }

  lemma UnpreparedHasNoOrders(w: World, l: u16)
    requires WorldOk(w) && !w.arena.prepared[l]
    ensures OrdersOf(LiveOf(w.states), l) == {}
  {
    hide LevelsOk;
    forall r | r in LiveOf(w.states) ensures LiveOf(w.states)[r].locate != l {
      assert StateOk(w.arena, w.states[r]);
      assert OwnerOk(w.arena, w.states[r].pageHandle);
    }
  }

  /** Without live orders no book counts an order and no level is active on either side. */
  lemma EmptyWorld(w: World)
    requires WorldOk(w) && BooksOf(w).live == map[]
    ensures forall l: u16 :: |OrdersOf(LiveOf(w.states), l)| == 0
    ensures forall l: u16, s: Side, raw: u32 :: LevelAt(w.arena, l, s, raw).count == 0
  {
    hide Wf, LevelAt;
    forall l: u16 ensures OrdersOf(LiveOf(w.states), l) == {} {}
    forall l: u16, s: Side, raw: u32 ensures OrdersAt(LiveOf(w.states), Key(l, s, raw)) == {} {}
  }

  lemma PreparedKeeps(w: World, l: u16)
    requires WorldOk(w)
    ensures |w.arena.prepared| == LOCATES && WorldOk(w.(arena := w.arena.(prepared := w.arena.prepared[l := true])))
  {
    hide Wf;
    PLS.PreparedWf(w.arena, l);
    var a' := w.arena.(prepared := w.arena.prepared[l := true]);
    forall l': u16, s: Side, raw: u32 ensures LevelAt(a', l', s, raw) == LevelAt(w.arena, l', s, raw) {}
  }

  /** The shared state after a mutation still fits every other descriptor. */
  lemma RefinesKeepsOthers(ref: Outcome, r: MutationResult, w: World, w': World, locate: u16)
    requires Refines(ref, r, w, w', locate)
    ensures w'.arena.prepared == w.arena.prepared
    ensures forall l: u16 :: l != locate ==> |OrdersOf(LiveOf(w'.states), l)| == |OrdersOf(LiveOf(w.states), l)|
  {
  }

  ghost function OrdersBelow(live: Live, slot: nat): set<u64> {
    set r | r in live && live[r].locate < slot
  }

  lemma NoOrderAtZero(w: World)
    requires WorldOk(w)
    ensures OrdersBelow(LiveOf(w.states), 1) == {}
  {
    hide Wf, LevelsOk;
    forall r | r in LiveOf(w.states) ensures LiveOf(w.states)[r].locate != 0 {
      assert StateOk(w.arena, w.states[r]);
    }
  }

  lemma OneMoreBook(live: Live, slot: u16)
    ensures |OrdersBelow(live, slot + 1)| == |OrdersBelow(live, slot)| + |OrdersOf(live, slot)|
  {
    assert OrdersBelow(live, slot + 1) == OrdersBelow(live, slot) + OrdersOf(live, slot);
    assert OrdersBelow(live, slot) !! OrdersOf(live, slot);
  }

  lemma AllBooks(live: Live)
    ensures |OrdersBelow(live, LOCATES)| == |live|
  {
    assert OrdersBelow(live, LOCATES) == live.Keys;
  }
}
