/** Whole runs of mutations, with any arguments, against all books. */
module BookRuns {
  import opened Types
  import opened BookTypes
  import opened PriceIndex
  import opened ReferenceBook
  import opened BookInvariant
  import ST = Stores
  import OT = OrderTable
  import opened OrderBook
  import BM = BookManager

  datatype Mutation =
    | Create(locate: u16)
    | Add(locate: u16, id: u64, price: u64, qty: u32, side: char)
    | Cancel(locate: u16, id: u64, qty: u32)
    | Delete(locate: u16, id: u64)
    | Execute(locate: u16, id: u64, qty: u32)
    | Replace(locate: u16, id: u64, newId: u64, price: u64, qty: u32)

  // ----- The simple books ---------------------------------------------------------------

  /** The locates that have a book, and the orders. */
  datatype State = State(created: set<u16>, books: Books)

  datatype Reply = Reply(result: MutationResult, state: State)

  ghost function Mutate(z: Sizes, b: Books, m: Mutation): Outcome
    requires z.Valid() && !m.Create?
  {
    match m
    case Add(l, id, price, qty, side) => AddRef(z, b, l, id, price, qty, side)
    case Cancel(l, id, qty) => CancelRef(b, l, id, qty)
    case Delete(l, id) => DeleteRef(b, l, id)
    case Execute(l, id, qty) => ExecuteRef(b, l, id, qty)
    case Replace(l, id, newId, price, qty) => ReplaceRef(z, b, l, id, newId, price, qty)
  }

  /** What the simple books answer, and what they hold afterwards. */
  ghost function Reference(z: Sizes, s: State, m: Mutation): Reply
    requires z.Valid()
  {
    if m.Create? then
      if m.locate == 0 then Reply(InvalidLocate, s) else Reply(Applied, s.(created := s.created + {m.locate}))
    else if m.locate !in s.created then Reply(BookNotPrepared, s)
    else var o := Mutate(z, s.books, m); Reply(o.result, s.(books := o.books))
  }

  datatype Replies = Replies(results: seq<MutationResult>, state: State)

  ghost function RunOf(z: Sizes, s: State, ms: seq<Mutation>): (r: Replies)
    requires z.Valid()
    ensures |r.results| == |ms|
  {
    if ms == [] then Replies([], s)
    else
      var before := RunOf(z, s, ms[..|ms| - 1]);
      var reply := Reference(z, before.state, ms[|ms| - 1]);
      Replies(before.results + [reply.result], reply.state)
  }

  // ----- The fast books -----------------------------------------------------------------

  ghost function StateOf(manager: BM.BookManager): State
    requires manager.Valid()
    reads manager, manager.repr, manager.stores, manager.stores.Repr(), manager.books
  {
    State((set l: u16 | 0 <= l < LOCATES && manager.books[l] != null), manager.Books())
  }

  /** One mutation: the answer and the new state are those of the simple books. */
  method Apply(manager: BM.BookManager, m: Mutation, timestamp: u64) returns (r: MutationResult)
    requires manager.Valid()
    modifies manager.repr
    ensures manager.Valid() && fresh(manager.repr - old(manager.repr)) && manager.Room().Valid()
    ensures Reply(r, StateOf(manager)) == Reference(manager.Room(), old(StateOf(manager)), m)
  {
    hide BM.BookManager.Valid, Refines, AddRef, CancelRef, DeleteRef, ExecuteRef, ReplaceRef, LiveOf;
    hide BM.BookManager.Roots;
    hide BooksOf, Leaks;
    RoomIsValid(manager);
    ghost var w := manager.stores.world;
    match m
    case Create(l) =>
      var book := manager.GetOrCreate(l);
      r := if book == null then InvalidLocate else Applied;
    case Add(l, id, price, qty, side) =>
      r := manager.AddOrder(l, id, price, qty, side, timestamp);
      RefinedBooks(manager, m, r, w);
    case Cancel(l, id, qty) =>
      r := manager.CancelShares(l, id, qty, timestamp);
      RefinedBooks(manager, m, r, w);
    case Delete(l, id) =>
      r := manager.DeleteOrder(l, id, timestamp);
      RefinedBooks(manager, m, r, w);
    case Execute(l, id, qty) =>
      r := manager.ExecuteOrder(l, id, qty, timestamp);
      RefinedBooks(manager, m, r, w);
    case Replace(l, id, newId, price, qty) =>
      r := manager.ReplaceOrder(l, id, newId, price, qty, timestamp);
      RefinedBooks(manager, m, r, w);
  }

  lemma RoomIsValid(manager: BM.BookManager)
    requires manager.Valid()
    ensures manager.Room().Valid() && manager.books.Length == LOCATES
  {
    manager.RoomIsValid();
  }

  lemma RefinedBooks(manager: BM.BookManager, m: Mutation, r: MutationResult, w: ST.World)
    requires manager.Valid() && !m.Create? && manager.Room().Valid() && manager.books.Length == LOCATES
    requires Refines(BM.Routed(manager.books[m.locate] != null, BooksOf(w), Mutate(manager.Room(), BooksOf(w), m)),
                     r, w, manager.stores.world, m.locate)
    ensures if manager.books[m.locate] == null then r == BookNotPrepared && manager.Books() == BooksOf(w)
            else Outcome(r, manager.Books()) == Mutate(manager.Room(), BooksOf(w), m)
  {
    hide BM.BookManager.Valid, LiveOf, BooksOf, Mutate;
  }

  /** Every level holds the sum and the number of the live orders at its price, every book counts
      its live orders, and no book has been condemned. */
  ghost predicate Exact(manager: BM.BookManager)
    requires manager.Valid()
    reads manager, manager.repr, manager.stores, manager.stores.Repr(), manager.books
  {
    && (forall l: u16, s: Side, raw: u32 ::
         && LevelAt(manager.stores.world.arena, l, s, raw).total == TotalAt(manager.Books().live, Key(l, s, raw))
         && LevelAt(manager.stores.world.arena, l, s, raw).count == CountAt(manager.Books().live, Key(l, s, raw)))
    && (forall l: u16 :: manager.books[l] != null ==>
         manager.books[l].liveOrderCount == |OrdersOf(manager.Books().live, l)| && !manager.books[l].localInvalid)
  }

  lemma ValidIsExact(manager: BM.BookManager)
    requires manager.Valid()
    ensures Exact(manager)
  {
    hide Wf, LevelAt, TotalAt, CountAt, OrdersOf, ST.Stores.Linked;
  }

  /** From any reachable state, every run of mutations with any arguments gives exactly the answers
      and the state of the simple books, never reports a broken invariant, and leaves exact levels. */
  method ApplyAll(manager: BM.BookManager, ms: seq<Mutation>, timestamps: seq<u64>)
    returns (results: seq<MutationResult>)
    requires manager.Valid() && |timestamps| == |ms|
    modifies manager.repr
    ensures manager.Valid() && Exact(manager) && manager.Room().Valid()
    ensures Replies(results, StateOf(manager)) == RunOf(manager.Room(), old(StateOf(manager)), ms)
    ensures forall i :: 0 <= i < |results| ==> results[i] !in DEFENSIVE
  {
    hide BM.BookManager.Valid, Reference, BM.BookManager.Roots, Exact, StateOf;
    RoomIsValid(manager);
    results := [];
    ghost var s := StateOf(manager);
    for i := 0 to |ms|
      invariant manager.Valid() && fresh(manager.repr - old(manager.repr))
      invariant Replies(results, StateOf(manager)) == RunOf(manager.Room(), s, ms[..i])
    {
      var r := Apply(manager, ms[i], timestamps[i]);
      assert ms[..i + 1][..i] == ms[..i];
      results := results + [r];
    }
    assert ms[..|ms|] == ms;
    ValidIsExact(manager);
    RunIsClean(manager.Room(), s, ms);
  }

  /** No run of the simple books ends in a defensive result. */
  lemma {:induction false} RunIsClean(z: Sizes, s: State, ms: seq<Mutation>)
    requires z.Valid()
    ensures forall i :: 0 <= i < |ms| ==> RunOf(z, s, ms).results[i] !in DEFENSIVE
  {
    hide OT.NoSeat, OT.SeatsWith, PageFull, LevelFull, Crowded;
    if ms != [] { RunIsClean(z, s, ms[..|ms| - 1]); }
  }

  // ----- References are accepted once ---------------------------------------------------

  /** The reference a mutation brings in. */
  function Introduces(m: Mutation): Option<u64> {
    match m
    case Add(_, id, _, _, _) => Some(id)
    case Replace(_, id, newId, _, _) => if newId != id then Some(newId) else None
    case _ => None
  }

  lemma MutateSeen(z: Sizes, s: State, m: Mutation)
    requires z.Valid()
    ensures var reply := Reference(z, s, m);
            && s.books.seen <= reply.state.books.seen
            && (Introduces(m).Some? && reply.result == Applied ==>
                 Introduces(m).value !in s.books.seen && Introduces(m).value in reply.state.books.seen)
  {
    hide OT.NoSeat, OT.SeatsWith, PageFull, LevelFull, Crowded;
  }

  lemma {:induction false} RunPrefix(z: Sizes, s: State, ms: seq<Mutation>, i: nat)
    requires z.Valid() && i < |ms|
    ensures var reply := Reference(z, RunOf(z, s, ms[..i]).state, ms[i]);
            RunOf(z, s, ms).results[i] == reply.result && RunOf(z, s, ms[..i + 1]).state == reply.state
    decreases |ms|
  {
    hide Reference;
    var n := |ms| - 1;
    assert ms[..i + 1][..i] == ms[..i];
    if i < n {
      RunPrefix(z, s, ms[..n], i);
      assert ms[..n][..i] == ms[..i] && ms[..n][..i + 1] == ms[..i + 1];
    } else {
      assert ms[..n + 1] == ms;
    }
  }

  lemma {:induction false} SeenGrows(z: Sizes, s: State, ms: seq<Mutation>, i: nat, j: nat)
    requires z.Valid() && i <= j <= |ms|
    ensures RunOf(z, s, ms[..i]).state.books.seen <= RunOf(z, s, ms[..j]).state.books.seen
  {
    hide Reference;
    if i < j {
      SeenGrows(z, s, ms, i, j - 1);
      RunPrefix(z, s, ms, j - 1);
      MutateSeen(z, RunOf(z, s, ms[..j - 1]).state, ms[j - 1]);
    }
  }

  /** On no run is a reference accepted twice, not even after its order is gone. */
  lemma NeverAcceptedTwice(z: Sizes, s: State, ms: seq<Mutation>, i: nat, j: nat)
    requires z.Valid() && i < j < |ms| && Introduces(ms[i]).Some? && Introduces(ms[i]) == Introduces(ms[j])
    requires RunOf(z, s, ms).results[i] == Applied
    ensures RunOf(z, s, ms).results[j] != Applied
  {
    hide Reference, RunOf;
    RunPrefix(z, s, ms, i);
    RunPrefix(z, s, ms, j);
    MutateSeen(z, RunOf(z, s, ms[..i]).state, ms[i]);
    MutateSeen(z, RunOf(z, s, ms[..j]).state, ms[j]);
    SeenGrows(z, s, ms, i + 1, j);
  }

  // ----- A refused replacement that leaves a trace --------------------------------------

  /** The references below `n`. */
  ghost function Refs(n: nat): (rs: set<u64>)
    requires n <= U32_MAX
    ensures |rs| == n && forall r: u64 :: r in rs <==> r < n
  {
    if n == 0 then {} else Refs(n - 1) + {n - 1}
  }

  /** `n` orders, all buying one share of stock 1 at price 100. */
  ghost function Crowd(n: nat): Books
    requires n <= U32_MAX
  {
    Books((map r | r in Refs(n) :: Order(1, Buy, 100, 1)), Refs(n), if n == 0 then {} else {Page(1, 0)}, {})
  }

  lemma CrowdCount(n: nat, live: Live)
    requires n <= U32_MAX && forall r: u64 :: r in OrdersAt(live, Key(1, Buy, 100)) <==> r < n
    ensures CountAt(live, Key(1, Buy, 100)) == n
  {
    hide Refs;
    assert OrdersAt(live, Key(1, Buy, 100)) == Refs(n);
  }

  /** One more order fits. */
  lemma CrowdGrows(z: Sizes, n: nat)
    requires z.Valid() && z.pages >= 1 && n < U32_MAX && n < z.table.directSlots
    ensures AddRef(z, Crowd(n), 1, n, 100, 1, 'B') == Outcome(Applied, Crowd(n + 1))
  {
    hide Refs;
    CrowdCount(n, Crowd(n).live);
    var o := Order(1, Buy, 100, 1);
    assert Crowd(n).live[n := o] == Crowd(n + 1).live;
    assert Crowd(n).seen + {n} == Crowd(n + 1).seen;
    assert Crowd(n).pages + {Page(1, 0)} == {Page(1, 0)};
  }

  /** The crowd at its maximum and one order at another price. */
  ghost function Outsider(): Books {
    Crowd(U32_MAX).(live := Crowd(U32_MAX).live[U32_MAX := Order(1, Buy, 200, 1)],
        seen := Crowd(U32_MAX).seen + {U32_MAX})
  }

  lemma OutsiderFits(z: Sizes)
    requires z.Valid() && z.pages >= 1 && z.table.directSlots > U32_MAX
    ensures AddRef(z, Crowd(U32_MAX), 1, U32_MAX, 200, 1, 'B') == Outcome(Applied, Outsider())
  {
    hide Refs;
    var k := Key(1, Buy, 200);
    assert OrdersAt(Crowd(U32_MAX).live, k) == {};
    assert Crowd(U32_MAX).pages + {Page(1, 0)} == {Page(1, 0)};
  }

  lemma OutsiderLeaks(z: Sizes)
    requires z.Valid() && z.pages >= 1 && z.table.directSlots > U32_MAX + 1
    ensures Leaks(z, Outsider(), 1, U32_MAX, U32_MAX + 1, 100, 1)
  {
    hide Refs;
    CrowdCount(U32_MAX, Outsider().live);
  }

  /** A run from a new book manager that ends in such a replacement: it is refused, no order
      changes, and yet its reference can never be used again. */
  method LeakRun(config: OT.Config) returns (manager: BM.BookManager, r: MutationResult)
    requires config.Valid() && config.directSlots > U32_MAX + 1
    ensures manager.Valid() && r == OrderCountOverflow
    ensures manager.Books().live == Outsider().live && manager.Books().seen == Outsider().seen + {U32_MAX + 1}
  {
    hide BM.BookManager.Valid, AddRef, ReplaceRef, LiveOf, BM.BookManager.Roots, BooksOf, Leaks, Crowd, Outsider;
    manager := new BM.BookManager(config, 1);
    RoomIsValid(manager);
    var _ := manager.GetOrCreate(1);
    assert Crowd(0) == NO_BOOKS by { CrowdOfNone(); }
    for i := 0 to U32_MAX
      invariant manager.Valid() && fresh(manager.repr) && manager.books[1] != null && manager.Books() == Crowd(i)
    {
      CrowdGrows(manager.Room(), i);
      var added := manager.AddOrder(1, i, 100, 1, 'B', 0);
    }
    OutsiderFits(manager.Room());
    var added := manager.AddOrder(1, U32_MAX, 200, 1, 'B', 0);
    OutsiderLeaks(manager.Room());
    LeakOutcome(manager.Room());
    r := manager.ReplaceOrder(1, U32_MAX, U32_MAX + 1, 100, 1, 0);
  }

  lemma CrowdOfNone()
    ensures Crowd(0) == NO_BOOKS
  {
  }

  lemma OutsiderCovered()
    ensures PagesCover(Outsider())
  {
    hide Refs;
    assert Outsider().pages == {Page(1, 0)};
    forall r | r in Outsider().live ensures PageAt(Outsider().live[r]) == Page(1, 0) {}
  }

  lemma LeakOutcome(z: Sizes)
    requires z.Valid() && Leaks(z, Outsider(), 1, U32_MAX, U32_MAX + 1, 100, 1)
    ensures var o := ReplaceRef(z, Outsider(), 1, U32_MAX, U32_MAX + 1, 100, 1);
            o.result == OrderCountOverflow && o.books.live == Outsider().live &&
                o.books.seen == Outsider().seen + {U32_MAX + 1}
  {
    hide Leaks, ReplaceRef, Outsider, PagesCover, OT.SeatsWith;
    OutsiderCovered();
    LeaksExactly(z, Outsider(), 1, U32_MAX, U32_MAX + 1, 100, 1);
  }
}
