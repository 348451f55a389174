/** Where the shares of a session went: nothing is created or lost on any run. */
module ShareLedger {
  import opened Types
  import opened BookTypes
  import opened ReferenceBook
  import opened BookLaws
  import opened BookRuns
  import OT = OrderTable

  ghost function AllShares(live: Live): nat { SumQty(live, live.Keys) }

  /** The shares that accepted mutations brought in, executed, cancelled, and took away with an order
      that was deleted or replaced. */
  datatype Flows = Flows(entered: nat, executed: nat, cancelled: nat, withdrawn: nat)

  /** The flow of one accepted mutation. */
  ghost function FlowOf(live: Live, m: Mutation): Flows {
    match m
    case Create(_) => Flows(0, 0, 0, 0)
    case Add(_, _, _, qty, _) => Flows(qty, 0, 0, 0)
    case Execute(_, _, qty) => Flows(0, qty, 0, 0)
    case Cancel(_, _, qty) => Flows(0, 0, qty, 0)
    case Delete(_, id) => Flows(0, 0, 0, if id in live then live[id].qty else 0)
    case Replace(_, id, _, _, qty) => Flows(qty, 0, 0, if id in live then live[id].qty else 0)
  }

  /** The flows of a whole run. */
  ghost function FlowsOf(z: Sizes, s: State, ms: seq<Mutation>): Flows
    requires z.Valid()
  {
    if ms == [] then Flows(0, 0, 0, 0)
    else
      var n := |ms| - 1;
      var before := FlowsOf(z, s, ms[..n]);
      var live := RunOf(z, s, ms[..n]).state.books.live;
      if RunOf(z, s, ms).results[n] != Applied then before
      else
        var f := FlowOf(live, ms[n]);
        Flows(before.entered + f.entered, before.executed + f.executed, before.cancelled + f.cancelled,
              before.withdrawn + f.withdrawn)
  }

  lemma SharesWith(live: Live, id: u64, o: Order)
    requires id !in live
    ensures AllShares(live[id := o]) == AllShares(live) + o.qty
  {
    var live' := live[id := o];
    SumWithout(live', live'.Keys, id);
    assert live'.Keys - {id} == live.Keys;
    SumAgrees(live, live', live.Keys);
  }

  lemma SharesWithout(live: Live, id: u64)
    requires id in live
    ensures AllShares(live - {id}) == AllShares(live) - live[id].qty
  {
    assert (live - {id})[id := live[id]] == live;
    SharesWith(live - {id}, id, live[id]);
  }

  lemma SharesAmended(live: Live, id: u64, o: Order)
    requires id in live
    ensures AllShares(live[id := o]) == AllShares(live) - live[id].qty + o.qty
  {
    assert (live - {id})[id := o] == live[id := o];
    SharesWithout(live, id);
    SharesWith(live - {id}, id, o);
  }

  /** What one mutation does to the shares in the books. */
  lemma StepConserves(z: Sizes, s: State, m: Mutation)
    requires z.Valid() && s.books.live.Keys <= s.books.seen
    ensures var reply := Reference(z, s, m); var f := FlowOf(s.books.live, m);
            && reply.state.books.live.Keys <= reply.state.books.seen
            && (reply.result != Applied ==> AllShares(reply.state.books.live) == AllShares(s.books.live))
            && (reply.result == Applied ==>
                 AllShares(reply.state.books.live) + f.executed + f.cancelled + f.withdrawn ==
                   AllShares(s.books.live) + f.entered)
  {
    hide AllShares, AddRef, ReplaceRef, CancelRef, DeleteRef, ExecuteRef, OnlyLevel, TotalAt, CountAt, OT.NoSeat;
    var b := s.books;
    SeenCovers(z, s, m);
    match m
    case Create(_) =>
    case Add(l, id, price, qty, side) =>
      AddTaken(z, b, l, id, price, qty, side);
      AddMeans(z, b, l, id, price, qty, side);
      if id !in b.live {
        forall o: Order ensures AllShares(b.live[id := o]) == AllShares(b.live) + o.qty { SharesWith(b.live, id, o); }
      }
    case Cancel(l, id, qty) =>
      CancelMeans(b, l, id, qty);
      if id in b.live && qty <= b.live[id].qty { SharesAmended(b.live, id, b.live[id].(qty := b.live[id].qty - qty)); }
    case Delete(l, id) =>
      DeleteMeans(b, l, id);
      if id in b.live { SharesWithout(b.live, id); }
    case Execute(l, id, qty) =>
      ExecuteMeans(b, l, id, qty);
      if id in b.live && qty <= b.live[id].qty {
        SharesAmended(b.live, id, b.live[id].(qty := b.live[id].qty - qty));
        SharesWithout(b.live, id);
      }
    case Replace(l, id, newId, price, qty) =>
      ReplaceMeans(z, b, l, id, newId, price, qty);
      if id in b.live && (newId == id || newId !in b.live) {
        SharesWithout(b.live, id);
        forall o: Order ensures AllShares((b.live - {id})[newId := o]) == AllShares(b.live - {id}) + o.qty {
          SharesWith(b.live - {id}, newId, o);
        }
      }
  }

  lemma SeenCovers(z: Sizes, s: State, m: Mutation)
    requires z.Valid() && s.books.live.Keys <= s.books.seen
    ensures var b := Reference(z, s, m).state.books; b.live.Keys <= b.seen
  {
    hide OT.NoSeat, OT.SeatsWith, PageFull, LevelFull, Crowded;
  }

  /** Conservation: on every run, the shares that were in the books or entered are those that are
      still in the books, or were executed, cancelled or withdrawn. */
  lemma {:induction false} SharesConserved(z: Sizes, s: State, ms: seq<Mutation>)
    requires z.Valid() && s.books.live.Keys <= s.books.seen
    ensures var f := FlowsOf(z, s, ms); var b := RunOf(z, s, ms).state.books;
            && b.live.Keys <= b.seen
            && AllShares(b.live) + f.executed + f.cancelled + f.withdrawn == AllShares(s.books.live) + f.entered
  {
    hide AllShares, Reference, FlowOf;
    if ms != [] {
      var n := |ms| - 1;
      SharesConserved(z, s, ms[..n]);
      StepConserves(z, RunOf(z, s, ms[..n]).state, ms[n]);
    }
  }
}
