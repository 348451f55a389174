/** The process-wide order table: direct slots for small references and a two-choice, two-way
    fallback for the others.  A reference stays taken for the whole session. */
module OrderTable {
  import opened Types
  import opened BookTypes

  const FALLBACK_WAYS: nat := 2

  datatype Config = Config(directSlots: nat, buckets: nat, primary: u64 -> nat, secondary: u64 -> nat) {
    predicate Valid() { directSlots > 0 && 0 < buckets <= 0x1_0000_0000 }
  }

  datatype Entry = Entry(state: OrderState, ref: u64)

  /** A snapshot of both arrays; fallback way w of bucket b is entry 2b + w. */
  datatype Table = Table(direct: seq<OrderState>, fallback: seq<Entry>)

  datatype Slot = DirectSlot(i: nat) | FallbackSlot(k: nat)

  datatype Reservation = Reservation(result: MutationResult, path: LookupPath, ref: u64, bucket: nat, way: nat)

  // ----- Candidate slots ---------------------------------------------------------------

  function CandidateBuckets(c: Config, ref: u64): (r: (nat, nat))
    requires c.Valid()
    ensures r.0 < c.buckets && r.1 < c.buckets
    ensures r.0 == r.1 <==> c.buckets == 1
  {
    var p := c.primary(ref) % c.buckets;
    var s := c.secondary(ref) % c.buckets;
    if s == p && c.buckets > 1 then (p, if s + 1 == c.buckets then 0 else s + 1) else (p, s)
  }

  /** The fallback entries a reference may occupy, in probe order. */
  function Candidates(c: Config, ref: u64): (r: seq<nat>)
    requires c.Valid()
    ensures |r| == 2 || |r| == 4
    ensures forall x :: 0 <= x < |r| ==> r[x] < 2 * c.buckets
    ensures forall x, y :: 0 <= x < y < |r| ==> r[x] != r[y]
  {
    var b := CandidateBuckets(c, ref);
    if b.0 == b.1 then [2 * b.0, 2 * b.0 + 1]
    else [2 * b.0, 2 * b.0 + 1, 2 * b.1, 2 * b.1 + 1]
  }

  // ----- Seats -------------------------------------------------------------------------

  /** The first of `cs` that is not in `taken`. */
  function FirstFree(cs: seq<nat>, taken: set<nat>): (r: Option<nat>)
    ensures r.None? <==> forall x :: 0 <= x < |cs| ==> cs[x] in taken
    ensures r.Some? ==> r.value !in taken
  {
    if cs == [] then None
    else if cs[0] !in taken then Some(cs[0])
    else FirstFree(cs[1..], taken)
  }

  /** No fallback slot is left for the reference; `taken` are the fallback slots ever filled. */
  predicate NoSeat(c: Config, taken: set<nat>, ref: u64)
    requires c.Valid()
  {
    ref >= c.directSlots && FirstFree(Candidates(c, ref), taken).None?
  }

  /** The filled fallback slots once `ref` has been given its slot. */
  function SeatsWith(c: Config, taken: set<nat>, ref: u64): set<nat>
    requires c.Valid()
  {
    if ref < c.directSlots then taken
    else match FirstFree(Candidates(c, ref), taken)
      case None => taken
      case Some(k) => taken + {k}
  }

  ghost function TakenSlots(t: Table): (r: set<nat>) {
    set k: nat | k < |t.fallback| && t.fallback[k].state.seen
  }

  /** The first free candidate, found by its place in the list. */
  lemma {:induction false} FirstFreeAt(cs: seq<nat>, taken: set<nat>, x: nat)
    requires x < |cs| && cs[x] !in taken && forall y :: 0 <= y < x ==> cs[y] in taken
    ensures FirstFree(cs, taken) == Some(cs[x])
    decreases cs
  {
    if x > 0 { FirstFreeAt(cs[1..], taken, x - 1); }
  }

  // ----- Invariant ---------------------------------------------------------------------

  ghost predicate Shape(c: Config, t: Table) {
    c.Valid() && |t.direct| == c.directSlots && |t.fallback| == 2 * c.buckets
  }

  /** A seen fallback entry sits at one of its reference's candidates and every earlier
      candidate is taken. */
  ghost predicate FirstFit(c: Config, t: Table, k: nat)
    requires Shape(c, t) && k < |t.fallback|
  {
    var cs := Candidates(c, t.fallback[k].ref);
    && t.fallback[k].ref >= c.directSlots
    && exists x :: 0 <= x < |cs| && cs[x] == k && forall y :: 0 <= y < x ==> t.fallback[cs[y]].state.seen
  }

  /** The arrays hold exactly the live orders `live` and the taken references `seen`. */
  ghost predicate Represents(c: Config, t: Table, live: map<u64, OrderState>, seen: set<u64>, at: map<u64, nat>) {
    && Shape(c, t)
    && live.Keys <= seen
    && (forall i: u64 :: i < c.directSlots ==>
         && t.direct[i].seen == (i in seen) && t.direct[i].active == (i in live)
         && (i in live ==> live[i] == t.direct[i]))
    && (forall k :: 0 <= k < |t.fallback| && t.fallback[k].state.seen ==>
         && FirstFit(c, t, k)
         && t.fallback[k].ref in at && at[t.fallback[k].ref] == k)
    && (forall k :: 0 <= k < |t.fallback| && t.fallback[k].state.active ==> t.fallback[k].state.seen)
    && (forall r :: r in at ==>
         && r >= c.directSlots && at[r] < |t.fallback|
         && t.fallback[at[r]].ref == r && t.fallback[at[r]].state.seen
         && t.fallback[at[r]].state.active == (r in live)
         && (r in live ==> live[r] == t.fallback[at[r]].state))
    && (forall r :: r in seen && r >= c.directSlots ==> r in at)
    && (forall r :: r in at ==> r in seen)
  }

  lemma HasShape(c: Config, t: Table, live: map<u64, OrderState>, seen: set<u64>, at: map<u64, nat>)
    requires Represents(c, t, live, seen, at)
    ensures Shape(c, t)
  {
  }

  lemma FreshIsNowhere(c: Config, t: Table, live: map<u64, OrderState>, seen: set<u64>, at: map<u64, nat>, ref: u64)
    requires Represents(c, t, live, seen, at) && ref !in seen
    ensures ref !in at
  {
  }

  /** What later states keep: a taken slot stays taken, by the same reference. */
  ghost predicate Extends(t0: Table, t1: Table) {
    && |t0.direct| == |t1.direct| && |t0.fallback| == |t1.fallback|
    && (forall i :: 0 <= i < |t0.direct| && t0.direct[i].seen ==> t1.direct[i].seen)
    && (forall k :: 0 <= k < |t0.fallback| && t0.fallback[k].state.seen ==>
         t1.fallback[k].state.seen && t1.fallback[k].ref == t0.fallback[k].ref)
  }

  lemma ExtendsReflexive(t: Table)
    ensures Extends(t, t)
  {
  }

  lemma ExtendsTransitive(t0: Table, t1: Table, t2: Table)
    requires Extends(t0, t1) && Extends(t1, t2)
    ensures Extends(t0, t2)
  {
  }

  // ----- Reservations ------------------------------------------------------------------

  /** The slot a valid reservation names. */
  function SlotOf(r: Reservation): Slot {
    if r.path == Direct then DirectSlot(r.ref) else FallbackSlot(2 * r.bucket + r.way)
  }

  /** `r` is a successful answer of reserve in table `t`: the slot is the first one of the
      reference's candidates that is not taken, and no candidate holds the reference. */
  ghost predicate IssuedIn(c: Config, t: Table, r: Reservation)
    requires Shape(c, t)
  {
    && r.result == Applied
    && if r.ref < c.directSlots then r.path == Direct && !t.direct[r.ref].seen
       else
         var cs := Candidates(c, r.ref);
         var b := CandidateBuckets(c, r.ref);
         && r.way < FALLBACK_WAYS
         && ((r.path == FallbackPrimary && r.bucket == b.0) || (r.path == FallbackSecondary && r.bucket == b.1 != b.0))
         && !t.fallback[2 * r.bucket + r.way].state.seen
         && (exists x :: 0 <= x < |cs| && cs[x] == 2 * r.bucket + r.way &&
              forall y :: 0 <= y < x ==> t.fallback[cs[y]].state.seen)
         && forall y :: 0 <= y < |cs| && t.fallback[cs[y]].state.seen ==> t.fallback[cs[y]].ref != r.ref
  }

  /** An issued reservation names the seat that the reference takes. */
  lemma IssuedSeat(c: Config, t: Table, r: Reservation)
    requires Shape(c, t) && IssuedIn(c, t, r)
    ensures !NoSeat(c, TakenSlots(t), r.ref)
    ensures r.ref >= c.directSlots ==> SeatsWith(c, TakenSlots(t), r.ref) == TakenSlots(t) + {2 * r.bucket + r.way}
  {
    hide CandidateBuckets, Candidates;
    if r.ref >= c.directSlots {
      var cs := Candidates(c, r.ref);
      var x :| 0 <= x < |cs| && cs[x] == 2 * r.bucket + r.way && forall y :: 0 <= y < x ==>
            t.fallback[cs[y]].state.seen;
      FirstFreeAt(cs, TakenSlots(t), x);
    }
  }

  /** Every candidate taken means no seat. */
  lemma FullSeat(c: Config, t: Table, ref: u64)
    requires Shape(c, t)
    ensures NoSeat(c, TakenSlots(t), ref) <==>
              ref >= c.directSlots && forall x :: 0 <= x < |Candidates(c, ref)| ==>
                    t.fallback[Candidates(c, ref)[x]].state.seen
  {
    hide CandidateBuckets, Candidates;
  }

  predicate Taken(t: Table, s: Slot)
    requires match s case DirectSlot(i) => i < |t.direct| case FallbackSlot(k) => k < |t.fallback|
  {
    match s
    case DirectSlot(i) => t.direct[i].seen
    case FallbackSlot(k) => t.fallback[k].state.seen
  }

  /** The record passes every check of commit: it names an untaken slot its reference may have. */
  ghost predicate Commits(c: Config, t: Table, r: Reservation)
    requires Shape(c, t)
  {
    && r.result == Applied
    && if r.path == Direct then r.ref < c.directSlots && !t.direct[r.ref].seen
       else
         var b := CandidateBuckets(c, r.ref);
         && r.ref >= c.directSlots && r.way < FALLBACK_WAYS
         && ((r.path == FallbackPrimary && r.bucket == b.0) || (r.path == FallbackSecondary && r.bucket == b.1 != b.0))
         && !t.fallback[2 * r.bucket + r.way].state.seen
  }

  lemma IssuedUntaken(c: Config, t: Table, r: Reservation)
    requires Shape(c, t) && IssuedIn(c, t, r)
    ensures !Taken(t, SlotOf(r)) && (r.ref < c.directSlots ==> SeatsWith(c, TakenSlots(t), r.ref) == TakenSlots(t))
  {
    hide Candidates;
  }

  /** A reservation issued earlier is refused only because its slot was taken meanwhile. */
  lemma IssuedCommits(c: Config, t0: Table, t1: Table, r: Reservation)
    requires Shape(c, t0) && Shape(c, t1) && IssuedIn(c, t0, r) && Extends(t0, t1)
    ensures Commits(c, t1, r) <==> !Taken(t1, SlotOf(r))
  {
    hide Candidates;
  }

  /** A reservation issued in any earlier state whose slot is still untaken names a reference
      that is still unused: committing it neither overwrites a record nor makes a second entry. */
  lemma StaleReservationSafe(c: Config, t0: Table, t1: Table, live: map<u64, OrderState>, seen: set<u64>,
                             at: map<u64, nat>, r: Reservation)
    requires Shape(c, t0) && IssuedIn(c, t0, r)
    requires Extends(t0, t1) && Represents(c, t1, live, seen, at)
    requires !Taken(t1, SlotOf(r))
    ensures r.ref !in seen
  {
    hide CandidateBuckets, Candidates, FirstFit;
    if r.ref >= c.directSlots {
      var cs := Candidates(c, r.ref);
      var z :| 0 <= z < |cs| && cs[z] == 2 * r.bucket + r.way && forall y :: 0 <= y < z ==>
            t0.fallback[cs[y]].state.seen;
      forall x | 0 <= x < |cs| && t1.fallback[cs[x]].state.seen ensures t1.fallback[cs[x]].ref != r.ref {
        if z < x && t1.fallback[cs[x]].ref == r.ref { EarlierTaken(c, t1, cs[x], x, z); }
      }
      SeenIsCandidate(c, t1, live, seen, at, r.ref);
    }
  }

  lemma EarlierTaken(c: Config, t: Table, k: nat, x: nat, z: nat)
    requires Shape(c, t) && k < |t.fallback| && FirstFit(c, t, k)
    requires z < x < |Candidates(c, t.fallback[k].ref)| && Candidates(c, t.fallback[k].ref)[x] == k
    ensures t.fallback[Candidates(c, t.fallback[k].ref)[z]].state.seen
  {
    hide CandidateBuckets, Candidates;
  }

  /** Filling an untaken slot with a fresh reference. */
  lemma CommitRepresents(c: Config, t: Table, live: map<u64, OrderState>, seen: set<u64>, at: map<u64, nat>,
                         r: Reservation, st: OrderState, t0: Table)
    requires Represents(c, t, live, seen, at)
    requires Shape(c, t0) && IssuedIn(c, t0, r) && Extends(t0, t)
    requires !Taken(t, SlotOf(r)) && r.ref !in seen && st.active && st.seen
    ensures r.ref < c.directSlots ==>
              Represents(c, t.(direct := t.direct[r.ref := st]), live[r.ref := st], seen + {r.ref}, at)
    ensures r.ref >= c.directSlots ==>
              var k := 2 * r.bucket + r.way;
              Represents(c, t.(fallback := t.fallback[k := Entry(st, r.ref)]),
                         live[r.ref := st], seen + {r.ref}, at[r.ref := k])
  {
    hide CandidateBuckets, Candidates, Represents;
    HasShape(c, t, live, seen, at);
    if r.ref >= c.directSlots {
      CommitFar(c, t, live, seen, at, r, st, t0);
    } else {
      CommitNear(c, t, live, seen, at, r.ref, st);
    }
  }

  lemma CommitNear(c: Config, t: Table, live: map<u64, OrderState>, seen: set<u64>, at: map<u64, nat>,
                   ref: u64, st: OrderState)
    requires Represents(c, t, live, seen, at) && ref < c.directSlots && ref !in seen && st.active && st.seen
    ensures Represents(c, t.(direct := t.direct[ref := st]), live[ref := st], seen + {ref}, at)
  {
    hide CandidateBuckets, Candidates, FirstFit;
    FirstFitFrame(c, t, t.(direct := t.direct[ref := st]));
  }

  lemma CommitFar(c: Config, t: Table, live: map<u64, OrderState>, seen: set<u64>, at: map<u64, nat>,
                  r: Reservation, st: OrderState, t0: Table)
    requires Represents(c, t, live, seen, at)
    requires Shape(c, t0) && IssuedIn(c, t0, r) && Extends(t0, t) && r.ref >= c.directSlots
    requires !Taken(t, SlotOf(r)) && r.ref !in seen && st.active && st.seen
    ensures var k := 2 * r.bucket + r.way;
            Represents(c, t.(fallback := t.fallback[k := Entry(st, r.ref)]),
                       live[r.ref := st], seen + {r.ref}, at[r.ref := k])
  {
    hide CandidateBuckets, Candidates, FirstFit;
    FillKeepsFirstFit(c, t, t0, r, st);
  }

  lemma FillKeepsFirstFit(c: Config, t: Table, t0: Table, r: Reservation, st: OrderState)
    requires Shape(c, t) && Shape(c, t0) && IssuedIn(c, t0, r) && Extends(t0, t) && r.ref >= c.directSlots
    requires st.seen
    requires forall k :: 0 <= k < |t.fallback| && t.fallback[k].state.seen ==> FirstFit(c, t, k)
    ensures var t' := t.(fallback := t.fallback[2 * r.bucket + r.way := Entry(st, r.ref)]);
            forall k :: 0 <= k < |t'.fallback| && t'.fallback[k].state.seen ==> FirstFit(c, t', k)
  {
    hide CandidateBuckets, Candidates;
    var slot := 2 * r.bucket + r.way;
    var t' := t.(fallback := t.fallback[slot := Entry(st, r.ref)]);
    forall k | 0 <= k < |t'.fallback| && t'.fallback[k].state.seen ensures FirstFit(c, t', k) {
      if k == slot {
        FitsThere(c, t0, t', r);
      } else {
        assert FirstFit(c, t, k);
        KeepsFit(c, t, t', k);
      }
    }
  }

  /** A filled reservation sits at the first place that was free when it was issued. */
  lemma FitsThere(c: Config, t0: Table, t': Table, r: Reservation)
    requires Shape(c, t') && Shape(c, t0) && IssuedIn(c, t0, r) && r.ref >= c.directSlots
    requires var slot := 2 * r.bucket + r.way; t'.fallback[slot].state.seen && t'.fallback[slot].ref == r.ref
    requires forall k :: 0 <= k < |t0.fallback| && t0.fallback[k].state.seen ==> t'.fallback[k].state.seen
    ensures FirstFit(c, t', 2 * r.bucket + r.way)
  {
    hide CandidateBuckets, Candidates;
    var slot := 2 * r.bucket + r.way;
    var cs := Candidates(c, r.ref);
    var x :| 0 <= x < |cs| && cs[x] == slot && forall y :: 0 <= y < x ==> t0.fallback[cs[y]].state.seen;
    assert forall y :: 0 <= y < x ==> t'.fallback[cs[y]].state.seen;
  }

  /** An entry stays first fit while no entry before it is given up. */
  lemma KeepsFit(c: Config, t: Table, t': Table, k: nat)
    requires Shape(c, t) && Shape(c, t') && k < |t.fallback| && FirstFit(c, t, k)
    requires t'.fallback[k].ref == t.fallback[k].ref
    requires forall j :: 0 <= j < |t.fallback| && t.fallback[j].state.seen ==> t'.fallback[j].state.seen
    ensures FirstFit(c, t', k)
  {
    hide CandidateBuckets, Candidates;
    var cs := Candidates(c, t.fallback[k].ref);
    var x :| 0 <= x < |cs| && cs[x] == k && forall y :: 0 <= y < x ==> t.fallback[cs[y]].state.seen;
    assert forall y :: 0 <= y < x ==> t'.fallback[cs[y]].state.seen;
  }

  /** First fit depends only on which entries are taken and by whom. */
  lemma FirstFitFrame(c: Config, t: Table, t': Table)
    requires Shape(c, t) && Shape(c, t') && Extends(t, t')
    requires forall k :: 0 <= k < |t.fallback| && t.fallback[k].state.seen ==> FirstFit(c, t, k)
    requires forall k :: 0 <= k < |t.fallback| && t'.fallback[k].state.seen ==> t.fallback[k].state.seen
    ensures forall k :: 0 <= k < |t'.fallback| && t'.fallback[k].state.seen ==> FirstFit(c, t', k)
  {
    hide CandidateBuckets, Candidates;
    forall k | 0 <= k < |t'.fallback| && t'.fallback[k].state.seen ensures FirstFit(c, t', k) {
      assert FirstFit(c, t, k);
      var cs := Candidates(c, t.fallback[k].ref);
      var x :| 0 <= x < |cs| && cs[x] == k && forall y :: 0 <= y < x ==> t.fallback[cs[y]].state.seen;
      assert forall y :: 0 <= y < x ==> t'.fallback[cs[y]].state.seen;
    }
  }

  /** Rewriting a taken slot's record without touching its seen flag: a partial fill keeps it
      active, an erase does not. */
  /** Where the record of a live order is. */
  lemma WriteTarget(c: Config, t: Table, live: map<u64, OrderState>, seen: set<u64>, at: map<u64, nat>, ref: u64)
    requires Represents(c, t, live, seen, at) && ref in live
    ensures Shape(c, t) && ref in seen
    ensures ref >= c.directSlots ==> ref in at && at[ref] < |t.fallback| && t.fallback[at[ref]].ref == ref
  {
    hide FirstFit;
  }

  lemma RewriteDirect(c: Config, t: Table, live: map<u64, OrderState>, seen: set<u64>, at: map<u64, nat>,
                      ref: u64, st: OrderState)
    requires Represents(c, t, live, seen, at) && ref in seen && st.seen && ref < c.directSlots
    ensures var t' := t.(direct := t.direct[ref := st]);
            && Represents(c, t', if st.active then live[ref := st] else live - {ref}, seen, at)
            && Extends(t, t') && TakenSlots(t') == TakenSlots(t)
  {
    hide FirstFit;
    FirstFitFrame(c, t, t.(direct := t.direct[ref := st]));
  }

  lemma RewriteFallback(c: Config, t: Table, live: map<u64, OrderState>, seen: set<u64>, at: map<u64, nat>,
                        ref: u64, st: OrderState)
    requires Represents(c, t, live, seen, at) && ref in seen && st.seen && ref >= c.directSlots
    ensures var t' := t.(fallback := t.fallback[at[ref] := Entry(st, ref)]);
            && Represents(c, t', if st.active then live[ref := st] else live - {ref}, seen, at)
            && Extends(t, t') && TakenSlots(t') == TakenSlots(t)
  {
    hide FirstFit;
    FirstFitFrame(c, t, t.(fallback := t.fallback[at[ref] := Entry(st, ref)]));
  }

  /** A reference is taken exactly when one of its candidates holds it. */
  lemma SeenIsCandidate(c: Config, t: Table, live: map<u64, OrderState>, seen: set<u64>, at: map<u64, nat>, ref: u64)
    requires Represents(c, t, live, seen, at) && ref >= c.directSlots
    ensures var cs := Candidates(c, ref);
            ref in seen <==> exists x :: 0 <= x < |cs| && t.fallback[cs[x]].state.seen && t.fallback[cs[x]].ref == ref
  {
    hide CandidateBuckets, Candidates;
    var cs := Candidates(c, ref);
    if ref in seen {
      assert FirstFit(c, t, at[ref]);
      var x :| 0 <= x < |cs| && cs[x] == at[ref] && forall y :: 0 <= y < x ==> t.fallback[cs[y]].state.seen;
    }
  }

  class OrderTable {
    const config: Config
    const direct: array<OrderState>
    const fallback: array<Entry>
    // The live orders and every reference ever accepted.
    ghost var live: map<u64, OrderState>
    ghost var seen: set<u64>
    ghost var at: map<u64, nat>

    ghost function Snap(): Table
      reads direct, fallback
    {
      Table(direct[..], fallback[..])
    }

    ghost predicate Valid()
      reads this, direct, fallback
    {
      Represents(config, Snap(), live, seen, at)
    }

    constructor (config: Config)
      requires config.Valid()
      ensures Valid() && live == map[] && seen == {} && this.config == config
      ensures fresh(direct) && fresh(fallback)
    {
      this.config := config;
      direct := new OrderState[config.directSlots](_ => BLANK_STATE);
      fallback := new Entry[2 * config.buckets](_ => Entry(BLANK_STATE, 0));
      live, seen, at := map[], {}, map[];
    }

    /** The slot `s` holds the record of the live order `ref`. */
    ghost predicate Resolves(s: Slot, ref: u64)
      reads this, direct, fallback
      requires Valid()
    {
      && ref in live
      && match s
         case DirectSlot(i) => i == ref && i < config.directSlots
         case FallbackSlot(k) => ref >= config.directSlots && ref in at && k == at[ref]
    }

    method Read(s: Slot, ghost ref: u64) returns (st: OrderState)
      requires Valid() && Resolves(s, ref)
      ensures st == live[ref] && st.active && st.seen
    {
      match s
      case DirectSlot(i) => st := direct[i];
      case FallbackSlot(k) => st := fallback[k].state;
    }

    method FindState(ref: u64) returns (s: Option<Slot>)
      requires Valid()
      ensures s.Some? <==> ref in live
      ensures s.Some? ==> Resolves(s.value, ref)
    {
      hide Candidates, CandidateBuckets, FirstFit;
      if ref >= config.directSlots {
        s := FindFallbackState(ref);
        return;
      }
      return if direct[ref].active then Some(DirectSlot(ref)) else None;
    }

    method FindFallbackState(ref: u64) returns (s: Option<Slot>)
      requires Valid() && ref >= config.directSlots
      ensures s.Some? <==> ref in live
      ensures s.Some? ==> Resolves(s.value, ref)
    {
      hide CandidateBuckets, FirstFit;
      var b := CandidateBuckets(config, ref);
      ghost var cs := Candidates(config, ref);
      var count := if b.0 == b.1 then 1 else 2;
      for candidate := 0 to count
        invariant forall x :: 0 <= x < 2 * candidate ==> !(fallback[cs[x]].state.active && fallback[cs[x]].ref == ref)
      {
        var bucket := if candidate == 0 then b.0 else b.1;
        for way := 0 to FALLBACK_WAYS
          invariant forall x :: 0 <= x < 2 * candidate + way ==>
                      !(fallback[cs[x]].state.active && fallback[cs[x]].ref == ref)
        {
          var entry := fallback[2 * bucket + way];
          assert cs[2 * candidate + way] == 2 * bucket + way;
          if entry.state.active && entry.ref == ref {
            assert Snap().fallback[2 * bucket + way] == entry;
            return Some(FallbackSlot(2 * bucket + way));
          }
        }
      }
      SeenIsCandidate(config, Snap(), live, seen, at, ref);
      return None;
    }

    method Reserve(ref: u64) returns (r: Reservation)
      requires Valid()
      ensures r.ref == ref
      ensures r.result == DuplicateOrderRef <==> ref in seen
      ensures r.result == OrderTableCapacityExceeded <==>
              ref !in seen && ref >= config.directSlots &&
              forall x :: 0 <= x < |Candidates(config, ref)| ==> fallback[..][Candidates(config, ref)[x]].state.seen
      ensures r.result == Applied ==> IssuedIn(config, Snap(), r)
      ensures r.result in {Applied, DuplicateOrderRef, OrderTableCapacityExceeded}
    {
      hide Candidates, CandidateBuckets, FirstFit;
      if ref < config.directSlots {
        return Reservation(if direct[ref].seen then DuplicateOrderRef else Applied, Direct, ref, 0, 0);
      }
      r := ReserveFallback(ref);
    }

    method ReserveFallback(ref: u64) returns (r: Reservation)
      requires Valid() && ref >= config.directSlots
      ensures r.ref == ref
      ensures r.result == DuplicateOrderRef <==> ref in seen
      ensures r.result == OrderTableCapacityExceeded <==>
              ref !in seen &&
              forall x :: 0 <= x < |Candidates(config, ref)| ==> fallback[..][Candidates(config, ref)[x]].state.seen
      ensures r.result == Applied ==> IssuedIn(config, Snap(), r)
      ensures r.result in {Applied, DuplicateOrderRef, OrderTableCapacityExceeded}
    {
      hide CandidateBuckets, FirstFit, ScanOk, Represents;
      HasShape(config, Snap(), live, seen, at);
      var b := CandidateBuckets(config, ref);
      ghost var cs := Candidates(config, ref);
      ghost var f := fallback[..];
      SeenIsCandidate(config, Snap(), live, seen, at, ref);
      var count := if b.0 == b.1 then 1 else 2;
      r := Reservation(OrderTableCapacityExceeded, NoPath, ref, 0, 0);
      ScanStart(cs, f, b, ref);
      for candidate := 0 to count
        invariant ScanOk(cs, f, b, ref, r, 2 * candidate)
      {
        var bucket := if candidate == 0 then b.0 else b.1;
        var path := if candidate == 0 then FallbackPrimary else FallbackSecondary;
        for way := 0 to FALLBACK_WAYS
          invariant ScanOk(cs, f, b, ref, r, 2 * candidate + way)
        {
          var entry := fallback[2 * bucket + way];
          assert cs[2 * candidate + way] == 2 * bucket + way && f[2 * bucket + way] == entry;
          ScanStep(cs, f, b, ref, r, 2 * candidate + way, path, bucket, way);
          if entry.state.seen {
            if entry.ref == ref {
              return Reservation(DuplicateOrderRef, path, ref, bucket, way);
            }
          } else if r.result != Applied {
            r := Reservation(Applied, path, ref, bucket, way);
          }
        }
      }
      ScanEnd(config, Snap(), b, ref, r);
    }

    /** Publishes a reservation.  A record that fails a check is refused; one that passes must have
        been issued by reserve, in this state or an earlier state `origin`. */
    method Commit(r: Reservation, state: OrderState, ghost origin: Table) returns (result: MutationResult)
      requires Valid()
      requires Commits(config, Snap(), r) ==>
                 Shape(config, origin) && IssuedIn(config, origin, r) && Extends(origin, Snap())
      modifies this, direct, fallback
      ensures Valid() && Extends(old(Snap()), Snap())
      ensures result == if r.result != Applied then r.result
                        else if Commits(config, old(Snap()), r) then Applied else StaleReservation
      ensures result == Applied ==> r.ref !in old(seen)
      ensures result == Applied ==>
                live == old(live)[r.ref := state.(active := true, seen := true)] && seen == old(seen) + {r.ref}
      ensures result != Applied ==> live == old(live) && seen == old(seen) && Snap() == old(Snap())
      ensures result == Applied ==>
                TakenSlots(Snap()) == TakenSlots(old(Snap())) + (if r.ref < config.directSlots then {}
                    else {2 * r.bucket + r.way})
      ensures forall x :: x in old(at) ==> x in at && at[x] == old(at)[x]
    {
      hide Candidates, CandidateBuckets, FirstFit, Represents;
      HasShape(config, Snap(), live, seen, at);
      if r.result != Applied {
        return r.result;
      }
      ghost var t := Snap();
      var st := state.(active := true, seen := true);
      if r.path == Direct {
        if r.ref >= config.directSlots {
          return StaleReservation;
        }
        if direct[r.ref].seen {
          return StaleReservation;
        }
        StaleReservationSafe(config, origin, t, live, seen, at, r);
        CommitRepresents(config, t, live, seen, at, r, st, origin);
        direct[r.ref] := st;
        assert Snap() == t.(direct := t.direct[r.ref := st]);
        live, seen := live[r.ref := st], seen + {r.ref};
        return Applied;
      }
      result := CommitFallback(r, st, origin);
    }

    method CommitFallback(r: Reservation, st: OrderState, ghost origin: Table) returns (result: MutationResult)
      requires Valid() && r.result == Applied && r.path != Direct && st.active && st.seen
      requires Commits(config, Snap(), r) ==>
                 Shape(config, origin) && IssuedIn(config, origin, r) && Extends(origin, Snap())
      modifies this, fallback
      ensures Valid() && Extends(old(Snap()), Snap())
      ensures result == if Commits(config, old(Snap()), r) then Applied else StaleReservation
      ensures result == Applied ==> r.ref !in old(seen)
      ensures result == Applied ==> live == old(live)[r.ref := st] && seen == old(seen) + {r.ref}
      ensures result != Applied ==> live == old(live) && seen == old(seen) && Snap() == old(Snap())
      ensures result == Applied ==> TakenSlots(Snap()) == TakenSlots(old(Snap())) + {2 * r.bucket + r.way}
      ensures result == Applied ==> r.ref >= config.directSlots
      ensures forall x :: x in old(at) ==> x in at && at[x] == old(at)[x]
    {
      hide Candidates, CandidateBuckets, FirstFit, Represents;
      HasShape(config, Snap(), live, seen, at);
      if (r.path != FallbackPrimary && r.path != FallbackSecondary) ||
         r.bucket >= config.buckets || r.way >= FALLBACK_WAYS || r.ref < config.directSlots {
        return StaleReservation;
      }
      var b := CandidateBuckets(config, r.ref);
      var primary := r.path == FallbackPrimary;
      if r.bucket != (if primary then b.0 else b.1) || (!primary && b.0 == b.1) {
        return StaleReservation;
      }
      ghost var t := Snap();
      var k := 2 * r.bucket + r.way;
      if fallback[k].state.seen {
        return StaleReservation;
      }
      StaleReservationSafe(config, origin, t, live, seen, at, r);
      FreshIsNowhere(config, t, live, seen, at, r.ref);
      CommitRepresents(config, t, live, seen, at, r, st, origin);
      fallback[k] := Entry(st, r.ref);
      assert Snap() == t.(fallback := t.fallback[k := Entry(st, r.ref)]);
      live, seen, at := live[r.ref := st], seen + {r.ref}, at[r.ref := k];
      return Applied;
    }

    /** Overwrites the record of a live order through its slot. */
    method Write(s: Slot, st: OrderState, ghost ref: u64)
      requires Valid() && Resolves(s, ref) && st.seen
      modifies this, direct, fallback
      ensures Valid() && Extends(old(Snap()), Snap()) && seen == old(seen) &&
              TakenSlots(Snap()) == TakenSlots(old(Snap()))
      ensures live == if st.active then old(live)[ref := st] else old(live) - {ref}
    {
      hide Represents, Extends, TakenSlots;
      ghost var t := Snap();
      WriteTarget(config, t, live, seen, at, ref);
      match s {
        case DirectSlot(i) =>
          RewriteDirect(config, t, live, seen, at, ref, st);
          direct[i] := st;
          assert Snap() == t.(direct := t.direct[i := st]);
        case FallbackSlot(k) =>
          RewriteFallback(config, t, live, seen, at, ref, st);
          fallback[k] := Entry(st, fallback[k].ref);
          assert Snap() == t.(fallback := t.fallback[k := Entry(st, ref)]);
      }
      live := if st.active then live[ref := st] else live - {ref};
    }

    /** Erases through a slot: the record is blanked but its reference stays taken. */
    method EraseSlot(s: Option<Slot>, ghost ref: u64) returns (result: MutationResult)
      requires Valid()
      requires s.Some? ==> Resolves(s.value, ref)
      modifies this, direct, fallback
      ensures Valid() && Extends(old(Snap()), Snap()) && seen == old(seen) &&
              TakenSlots(Snap()) == TakenSlots(old(Snap()))
      ensures result == if s.Some? then Applied else OrderNotFound
      ensures live == if s.Some? then old(live) - {ref} else old(live)
    {
      if s.None? {
        return OrderNotFound;
      }
      Write(s.value, BLANK_STATE.(seen := true), ref);
      return Applied;
    }

    method Erase(ref: u64) returns (result: MutationResult)
      requires Valid()
      modifies this, direct, fallback
      ensures Valid() && Extends(old(Snap()), Snap()) && seen == old(seen) &&
              TakenSlots(Snap()) == TakenSlots(old(Snap()))
      ensures result == if ref in old(live) then Applied else OrderNotFound
      ensures live == old(live) - {ref}
    {
      var s := FindState(ref);
      result := EraseSlot(s, ref);
    }
  }

  /** The reserve loop after `x` candidate slots: `r` is the first untaken one, if any. */
  ghost predicate ScanOk(cs: seq<nat>, f: seq<Entry>, b: (nat, nat), ref: u64, r: Reservation, x: nat) {
    && x <= |cs|
    && (forall y :: 0 <= y < |cs| ==> cs[y] < |f|)
    && r.ref == ref
    && (forall y :: 0 <= y < x && f[cs[y]].state.seen ==> f[cs[y]].ref != ref)
    && match r.result
       case OrderTableCapacityExceeded => forall y :: 0 <= y < x ==> f[cs[y]].state.seen
       case Applied =>
         && r.way < FALLBACK_WAYS
         && ((r.path == FallbackPrimary && r.bucket == b.0) || (r.path == FallbackSecondary && r.bucket == b.1 != b.0))
         && exists z :: 0 <= z < x && cs[z] == 2 * r.bucket + r.way && !f[cs[z]].state.seen &&
                        forall y :: 0 <= y < z ==> f[cs[y]].state.seen
       case _ => false
  }

  lemma ScanStart(cs: seq<nat>, f: seq<Entry>, b: (nat, nat), ref: u64)
    requires forall y :: 0 <= y < |cs| ==> cs[y] < |f|
    ensures ScanOk(cs, f, b, ref, Reservation(OrderTableCapacityExceeded, NoPath, ref, 0, 0), 0)
  {
  }

  lemma ScanStep(cs: seq<nat>, f: seq<Entry>, b: (nat, nat), ref: u64, r: Reservation, x: nat,
                 path: LookupPath, bucket: nat, way: nat)
    requires ScanOk(cs, f, b, ref, r, x) && x < |cs| && cs[x] == 2 * bucket + way && way < FALLBACK_WAYS
    requires (path == FallbackPrimary && bucket == b.0) || (path == FallbackSecondary && bucket == b.1 != b.0)
    ensures f[cs[x]].state.seen && f[cs[x]].ref != ref ==> ScanOk(cs, f, b, ref, r, x + 1)
    ensures !f[cs[x]].state.seen ==>
              ScanOk(cs, f, b, ref, if r.result != Applied then Reservation(Applied, path, ref, bucket, way)
                  else r, x + 1)
  {
  }

  lemma ScanEnd(c: Config, t: Table, b: (nat, nat), ref: u64, r: Reservation)
    requires Shape(c, t) && b == CandidateBuckets(c, ref) && ref >= c.directSlots
    requires ScanOk(Candidates(c, ref), t.fallback, b, ref, r, |Candidates(c, ref)|)
    ensures r.ref == ref && r.result in {Applied, OrderTableCapacityExceeded}
    ensures r.result == Applied ==> IssuedIn(c, t, r)
    ensures var cs := Candidates(c, ref);
            && (forall y :: 0 <= y < |cs| && t.fallback[cs[y]].state.seen ==> t.fallback[cs[y]].ref != ref)
            && (r.result == OrderTableCapacityExceeded <==> forall y :: 0 <= y < |cs| ==> t.fallback[cs[y]].state.seen)
  {
    hide Candidates, CandidateBuckets;
  }
}
