/** The reorder buffer: open addressing with linear probing and backward-shift deletion. */
module GapBuffer {
  import opened Types
  import opened FiniteSets

  const MAX_PACKET_SIZE: nat := 2048

  datatype Packet = Packet(seqNo: u64, msgCount: u16, data: seq<byte>)

  datatype Slot = Free | Used(packet: Packet)

  datatype InsertResult = Inserted | DuplicateIdentical | ConflictingDuplicate | InvalidPacket | CapacityExceeded

  // ----- Circular arithmetic -----------------------------------------------------------

  /** (x) & mask for a sum of two slot numbers. */
  function Wrap(x: nat, n: nat): (r: nat)
    requires x < 2 * n
    ensures r == if x < n then x else x - n
  {
    x % n
  }

  /** (slot - natural) & mask: how far `slot` lies behind the natural slot. */
  function ProbeDistance(natural: nat, slot: nat, n: nat): (r: nat)
    requires natural < n && slot < n
    ensures r == if natural <= slot then slot - natural else slot + n - natural
  {
    Wrap(slot + n - natural, n)
  }

  /** The position of slot `x` when the ring is cut open just behind slot `cut`. */
  function Pos(n: nat, cut: nat, x: nat): (p: nat)
    requires cut < n && x < n
    ensures p < n
  {
    if x > cut then x - cut - 1 else x + n - cut - 1
  }

  // ----- Placement ---------------------------------------------------------------------

  type Table = seq<Slot>

  /** Every slot from an entry's natural slot to the slot it is in is used, and the ring can
      be cut open so that no entry's path runs across the cut.  The second half matters only
      when the table is full: there, paths over used slots alone could form a cycle, and
      deletion would lose an entry. */
  ghost predicate WellPlaced(t: Table, natural: u64 -> nat, cut: nat) {
    && cut < |t|
    && forall j :: 0 <= j < |t| && t[j].Used? ==> Placed(t, natural, cut, j)
  }

  ghost predicate Placed(t: Table, natural: u64 -> nat, cut: nat, j: nat)
    requires cut < |t| && j < |t| && t[j].Used?
  {
    var h := natural(t[j].packet.seqNo);
    && h < |t|
    && Pos(|t|, cut, h) <= Pos(|t|, cut, j)
    && PathUsed(t, cut, h, j)
  }

  ghost predicate PathUsed(t: Table, cut: nat, h: nat, j: nat)
    requires cut < |t| && h < |t| && j < |t|
  {
    forall i :: 0 <= i < |t| && Pos(|t|, cut, h) <= Pos(|t|, cut, i) <= Pos(|t|, cut, j) ==> t[i].Used?
  }

  /** A ring can be cut open at any free slot. */
  lemma Recut(t: Table, natural: u64 -> nat, cut: nat, x: nat)
    requires WellPlaced(t, natural, cut) && x < |t| && t[x].Free?
    ensures WellPlaced(t, natural, x)
  {
    forall j | 0 <= j < |t| && t[j].Used? ensures Placed(t, natural, x, j) {
      assert Placed(t, natural, cut, j);
    }
  }

  /** `where` says in which slot each stored sequence number is. */
  ghost predicate Indexed(t: Table, where_: map<u64, nat>, contents: map<u64, Packet>) {
    && where_.Keys == contents.Keys
    && (forall s :: s in contents ==>
         where_[s] < |t| && t[where_[s]] == Used(contents[s]) && contents[s].seqNo == s)
    && (forall j :: 0 <= j < |t| && t[j].Used? ==>
         t[j].packet.seqNo in where_ && where_[t[j].packet.seqNo] == j)
  }

  // ----- Counting ----------------------------------------------------------------------

  lemma {:induction false} InjectiveSize(m: map<u64, nat>)
    requires forall a, b :: a in m && b in m && m[a] == m[b] ==> a == b
    ensures |m.Values| == |m.Keys|
  {
    if m.Keys == {} {
      assert m.Values == {};
    } else {
      var k :| k in m.Keys;
      var rest := m - {k};
      InjectiveSize(rest);
      assert rest.Keys == m.Keys - {k};
      assert m.Values == rest.Values + {m[k]} by {
        forall v | v in m.Values ensures v in rest.Values + {m[k]} {
          var a :| a in m && m[a] == v;
          if a != k { assert a in rest && rest[a] == v; }
        }
      }
    }
  }

  /** The table is full exactly when it holds as many packets as it has slots. */
  lemma FullMeansAllUsed(t: Table, where_: map<u64, nat>, contents: map<u64, Packet>)
    requires Indexed(t, where_, contents)
    ensures |contents| <= |t|
    ensures |contents| == |t| <==> forall j :: 0 <= j < |t| ==> t[j].Used?
  {
    InjectiveSize(where_);
    var all := Range(|t|);
    assert where_.Values <= all by {
      forall v | v in where_.Values ensures v in all {
        var s :| s in where_ && where_[s] == v;
        assert s in contents;
      }
    }
    SubsetSize(where_.Values, all);
    assert |contents| == |contents.Keys| == |where_.Values|;
    if |contents| == |t| {
      forall j: nat | j < |t| ensures t[j].Used? {
        assert j in where_.Values;
        var s :| s in where_ && where_[s] == j;
        assert s in contents;
      }
    }
    if forall j :: 0 <= j < |t| ==> t[j].Used? {
      forall j | j in all ensures j in where_.Values {
        assert t[j].packet.seqNo in where_;
      }
      assert where_.Values == all;
    }
  }

  /** The first `probes` slots from `h` on are used, none of them by `seqNo`. */
  ghost predicate Probed(t: Table, h: nat, seqNo: u64, probes: nat)
    requires h < |t|
  {
    forall i :: 0 <= i < |t| && ProbeDistance(h, i, |t|) < probes ==> t[i].Used? && t[i].packet.seqNo != seqNo
  }

  lemma ProbedNext(t: Table, h: nat, seqNo: u64, probes: nat)
    requires h < |t| && probes < |t| && Probed(t, h, seqNo, probes)
    requires var s := t[Wrap(h + probes, |t|)]; s.Used? && s.packet.seqNo != seqNo
    ensures Probed(t, h, seqNo, probes + 1)
  {
  }

  /** A probe that ends on a free slot, or has seen every slot, has not missed `seqNo`. */
  lemma ProbeMiss(t: Table, natural: u64 -> nat, cut: nat, where_: map<u64, nat>,
                  contents: map<u64, Packet>, seqNo: u64, probes: nat)
    requires WellPlaced(t, natural, cut) && Indexed(t, where_, contents)
    requires natural(seqNo) < |t| && probes <= |t| && Probed(t, natural(seqNo), seqNo, probes)
    requires probes == |t| || t[Wrap(natural(seqNo) + probes, |t|)].Free?
    ensures seqNo !in contents
  {
    hide Wrap, ProbeDistance;
    hide PathUsed, Pos;
    if seqNo in contents {
      var j := where_[seqNo];
      var h := natural(seqNo);
      assert Placed(t, natural, cut, j);
      DistanceIsPos(|t|, cut, h, j);
      if probes < |t| {
        var x := Wrap(h + probes, |t|);
        assert ProbeDistance(h, x, |t|) == probes;
        if probes <= ProbeDistance(h, j, |t|) { OnPath(t, cut, h, j, x); }
      }
    }
  }

  lemma DistanceIsPos(n: nat, cut: nat, h: nat, j: nat)
    requires cut < n && h < n && j < n && Pos(n, cut, h) <= Pos(n, cut, j)
    ensures ProbeDistance(h, j, n) == Pos(n, cut, j) - Pos(n, cut, h)
  {
    hide Wrap, ProbeDistance;
  }

  lemma OnPath(t: Table, cut: nat, h: nat, j: nat, x: nat)
    requires cut < |t| && h < |t| && j < |t| && x < |t| && Pos(|t|, cut, h) <= Pos(|t|, cut, j)
    requires PathUsed(t, cut, h, j) && ProbeDistance(h, x, |t|) <= ProbeDistance(h, j, |t|)
    ensures t[x].Used?
  {
    hide Wrap, ProbeDistance;
  }

  lemma ProbedAll(t: Table, h: nat, seqNo: u64)
    requires h < |t| && Probed(t, h, seqNo, |t|)
    ensures forall j :: 0 <= j < |t| ==> t[j].Used?
  {
  }

  /** Filling the free slot that the probe for `p` ended on keeps every entry placed. */
  lemma InsertPlaced(t: Table, natural: u64 -> nat, x: nat, p: Packet, probes: nat)
    requires x < |t| && t[x].Free? && WellPlaced(t, natural, x)
    requires natural(p.seqNo) < |t| && probes < |t| && x == Wrap(natural(p.seqNo) + probes, |t|)
    requires Probed(t, natural(p.seqNo), p.seqNo, probes)
    ensures WellPlaced(t[x := Used(p)], natural, x)
  {
    var t' := t[x := Used(p)];
    forall j | 0 <= j < |t'| && t'[j].Used? ensures Placed(t', natural, x, j) {
      if j != x {
        assert Placed(t, natural, x, j);
      }
    }
  }

  lemma InsertIndexed(t: Table, where_: map<u64, nat>, contents: map<u64, Packet>, x: nat, p: Packet)
    requires Indexed(t, where_, contents) && x < |t| && t[x].Free? && p.seqNo !in contents
    ensures Indexed(t[x := Used(p)], where_[p.seqNo := x], contents[p.seqNo := p])
  {
  }

  /** Everything but the gap is indexed. */
  ghost predicate GapIndexed(t: Table, at: map<u64, nat>, rest: map<u64, Packet>, gap: nat) {
    && gap < |t| && t[gap].Used?
    && at.Keys == rest.Keys
    && (forall s :: s in rest ==>
         at[s] < |t| && at[s] != gap && t[at[s]] == Used(rest[s]) && rest[s].seqNo == s)
    && (forall j :: 0 <= j < |t| && t[j].Used? && j != gap ==>
         t[j].packet.seqNo in at && at[t[j].packet.seqNo] == j)
  }

  /** The state of a backward shift that erased slot `e`, has examined the `k` slots after it and
      currently has its gap at `gap`: everything but the gap is placed, and no examined entry
      behind the gap could still move into it. */
  ghost predicate Shifted(t: Table, natural: u64 -> nat, cut: nat, e: nat, gap: nat, k: nat) {
    && cut < |t| && e < |t| && gap < |t| && k < |t| && t[gap].Used?
    && (forall j :: 0 <= j < |t| && t[j].Used? && j != gap ==> Placed(t, natural, cut, j))
    && Pos(|t|, cut, e) <= Pos(|t|, cut, gap) <= Pos(|t|, cut, e) + k
    && forall j :: 0 <= j < |t| && t[j].Used? && Pos(|t|, cut, gap) < Pos(|t|, cut, j) <= Pos(|t|, cut, e) + k ==>
         BehindGap(t, natural, cut, gap, j)
  }

  ghost predicate BehindGap(t: Table, natural: u64 -> nat, cut: nat, gap: nat, j: nat)
    requires cut < |t| && gap < |t| && j < |t| && t[j].Used?
  {
    var h := natural(t[j].packet.seqNo);
    h < |t| && Pos(|t|, cut, gap) < Pos(|t|, cut, h)
  }

  lemma ShiftStart(t: Table, natural: u64 -> nat, cut: nat, where_: map<u64, nat>,
                   contents: map<u64, Packet>, seqNo: u64)
    requires WellPlaced(t, natural, cut) && Indexed(t, where_, contents) && seqNo in contents
    ensures Shifted(t, natural, cut, where_[seqNo], where_[seqNo], 0)
    ensures GapIndexed(t, where_ - {seqNo}, contents - {seqNo}, where_[seqNo])
  {
    hide Placed, GapIndexed;
    StartIndexed(t, where_, contents, seqNo);
  }

  lemma StartIndexed(t: Table, where_: map<u64, nat>, contents: map<u64, Packet>, seqNo: u64)
    requires Indexed(t, where_, contents) && seqNo in contents
    ensures GapIndexed(t, where_ - {seqNo}, contents - {seqNo}, where_[seqNo])
  {
  }

  /** An entry's probe distance shrinks by moving to the gap exactly when the gap is on its path. */
  lemma MoveTest(n: nat, cut: nat, h: nat, gap: nat, slot: nat)
    requires cut < n && h < n && gap < n && slot < n && Pos(n, cut, h) <= Pos(n, cut, slot)
    ensures ProbeDistance(h, gap, n) < ProbeDistance(h, slot, n) <==>
            Pos(n, cut, h) <= Pos(n, cut, gap) < Pos(n, cut, slot)
  {
    hide Wrap, ProbeDistance;
  }

  lemma ShiftKeep(t: Table, natural: u64 -> nat, cut: nat, e: nat, gap: nat, k: nat, slot: nat)
    requires Shifted(t, natural, cut, e, gap, k) && k + 1 < |t|
    requires slot == Wrap(e + 1 + k, |t|) && t[slot].Used? && slot != gap
    requires var h := natural(t[slot].packet.seqNo);
             h < |t| && ProbeDistance(h, gap, |t|) >= ProbeDistance(h, slot, |t|)
    ensures Shifted(t, natural, cut, e, gap, k + 1)
  {
    hide Wrap, ProbeDistance, PathUsed;
    assert Placed(t, natural, cut, slot);
    MoveTest(|t|, cut, natural(t[slot].packet.seqNo), gap, slot);
    forall j | 0 <= j < |t| && t[j].Used? && Pos(|t|, cut, gap) < Pos(|t|, cut, j) <= Pos(|t|, cut, e) + k + 1
      ensures BehindGap(t, natural, cut, gap, j)
    {
      if Pos(|t|, cut, j) == Pos(|t|, cut, e) + k + 1 { assert j == slot; }
    }
  }

  /** Moving an entry to an earlier used slot of its own path keeps everything else placed. */
  lemma MovePlaced(t: Table, natural: u64 -> nat, cut: nat, gap: nat, slot: nat, j: nat)
    requires cut < |t| && gap < |t| && slot < |t| && j < |t| && t[gap].Used? && t[slot].Used?
    requires Placed(t, natural, cut, slot)
    requires Pos(|t|, cut, natural(t[slot].packet.seqNo)) <= Pos(|t|, cut, gap) < Pos(|t|, cut, slot)
    requires t[j].Used? && (j == gap || Placed(t, natural, cut, j))
    ensures Placed(t[gap := t[slot]], natural, cut, j)
  {
  }

  lemma ShiftMove(t: Table, natural: u64 -> nat, cut: nat, e: nat, gap: nat, k: nat, slot: nat)
    requires Shifted(t, natural, cut, e, gap, k) && k + 1 < |t|
    requires slot == Wrap(e + 1 + k, |t|) && t[slot].Used? && slot != gap
    requires var h := natural(t[slot].packet.seqNo);
             h < |t| && ProbeDistance(h, gap, |t|) < ProbeDistance(h, slot, |t|)
    ensures Shifted(t[gap := t[slot]], natural, cut, e, slot, k + 1)
  {
    hide Wrap, ProbeDistance, PathUsed;
    var t' := t[gap := t[slot]];
    assert Placed(t, natural, cut, slot);
    MoveTest(|t|, cut, natural(t[slot].packet.seqNo), gap, slot);
    forall j | 0 <= j < |t'| && t'[j].Used? && j != slot ensures Placed(t', natural, cut, j) {
      MovePlaced(t, natural, cut, gap, slot, j);
    }
    assert Pos(|t|, cut, slot) == Pos(|t|, cut, e) + k + 1;
  }

  lemma MoveIndexed(t: Table, at: map<u64, nat>, rest: map<u64, Packet>, gap: nat, slot: nat)
    requires GapIndexed(t, at, rest, gap) && slot < |t| && t[slot].Used? && slot != gap
    ensures GapIndexed(t[gap := t[slot]], at[t[slot].packet.seqNo := gap], rest, slot)
  {
  }

  lemma ShiftEnd(t: Table, natural: u64 -> nat, cut: nat, e: nat, gap: nat, k: nat)
    requires Shifted(t, natural, cut, e, gap, k)
    requires k + 1 == |t| || t[Wrap(e + 1 + k, |t|)].Free?
    ensures WellPlaced(t[gap := Free], natural, cut)
  {
    hide Wrap;
    var n := |t|;
    forall j | 0 <= j < n && t[j].Used? && j != gap ensures Placed(t[gap := Free], natural, cut, j) {
      assert Placed(t, natural, cut, j);
      GapOffPath(t, natural, cut, e, gap, k, j);
    }
  }

  /** When the shift ends, no entry's path runs over the gap. */
  lemma GapOffPath(t: Table, natural: u64 -> nat, cut: nat, e: nat, gap: nat, k: nat, j: nat)
    requires Shifted(t, natural, cut, e, gap, k)
    requires k + 1 == |t| || t[Wrap(e + 1 + k, |t|)].Free?
    requires j < |t| && t[j].Used? && j != gap
    ensures var h := natural(t[j].packet.seqNo);
            h < |t| && !(Pos(|t|, cut, h) <= Pos(|t|, cut, gap) <= Pos(|t|, cut, j))
  {
    hide Wrap;
    var n := |t|;
    assert Placed(t, natural, cut, j);
    if Pos(n, cut, gap) <= Pos(n, cut, j) {
      assert Pos(n, cut, gap) != Pos(n, cut, j);
      if Pos(n, cut, j) <= Pos(n, cut, e) + k {
        assert BehindGap(t, natural, cut, gap, j);
      } else {
        var x := Wrap(e + 1 + k, n);
        assert Pos(n, cut, x) == Pos(n, cut, e) + 1 + k;
        assert t[x].Free?;
      }
    }
  }

  lemma EndIndexed(t: Table, at: map<u64, nat>, rest: map<u64, Packet>, gap: nat)
    requires GapIndexed(t, at, rest, gap)
    ensures Indexed(t[gap := Free], at, rest)
  {
  }

  /** The table the backward shift leaves that has its gap at `gap` and has examined `k` slots. */
  function ShiftedTable(t: Table, natural: u64 -> nat, e: nat, gap: nat, k: nat): (r: Table)
    requires e < |t| && gap < |t| && k < |t| && forall s: u64 :: natural(s) < |t|
    ensures |r| == |t|
    decreases |t| - k
  {
    var slot := Wrap(e + 1 + k, |t|);
    if k + 1 == |t| || t[slot].Free? then t[gap := Free]
    else
      var home := natural(t[slot].packet.seqNo);
      if ProbeDistance(home, gap, |t|) < ProbeDistance(home, slot, |t|) then
        ShiftedTable(t[gap := t[slot]], natural, e, slot, k + 1)
      else ShiftedTable(t, natural, e, gap, k + 1)
  }

  /** Every slot from an entry's natural slot to the slot it is in is used. */
  ghost predicate PathsUsed(t: Table, natural: u64 -> nat)
    requires forall s: u64 :: natural(s) < |t|
  {
    forall j, i :: 0 <= j < |t| && t[j].Used? && 0 <= i < |t| &&
                   ProbeDistance(natural(t[j].packet.seqNo), i, |t|) <=
                   ProbeDistance(natural(t[j].packet.seqNo), j, |t|) ==>
                     t[i].Used?
  }

  /** One round of the shift. */
  lemma ShiftRound(t: Table, natural: u64 -> nat, e: nat, gap: nat, k: nat)
    requires e < |t| && gap < |t| && k < |t| && forall s: u64 :: natural(s) < |t|
    ensures var slot := Wrap(e + 1 + k, |t|);
            ShiftedTable(t, natural, e, gap, k) ==
            if k + 1 == |t| || t[slot].Free? then t[gap := Free]
            else if ProbeDistance(natural(t[slot].packet.seqNo), gap, |t|) <
                    ProbeDistance(natural(t[slot].packet.seqNo), slot, |t|)
            then ShiftedTable(t[gap := t[slot]], natural, e, slot, k + 1)
            else ShiftedTable(t, natural, e, gap, k + 1)
  {
  }

  /** A full ring of three: the packets 0, 1, 2 in the slots 0, 1, 2, with homes 1, 2, 0. */
  function RingHome(): (f: u64 -> nat)
    ensures f(0) == 1 && f(1) == 2 && f(2) == 0 && forall s: u64 :: f(s) < 3
  {
    (s: u64) => if s == 0 then 1 else if s == 1 then 2 else 0
  }

  function Ring(): (t: Table)
    ensures |t| == 3 && forall j: nat :: j < 3 ==> t[j].Used? && t[j].packet.seqNo == j
  {
    [Used(Packet(0, 1, [])), Used(Packet(1, 1, [])), Used(Packet(2, 1, []))]
  }

  /** The bare path rule is not enough: it holds of this ring, and erasing slot 0 leaves packet 1
      behind the free slot at which every search for it starts and ends. */
  lemma PathsUsedIsNotEnough()
    ensures PathsUsed(Ring(), RingHome())
    ensures var t := ShiftedTable(Ring(), RingHome(), 0, 0, 0); t[0] == Ring()[1] && t[RingHome()(1)].Free?
  {
    hide ShiftedTable, Ring;
    var t, home := Ring(), RingHome();
    ShiftRound(t, home, 0, 0, 0);
    var t1 := t[0 := t[1]];
    ShiftRound(t1, home, 0, 1, 1);
    var t2 := t1[1 := t1[2]];
    ShiftRound(t2, home, 0, 2, 2);
  }

  /** What inserting `p` into a buffer that stores `contents` does. */
  function InsertOutcome(contents: map<u64, Packet>, capacity: nat, p: Packet): InsertResult {
    if |p.data| > MAX_PACKET_SIZE then InvalidPacket
    else if p.seqNo in contents then
      if contents[p.seqNo] == p then DuplicateIdentical else ConflictingDuplicate
    else if |contents| < capacity then Inserted
    else CapacityExceeded
  }

  class GapBuffer {
    const capacity: nat
    const hash: u64 -> nat
    const slots: array<Slot>
    var size: nat
    // What the buffer stores, by sequence number.
    ghost var contents: map<u64, Packet>
    ghost var where_: map<u64, nat>
    ghost var cut: nat

    function Natural(seqNo: u64): (r: nat)
      requires capacity > 0
      ensures r < capacity
    {
      hash(seqNo) % capacity
    }

    ghost function NaturalSlots(): u64 -> nat
      requires capacity > 0
    {
      (s: u64) => Natural(s)
    }

    ghost predicate Valid()
      reads this, slots
    {
      && slots.Length == capacity && capacity > 0
      && WellPlaced(slots[..], NaturalSlots(), cut)
      && Indexed(slots[..], where_, contents)
      && size == |contents|
    }

    constructor (capacity: nat, hash: u64 -> nat)
      requires capacity > 0
      ensures Valid() && fresh(slots) && contents == map[] && this.capacity == capacity
    {
      this.capacity := capacity;
      this.hash := hash;
      slots := new Slot[capacity](_ => Free);
      size := 0;
      contents, where_, cut := map[], map[], 0;
    }

    predicate Empty()
      requires Valid()
      reads this, slots
      ensures Empty() <==> contents == map[]
    {
      size == 0
    }

    /** Fills the free slot `x` that the probe for `p` ended on. */
    method Place(x: nat, p: Packet, ghost probes: nat)
      requires Valid() && x < capacity && slots[x].Free? && probes < capacity
      requires p.seqNo !in contents
      requires x == Wrap(Natural(p.seqNo) + probes, capacity)
      requires Probed(slots[..], Natural(p.seqNo), p.seqNo, probes)
      modifies this, slots
      ensures Valid() && contents == old(contents)[p.seqNo := p]
    {
      hide Probed, Wrap, Natural, WellPlaced, Indexed;
      ghost var t := slots[..];
      Recut(t, NaturalSlots(), cut, x);
      InsertPlaced(t, NaturalSlots(), x, p, probes);
      InsertIndexed(t, where_, contents, x, p);
      slots[x] := Used(p);
      assert slots[..] == t[x := Used(p)];
      size := size + 1;
      contents, where_, cut := contents[p.seqNo := p], where_[p.seqNo := x], x;
    }

    /** The probe loop that insert, find and erase share: it stops at the slot of `seqNo`, at the
        first free slot, or after the whole ring. */
    method Probe(seqNo: u64) returns (probes: nat, found: Option<Packet>)
      requires Valid()
      ensures found == if seqNo in contents then Some(contents[seqNo]) else None
      ensures probes <= capacity
      ensures found.Some? ==> probes < capacity && Wrap(Natural(seqNo) + probes, capacity) == where_[seqNo]
      ensures found.None? ==> Probed(slots[..], Natural(seqNo), seqNo, probes)
      ensures found.None? && probes < capacity ==> slots[Wrap(Natural(seqNo) + probes, capacity)].Free?
      ensures found.None? ==> (probes < capacity <==> |contents| < capacity)
    {
      hide WellPlaced, Probed, Wrap, Natural, Indexed;
      var start := Natural(seqNo);
      ghost var t := slots[..];
      FullMeansAllUsed(t, where_, contents);
      NothingProbed(t, start, seqNo);
      probes := 0;
      while probes < capacity
        invariant probes <= capacity && Probed(t, start, seqNo, probes)
      {
        var slot := slots[Wrap(start + probes, capacity)];
        assert slot == t[Wrap(start + probes, capacity)];
        if slot.Free? {
          ProbeMiss(t, NaturalSlots(), cut, where_, contents, seqNo, probes);
          return probes, None;
        }
        if slot.packet.seqNo == seqNo {
          Stored(t, where_, contents, Wrap(start + probes, capacity));
          return probes, Some(slot.packet);
        }
        ProbedNext(t, start, seqNo, probes);
        probes := probes + 1;
      }
      ProbeMiss(t, NaturalSlots(), cut, where_, contents, seqNo, probes);
      ProbedAll(t, start, seqNo);
      return probes, None;
    }

    method Insert(data: seq<byte>, seqNo: u64, msgCount: u16) returns (r: InsertResult)
      requires Valid()
      modifies this, slots
      ensures Valid()
      ensures r == InsertOutcome(old(contents), capacity, Packet(seqNo, msgCount, data))
      ensures contents == if r == Inserted then old(contents)[seqNo := Packet(seqNo, msgCount, data)]
                          else old(contents)
    {
      hide WellPlaced, Probed, Wrap, Natural, Indexed;
      if |data| > MAX_PACKET_SIZE {
        return InvalidPacket;
      }
      var p := Packet(seqNo, msgCount, data);
      var probes, found := Probe(seqNo);
      if found.Some? {
        assert found.value.seqNo == seqNo by { KeyedBySequence(slots[..], where_, contents); }
        if |found.value.data| != |data| || found.value.msgCount != msgCount || found.value.data != data {
          return ConflictingDuplicate;
        }
        return DuplicateIdentical;
      }
      if probes == capacity {
        return CapacityExceeded;
      }
      Place(Wrap(Natural(seqNo) + probes, capacity), p, probes);
      return Inserted;
    }

    method Find(seqNo: u64) returns (r: Option<Packet>)
      requires Valid()
      ensures r == if seqNo in contents then Some(contents[seqNo]) else None
    {
      var _, found := Probe(seqNo);
      return found;
    }

    method Erase(seqNo: u64)
      requires Valid()
      modifies this, slots
      ensures Valid() && contents == old(contents) - {seqNo}
    {
      hide WellPlaced, Probed, Wrap, Natural;
      var probes, found := Probe(seqNo);
      if found.Some? {
        EraseAt(Wrap(Natural(seqNo) + probes, capacity), seqNo);
      }
    }

    /** Backward shift: every later entry of the run that may move into the gap does, and the
        last gap becomes free. */
    method EraseAt(eraseSlot: nat, ghost seqNo: u64)
      requires Valid() && seqNo in contents && where_[seqNo] == eraseSlot && eraseSlot < capacity
      modifies this, slots
      ensures Valid() && contents == old(contents) - {seqNo}
      ensures slots[..] == ShiftedTable(old(slots[..]), NaturalSlots(), eraseSlot, eraseSlot, 0)
    {
      hide WellPlaced, Wrap, Natural, Indexed, ProbeDistance, Shifted, GapIndexed, ShiftedTable;
      var gap: nat := eraseSlot;
      var slot: nat := Wrap(gap + 1, capacity);
      ghost var natural := NaturalSlots();
      ghost var rest: map<u64, Packet> := contents - {seqNo};
      ghost var at: map<u64, nat> := where_ - {seqNo};
      var scanned := 0;
      ShiftStart(slots[..], natural, cut, where_, contents, seqNo);
      while scanned + 1 < capacity
        invariant scanned < capacity && slot == Wrap(eraseSlot + 1 + scanned, capacity)
        invariant gap < capacity
        invariant Shifted(slots[..], natural, cut, eraseSlot, gap, scanned)
        invariant GapIndexed(slots[..], at, rest, gap)
        invariant ShiftedTable(slots[..], natural, eraseSlot, gap, scanned) ==
                  ShiftedTable(old(slots[..]), natural, eraseSlot, eraseSlot, 0)
        modifies slots
      {
        var entry := slots[slot];
        if entry.Free? {
          break;
        }
        ghost var t := slots[..];
        ShiftRound(t, natural, eraseSlot, gap, scanned);
        var home := Natural(entry.packet.seqNo);
        SlotNotGap(t, natural, cut, eraseSlot, gap, scanned);
        if ProbeDistance(home, gap, capacity) < ProbeDistance(home, slot, capacity) {
          ShiftMove(t, natural, cut, eraseSlot, gap, scanned, slot);
          MoveIndexed(t, at, rest, gap, slot);
          slots[gap] := entry;
          assert slots[..] == t[gap := entry];
          at := at[entry.packet.seqNo := gap];
          gap := slot;
        } else {
          ShiftKeep(t, natural, cut, eraseSlot, gap, scanned, slot);
        }
        slot := Wrap(slot + 1, capacity);
        scanned := scanned + 1;
      }
      ShiftRound(slots[..], natural, eraseSlot, gap, scanned);
      ShiftEnd(slots[..], natural, cut, eraseSlot, gap, scanned);
      EndIndexed(slots[..], at, rest, gap);
      Release(gap, at, rest);
    }

    /** Frees the final gap. */
    method Release(gap: nat, ghost at: map<u64, nat>, ghost rest: map<u64, Packet>)
      requires slots.Length == capacity > gap && size == |rest| + 1
      requires WellPlaced(slots[..][gap := Free], NaturalSlots(), cut)
      requires Indexed(slots[..][gap := Free], at, rest)
      modifies this, slots
      ensures Valid() && contents == rest && slots[..] == old(slots[..])[gap := Free]
    {
      hide WellPlaced, Indexed, Natural;
      ghost var t := slots[..];
      slots[gap] := Free;
      assert slots[..] == t[gap := Free];
      size := size - 1;
      contents, where_ := rest, at;
    }
  }

  lemma SlotNotGap(t: Table, natural: u64 -> nat, cut: nat, e: nat, gap: nat, k: nat)
    requires Shifted(t, natural, cut, e, gap, k) && k + 1 < |t|
    ensures Wrap(e + 1 + k, |t|) != gap
  {
    hide Wrap, PathUsed;
  }

  lemma KeyedBySequence(t: Table, where_: map<u64, nat>, contents: map<u64, Packet>)
    requires Indexed(t, where_, contents)
    ensures forall s :: s in contents ==> contents[s].seqNo == s
  {
  }

  lemma Stored(t: Table, where_: map<u64, nat>, contents: map<u64, Packet>, x: nat)
    requires Indexed(t, where_, contents) && x < |t| && t[x].Used?
    ensures t[x].packet.seqNo in contents && contents[t[x].packet.seqNo] == t[x].packet
    ensures where_[t[x].packet.seqNo] == x
  {
  }

  lemma NothingProbed(t: Table, h: nat, seqNo: u64)
    requires h < |t|
    ensures Probed(t, h, seqNo, 0)
  {
  }
}
