/** The stock directory: entries addressed by stock locate, and an insert-only hash index from
    ticker to locate. */
module StockDirectory {
  import opened Types
  import opened FiniteSets
  import GB = GapBuffer

  const LOCATES: nat := 0x1_0000
  const INDEX_CAPACITY: nat := 0x2_0000
  const INVALID_LOCATE: u16 := 0

  type Ticker = seq<byte>

  /** `ticker` is the fixed nine-byte field; the other fields are carried along. */
  datatype Entry = Entry(
    roundLotSize: u32, locate: u16, ticker: seq<byte>, marketCategory: byte, finStatus: byte,
    isTest: bool, roundLotsOnly: bool, issueClassification: byte)

  const BLANK: Entry := Entry(0, 0, [0, 0, 0, 0, 0, 0, 0, 0, 0], 0, 0, false, false, 0)

  /** The text of a ticker field: at most eight bytes, up to the first NUL. */
  function TickerView(t: seq<byte>, from: nat := 0): (r: Ticker)
    requires |t| == 9 && from <= 8
    ensures |r| <= 8 - from && r == t[from..from + |r|]
    ensures forall i :: 0 <= i < |r| ==> r[i] != 0
    ensures |r| < 8 - from ==> t[from + |r|] == 0
    decreases 8 - from
  {
    if from == 8 || t[from] == 0 then [] else [t[from]] + TickerView(t, from + 1)
  }

  /** The field rewritten with nothing but zeros after its text. */
  function Canonical(locate: u16, e: Entry): (r: Entry)
    requires |e.ticker| == 9
    ensures |r.ticker| == 9 && TickerView(r.ticker) == TickerView(e.ticker)
    ensures r == e.(ticker := r.ticker, locate := locate)
  {
    var v := TickerView(e.ticker);
    var t := v + seq(9 - |v|, _ => 0);
    ViewOfPadded(v, t, 0);
    e.(ticker := t, locate := locate)
  }

  lemma {:induction false} ViewOfPadded(v: Ticker, t: seq<byte>, from: nat)
    requires |t| == 9 && |v| <= 8 && from <= |v| && v <= t
    requires forall i :: 0 <= i < |v| ==> v[i] != 0
    requires t[|v|] == 0
    ensures TickerView(t, from) == v[from..]
    decreases |v| - from
  {
    if from < |v| {
      ViewOfPadded(v, t, from + 1);
      assert v[from..] == [v[from]] + v[from + 1..];
    }
  }

  // ----- The index ----------------------------------------------------------------------

  type Index = seq<u16>

  /** Every slot from a ticker's natural slot to the slot of its locate is taken. */
  ghost predicate Reachable(index: Index, h: nat, j: nat)
    requires h < |index| && j < |index|
  {
    forall i :: 0 <= i < |index| && GB.ProbeDistance(h, i, |index|) <= GB.ProbeDistance(h, j, |index|) ==> index[i] != 0
  }

  ghost predicate Indexed(index: Index, entries: seq<Entry>, names: map<u16, Ticker>, slotOf: map<u16, nat>,
                          natural: Ticker -> nat) {
    && |index| == INDEX_CAPACITY && |entries| == LOCATES
    && slotOf.Keys == names.Keys && INVALID_LOCATE !in names
    && (forall l: u16 :: |entries[l].ticker| == 9)
    && (forall l: u16 :: l in names <==> l != 0 && TickerView(entries[l].ticker) != [])
    && (forall l :: l in names ==>
         && names[l] == TickerView(entries[l].ticker)
         && slotOf[l] < |index| && index[slotOf[l]] == l
         && natural(names[l]) < |index| && Reachable(index, natural(names[l]), slotOf[l]))
    && (forall j :: 0 <= j < |index| && index[j] != 0 ==> index[j] in slotOf && slotOf[index[j]] == j)
    && (forall l, m :: l in names && m in names && names[l] == names[m] ==> l == m)
  }

  lemma NamesBound(index: Index, entries: seq<Entry>, names: map<u16, Ticker>, slotOf: map<u16, nat>,
                   natural: Ticker -> nat)
    requires Indexed(index, entries, names, slotOf, natural)
    ensures |names| < LOCATES && |slotOf| == |names|
  {
    hide TickerView, Reachable, GB.ProbeDistance;
    BoundedSize(names.Keys, LOCATES, 0);
    assert |slotOf.Keys| == |names.Keys|;
  }

  /** Fewer locates than index slots: a free slot always exists. */
  lemma FreeSlotExists(index: Index, entries: seq<Entry>, names: map<u16, Ticker>, slotOf: map<u16, nat>,
                       natural: Ticker -> nat)
    requires Indexed(index, entries, names, slotOf, natural)
    ensures exists j :: 0 <= j < |index| && index[j] == 0
  {
    hide TickerView, Reachable, GB.ProbeDistance;
    NamesBound(index, entries, names, slotOf, natural);
    if forall j :: 0 <= j < |index| ==> index[j] != 0 {
      AllUsed(index, slotOf);
    }
  }

  lemma AllUsed(index: Index, slotOf: map<u16, nat>)
    requires forall j :: 0 <= j < |index| ==> index[j] in slotOf && slotOf[index[j]] == j
    ensures |index| <= |slotOf|
  {
    ValuesBound(slotOf);
    assert Range(|index|) <= slotOf.Values by {
      forall j | j in Range(|index|) ensures j in slotOf.Values { assert index[j] in slotOf; }
    }
    SubsetSize(Range(|index|), slotOf.Values);
  }

  lemma {:induction false} ValuesBound(m: map<u16, nat>)
    ensures |m.Values| <= |m.Keys|
  {
    if m.Keys == {} {
      assert m.Values == {};
    } else {
      var k :| k in m.Keys;
      var rest := m - {k};
      ValuesBound(rest);
      assert rest.Keys == m.Keys - {k};
      assert m.Values <= rest.Values + {m[k]} by {
        forall v | v in m.Values ensures v in rest.Values + {m[k]} {
          var x :| x in m && m[x] == v;
          if x != k { assert x in rest && rest[x] == v; }
        }
      }
      SubsetSize(m.Values, rest.Values + {m[k]});
    }
  }

  /** The first `probes` slots from `h` on are taken. */
  ghost predicate Run(index: Index, h: nat, probes: nat)
    requires h < |index|
  {
    forall i :: 0 <= i < |index| && GB.ProbeDistance(h, i, |index|) < probes ==> index[i] != 0
  }

  lemma RunStart(index: Index, h: nat)
    requires h < |index|
    ensures Run(index, h, 0)
    ensures Run(index, h, |index|) ==> forall j :: 0 <= j < |index| ==> index[j] != 0
  {
    hide GB.Wrap, GB.ProbeDistance;
  }

  lemma RunNext(index: Index, h: nat, probes: nat)
    requires h < |index| && probes < |index| && Run(index, h, probes) && index[GB.Wrap(h + probes, |index|)] != 0
    ensures Run(index, h, probes + 1)
  {
    hide GB.Wrap, GB.ProbeDistance;
  }

  /** The first `probes` slots from `h` on are taken, none of them by `ticker`. */
  ghost predicate Probed(index: Index, entries: seq<Entry>, h: nat, ticker: Ticker, probes: nat)
    requires h < |index| && |entries| == LOCATES && forall l: u16 :: |entries[l].ticker| == 9
  {
    forall i :: 0 <= i < |index| && GB.ProbeDistance(h, i, |index|) < probes ==>
      index[i] != 0 && TickerView(entries[index[i]].ticker) != ticker
  }

  lemma ProbedNext(index: Index, entries: seq<Entry>, h: nat, ticker: Ticker, probes: nat)
    requires h < |index| && |entries| == LOCATES && forall l: u16 :: |entries[l].ticker| == 9
    requires Probed(index, entries, h, ticker, probes) && probes < |index|
    requires var l := index[GB.Wrap(h + probes, |index|)]; l != 0 && TickerView(entries[l].ticker) != ticker
    ensures Probed(index, entries, h, ticker, probes + 1)
  {
    hide TickerView, GB.Wrap, GB.ProbeDistance;
  }

  lemma ProbeMiss(index: Index, entries: seq<Entry>, names: map<u16, Ticker>, slotOf: map<u16, nat>,
                  natural: Ticker -> nat,
                  ticker: Ticker, probes: nat)
    requires Indexed(index, entries, names, slotOf, natural) && natural(ticker) < |index| && probes < |index|
    requires Probed(index, entries, natural(ticker), ticker, probes)
    requires index[GB.Wrap(natural(ticker) + probes, |index|)] == 0
    ensures forall l :: l in names ==> names[l] != ticker
  {
    hide TickerView, GB.Wrap, GB.ProbeDistance;
    var h := natural(ticker);
    var x := GB.Wrap(h + probes, |index|);
    assert GB.ProbeDistance(h, x, |index|) == probes;
  }

  lemma FilledReachable(index: Index, h: nat, probes: nat, l: u16)
    requires h < |index| && probes < |index| && Run(index, h, probes) && l != 0
    ensures var x := GB.Wrap(h + probes, |index|); Reachable(index[x := l], h, x)
  {
    hide GB.Wrap, GB.ProbeDistance;
  }

  lemma StillReachable(index: Index, h: nat, j: nat, x: nat, l: u16)
    requires h < |index| && j < |index| && x < |index| && Reachable(index, h, j) && l != 0
    ensures Reachable(index[x := l], h, j)
  {
  }

  /** Filling the free slot a probe ended on registers the ticker. */
  lemma RegisterIndexed(index: Index, entries: seq<Entry>, names: map<u16, Ticker>, slotOf: map<u16, nat>,
                        natural: Ticker -> nat,
                        l: u16, e: Entry, probes: nat)
    requires Indexed(index, entries, names, slotOf, natural) && l != 0 && l !in names && |e.ticker| == 9
    requires TickerView(e.ticker) != [] && natural(TickerView(e.ticker)) < |index| && probes < |index|
    requires forall m :: m in names ==> names[m] != TickerView(e.ticker)
    requires Run(index, natural(TickerView(e.ticker)), probes)
    requires index[GB.Wrap(natural(TickerView(e.ticker)) + probes, |index|)] == 0
    ensures var x := GB.Wrap(natural(TickerView(e.ticker)) + probes, |index|);
            Indexed(index[x := l], entries[l := e], names[l := TickerView(e.ticker)], slotOf[l := x], natural)
  {
    hide TickerView, GB.Wrap, GB.ProbeDistance, Reachable, Run;
    var h := natural(TickerView(e.ticker));
    var x := GB.Wrap(h + probes, |index|);
    FilledReachable(index, h, probes, l);
    forall m | m in names ensures Reachable(index[x := l], natural(names[m]), slotOf[m]) {
      StillReachable(index, natural(names[m]), slotOf[m], x, l);
    }
  }

  lemma RefreshIndexed(index: Index, entries: seq<Entry>, names: map<u16, Ticker>, slotOf: map<u16, nat>,
                       natural: Ticker -> nat,
                       l: u16, e: Entry)
    requires Indexed(index, entries, names, slotOf, natural) && l in names && |e.ticker| == 9 &&
             TickerView(e.ticker) == names[l]
    ensures Indexed(index, entries[l := e], names, slotOf, natural)
  {
    hide TickerView, GB.ProbeDistance, Reachable;
  }

  /** When a registration is accepted. */
  ghost predicate SetAccepts(names: map<u16, Ticker>, locate: u16, t: Ticker) {
    && locate != 0 && t != []
    && if locate in names then names[locate] == t else forall l :: l in names ==> names[l] != t
  }

  class StockDirectory {
    const entries: array<Entry>
    const index: array<u16>
    const hash: Ticker -> nat
    var count: nat
    // The registered tickers, by locate.
    ghost var names: map<u16, Ticker>
    ghost var slotOf: map<u16, nat>

    function Natural(t: Ticker): (r: nat)
      ensures r < INDEX_CAPACITY
    {
      hash(t) % INDEX_CAPACITY
    }

    ghost function NaturalSlots(): Ticker -> nat { (t: Ticker) => Natural(t) }

    ghost predicate Valid()
      reads this, entries, index
    {
      && Indexed(index[..], entries[..], names, slotOf, NaturalSlots())
      && count == |names|
    }

    constructor (hash: Ticker -> nat)
      ensures Valid() && names == map[] && fresh(entries) && fresh(index)
    {
      this.hash := hash;
      entries := new Entry[LOCATES](_ => BLANK);
      index := new u16[INDEX_CAPACITY](_ => 0);
      count := 0;
      names, slotOf := map[], map[];
      new;
      assert TickerView(BLANK.ticker) == [];
    }

    method IsRegistered(locate: u16) returns (r: bool)
      requires Valid()
      ensures r == (locate in names)
    {
      assert |entries[..][locate].ticker| == 9;
      r := locate != INVALID_LOCATE && entries[locate].ticker[0] != 0;
    }

    method Get(locate: u16) returns (r: Option<Entry>)
      requires Valid()
      ensures r.Some? <==> locate in names
      ensures r.Some? ==> |r.value.ticker| == 9 && TickerView(r.value.ticker) == names[locate]
      ensures entries.Length == LOCATES && (r.Some? ==> r.value == entries[locate])
    {
      assert |entries[..][locate].ticker| == 9;
      if locate == INVALID_LOCATE || entries[locate].ticker[0] == 0 {
        return None;
      }
      return Some(entries[locate]);
    }

    /** The locate registered for a ticker, or the invalid locate. */
    method LocateForTicker(ticker: Ticker) returns (r: u16)
      requires Valid()
      ensures r != INVALID_LOCATE ==> r in names && names[r] == ticker
      ensures r == INVALID_LOCATE ==> forall l :: l in names ==> names[l] != ticker
    {
      hide Indexed, Probed, Natural, GB.Wrap, TickerView;
      ghost var natural := NaturalSlots();
      IndexFacts(index[..], entries[..], names, slotOf, natural);
      if ticker == [] {
        return INVALID_LOCATE;
      }
      var h := Natural(ticker);
      var slot := h;
      NothingProbed(index[..], entries[..], h, ticker);
      for probe := 0 to INDEX_CAPACITY
        invariant slot == GB.Wrap(h + probe, INDEX_CAPACITY)
        invariant Probed(index[..], entries[..], h, ticker, probe)
      {
        var locate := index[slot];
        assert index[..][GB.Wrap(h + probe, |index[..]|)] == locate;
        if locate == INVALID_LOCATE {
          ProbeMiss(index[..], entries[..], names, slotOf, natural, ticker, probe);
          return INVALID_LOCATE;
        }
        if TickerView(entries[..][locate].ticker) == ticker {
          SlotOwner(index[..], entries[..], names, slotOf, natural, slot);
          return locate;
        }
        ProbedNext(index[..], entries[..], h, ticker, probe);
        slot := GB.Wrap(slot + 1, INDEX_CAPACITY);
      }
      AllProbed(index[..], entries[..], names, slotOf, natural, h, ticker);
      return INVALID_LOCATE;
    }

    /** The first free index slot for a ticker. */
    method EmptyReverseSlot(ticker: Ticker) returns (slot: nat, ghost probes: nat)
      requires Valid()
      ensures probes < INDEX_CAPACITY && slot == GB.Wrap(Natural(ticker) + probes, INDEX_CAPACITY)
      ensures index[..][slot] == 0 && Run(index[..], Natural(ticker), probes)
    {
      hide Natural, GB.Wrap, Run, Indexed;
      ghost var x := index[..];
      IndexFacts(x, entries[..], names, slotOf, NaturalSlots());
      FreeSlotExists(x, entries[..], names, slotOf, NaturalSlots());
      var h := Natural(ticker);
      RunStart(x, h);
      slot := h;
      for probe := 0 to INDEX_CAPACITY
        invariant slot == GB.Wrap(h + probe, INDEX_CAPACITY) && Run(x, h, probe)
      {
        if index[slot] == 0 {
          return slot, probe;
        }
        RunNext(x, h, probe);
        slot := GB.Wrap(slot + 1, INDEX_CAPACITY);
      }
      assert false;
    }

    /** Registers or refreshes an entry: a locate's ticker never changes and no ticker has two locates. */
    method Set(locate: u16, entry: Entry) returns (ok: bool)
      requires Valid() && |entry.ticker| == 9
      modifies this, entries, index
      ensures Valid() && entries.Length == LOCATES
      ensures var t := TickerView(entry.ticker);
              && ok == SetAccepts(old(names), locate, t)
              && names == if ok then old(names)[locate := t] else old(names)
      ensures entries[..] == if ok then old(entries[..])[locate := Canonical(locate, entry)] else old(entries[..])
    {
      hide Indexed, Natural, GB.Wrap, GB.ProbeDistance, Canonical;
      IndexFacts(index[..], entries[..], names, slotOf, NaturalSlots());
      if locate == INVALID_LOCATE {
        return false;
      }
      var ticker := TickerView(entry.ticker);
      if ticker == [] {
        return false;
      }
      var existing := Get(locate);
      if existing.Some? {
        if TickerView(existing.value.ticker) != ticker {
          return false;
        }
        Refresh(locate, entry);
        return true;
      }
      var registered := LocateForTicker(ticker);
      if registered != INVALID_LOCATE {
        return false;
      }
      Register(locate, entry);
      return true;
    }

    method Refresh(locate: u16, entry: Entry)
      requires Valid() && |entry.ticker| == 9 && locate in names && names[locate] == TickerView(entry.ticker)
      modifies entries
      ensures Valid() && names == old(names) && entries.Length == LOCATES
      ensures entries[..] == old(entries[..])[locate := Canonical(locate, entry)]
    {
      hide Indexed, TickerView, GB.ProbeDistance, Natural, Canonical;
      ghost var e := entries[..];
      IndexFacts(index[..], e, names, slotOf, NaturalSlots());
      RefreshIndexed(index[..], e, names, slotOf, NaturalSlots(), locate, Canonical(locate, entry));
      entries[locate] := Canonical(locate, entry);
      assert entries[..] == e[locate := Canonical(locate, entry)];
    }

    method Register(locate: u16, entry: Entry)
      requires Valid() && |entry.ticker| == 9 && locate != 0 && locate !in names && TickerView(entry.ticker) != []
      requires forall l :: l in names ==> names[l] != TickerView(entry.ticker)
      modifies this, entries, index
      ensures Valid() && names == old(names)[locate := TickerView(entry.ticker)] && entries.Length == LOCATES
      ensures entries[..] == old(entries[..])[locate := Canonical(locate, entry)]
    {
      hide Indexed, TickerView, GB.Wrap, GB.ProbeDistance, Natural;
      ghost var e, x := entries[..], index[..];
      var ticker := TickerView(entry.ticker);
      IndexFacts(x, e, names, slotOf, NaturalSlots());
      var slot, probes := EmptyReverseSlot(ticker);
      assert entries[..] == e && index[..] == x;
      RegisterIndexed(x, e, names, slotOf, NaturalSlots(), locate, Canonical(locate, entry), probes);
      entries[locate] := Canonical(locate, entry);
      index[slot] := locate;
      count := count + 1;
      names, slotOf := names[locate := ticker], slotOf[locate := slot];
      assert entries[..] == e[locate := Canonical(locate, entry)];
      assert index[..] == x[slot := locate];
    }
  }

  lemma IndexFacts(index: Index, entries: seq<Entry>, names: map<u16, Ticker>, slotOf: map<u16, nat>,
                   natural: Ticker -> nat)
    requires Indexed(index, entries, names, slotOf, natural)
    ensures |index| == INDEX_CAPACITY && |entries| == LOCATES
    ensures forall l: u16 :: |entries[l].ticker| == 9
    ensures forall l :: l in names ==> names[l] != []
  {
  }

  lemma NotZero(index: Index, entries: seq<Entry>, names: map<u16, Ticker>, slotOf: map<u16, nat>,
                natural: Ticker -> nat)
    requires Indexed(index, entries, names, slotOf, natural)
    ensures INVALID_LOCATE !in names
  {
  }

  lemma OneLocatePerTicker(index: Index, entries: seq<Entry>, names: map<u16, Ticker>, slotOf: map<u16, nat>,
                           natural: Ticker -> nat)
    requires Indexed(index, entries, names, slotOf, natural)
    ensures forall l, m :: l in names && m in names && names[l] == names[m] ==> l == m
  {
  }

  lemma NothingProbed(index: Index, entries: seq<Entry>, h: nat, ticker: Ticker)
    requires h < |index| && |entries| == LOCATES && forall l: u16 :: |entries[l].ticker| == 9
    ensures Probed(index, entries, h, ticker, 0)
  {
  }

  lemma SlotOwner(index: Index, entries: seq<Entry>, names: map<u16, Ticker>, slotOf: map<u16, nat>,
                  natural: Ticker -> nat, slot: nat)
    requires Indexed(index, entries, names, slotOf, natural) && slot < |index| && index[slot] != 0
    ensures index[slot] in names && names[index[slot]] == TickerView(entries[index[slot]].ticker)
  {
  }

  lemma AllProbed(index: Index, entries: seq<Entry>, names: map<u16, Ticker>, slotOf: map<u16, nat>,
                  natural: Ticker -> nat,
                  h: nat, ticker: Ticker)
    requires Indexed(index, entries, names, slotOf, natural) && h < |index| &&
             Probed(index, entries, h, ticker, |index|)
    ensures forall l :: l in names ==> names[l] != ticker
  {
    hide TickerView, GB.Wrap, GB.ProbeDistance, Reachable;
  }
}
