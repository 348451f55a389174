/** The merge of redundant lines: when all lines send the same packets of one session, the state
    of the channel depends only on which packets have arrived, not on order or repetition. */
module LineMerge {
  import opened Types
  import opened ItchWire
  import opened MoldWire
  import IR = ItchReference
  import opened ReferenceBook
  import opened GapBuffer
  import opened Sequencing
  import opened SequencingRuns

  // ----- What the lines send ------------------------------------------------------------

  datatype Session = Session(name: seq<byte>, initial: u64, packets: seq<Packet>)

  /** The sequence number at which packet `k` starts, or the end of the session. */
  ghost function Edge(x: Session, k: nat): (r: nat)
    requires k <= |x.packets|
  {
    if k == 0 then x.initial else x.packets[k - 1].seqNo + x.packets[k - 1].msgCount
  }

  ghost predicate Sent(x: Session, i: nat)
    requires i < |x.packets|
  {
    var p := x.packets[i];
    && Storable(p) && p.seqNo == Edge(x, i)
    && SessionOf(p.data) == x.name && FirstSequence(p.data) == p.seqNo && MessageCount(p.data) == p.msgCount
  }

  /** The packets tile the sequence numbers from `initial` on. */
  ghost predicate WellSent(x: Session) {
    |x.name| == SESSION_SIZE && forall i :: 0 <= i < |x.packets| ==> Sent(x, i)
  }

  lemma {:induction false} EdgesRise(x: Session, i: nat, j: nat)
    requires WellSent(x) && i <= j <= |x.packets|
    ensures Edge(x, i) <= Edge(x, j) <= U64_MAX && (i < j ==> Edge(x, i) < Edge(x, j))
  {
    hide Unframe;
    if j > 0 { assert Sent(x, j - 1); }
    if i < j { EdgesRise(x, i, j - 1); }
  }

  /** The messages of the first `k` packets. */
  ghost function Feed(x: Session, k: nat): (ms: seq<Message>)
    requires WellSent(x) && k <= |x.packets|
    ensures AllMessages(ms)
  {
    if k == 0 then [] else assert Sent(x, k - 1); Feed(x, k - 1) + MessagesOf(x.packets[k - 1])
  }

  lemma {:induction false} FeedGrows(x: Session, i: nat, j: nat)
    requires WellSent(x) && i <= j <= |x.packets|
    ensures Feed(x, i) <= Feed(x, j) && (i < j ==> |Feed(x, i)| < |Feed(x, j)|)
  {
    hide Unframe, MessagesOf;
    if i < j {
      FeedGrows(x, i, j - 1);
      assert Sent(x, j - 1);
    }
  }

  lemma FeedAccepted(z: Sizes, x: Session, k: nat)
    requires z.Valid() && WellSent(x) && k <= |x.packets| && Accepts(z, Feed(x, |x.packets|))
    ensures Accepts(z, Feed(x, k))
  {
    hide Accepts, Feed;
    FeedGrows(x, k, |x.packets|);
    PrefixAccepted(z, Feed(x, |x.packets|), |Feed(x, k)|);
    assert Feed(x, |x.packets|)[..|Feed(x, k)|] == Feed(x, k);
  }

  // ----- What has arrived ---------------------------------------------------------------

  /** The least packet from `k` on that has not arrived. */
  ghost function FirstMissing(have: set<nat>, n: nat, k: nat): (r: nat)
    requires k <= n
    ensures k <= r <= n && (r < n ==> r !in have) && forall i :: k <= i < r ==> i in have
    decreases n - k
  {
    if k < n && k in have then FirstMissing(have, n, k + 1) else k
  }

  lemma FirstMissingUnique(have: set<nat>, n: nat, k: nat, r: nat)
    requires k <= r <= n && (r < n ==> r !in have) && forall i :: k <= i < r ==> i in have
    ensures FirstMissing(have, n, k) == r
  {
    var m := FirstMissing(have, n, k);
    assert m < r ==> m in have;
    assert r < m ==> r in have;
  }

  /** Where the arrived packets from `k` on start. */
  ghost function Starts(x: Session, have: set<nat>, k: nat): set<u64>
    requires forall i :: i in have ==> i < |x.packets|
  {
    set i | i in have && i >= k :: x.packets[i].seqNo
  }

  ghost predicate Holds(buffer: map<u64, Packet>, x: Session, have: set<nat>, k: nat)
    requires forall i :: i in have ==> i < |x.packets|
  {
    && buffer.Keys == Starts(x, have, k)
    && forall i :: i in have && i >= k ==> buffer[x.packets[i].seqNo] == x.packets[i]
  }

  ghost predicate IsBeat(x: Session, d: seq<byte>) {
    |d| == HEADER_SIZE && SessionOf(d) == x.name && MessageCount(d) == 0 && FirstSequence(d) <= Edge(x, |x.packets|)
  }

  ghost predicate IsEnd(x: Session, d: seq<byte>) {
    && |d| == HEADER_SIZE && SessionOf(d) == x.name
    && MessageCount(d) == END_OF_SESSION && FirstSequence(d) == Edge(x, |x.packets|)
  }

  ghost predicate IsData(x: Session, d: seq<byte>) {
    exists i :: 0 <= i < |x.packets| && x.packets[i].data == d
  }

  ghost function Have(x: Session, ds: seq<seq<byte>>): (have: set<nat>)
    ensures forall i :: i in have ==> i < |x.packets|
  {
    set i: nat | i < |x.packets| && x.packets[i].data in ds
  }

  ghost predicate Marked(x: Session, ds: seq<seq<byte>>) {
    exists i :: 0 <= i < |ds| && IsEnd(x, ds[i])
  }

  /** The packets beyond the first missing one fit the gap buffer. */
  ghost predicate Fits(x: Session, have: set<nat>, capacity: nat)
    requires forall i :: i in have ==> i < |x.packets|
  {
    |Starts(x, have, FirstMissing(have, |x.packets|, 0))| <= capacity
  }

  // ----- The merged state ---------------------------------------------------------------

  ghost function Verdict(z: Sizes, x: Session): DecodeStatus
    requires z.Valid() && WellSent(x)
  {
    if PhaseAfter(z, Feed(x, |x.packets|)) == IR.EndOfMessages then EndOfStream else IncompleteSession
  }

  /** Everything before packet `k` is delivered and the later arrivals are stored. */
  ghost predicate At(c: Channel, x: Session, have: set<nat>, k: nat)
    requires WellSent(x) && k <= |x.packets| && forall i :: i in have ==> i < |x.packets|
  {
    c.next == Edge(x, k) && c.history == Feed(x, k) && Holds(c.buffer, x, have, k)
  }

  /** Still running: nothing was lost, and the marker is pending if it came. */
  ghost predicate Open(c: Channel, x: Session, marked: bool) {
    && c.terminal == Ok && c.health != Stale && c.health != Invalid
    && c.pendingEnd == (if marked then Edge(x, |x.packets|) else 0)
    && c.watermark <= Edge(x, |x.packets|)
  }

  /** The channel as the set of arrivals determines it. */
  ghost predicate Merged(z: Sizes, c: Channel, x: Session, have: set<nat>, marked: bool)
    requires z.Valid() && WellSent(x) && forall i :: i in have ==> i < |x.packets|
  {
    var n := |x.packets|;
    var k := FirstMissing(have, n, 0);
    && At(c, x, have, k)
    && (c.session == None || c.session == Some(x.name))
    && if marked && k == n then c.terminal == Verdict(z, x) else Open(c, x, marked)
  }

  // ----- Draining a tiled session -------------------------------------------------------

  /** The search hits the packet that starts at `next`, if it has arrived, and no other. */
  lemma TiledCandidate(c: Channel, x: Session, have: set<nat>, k: nat)
    requires WellSent(x) && k <= |x.packets| && forall i :: i in have ==> i < |x.packets|
    requires Holds(c.buffer, x, have, k) && c.next == Edge(x, k)
    ensures Candidate(c) == if k in have then Some(c.next) else None
  {
    hide Unframe;
    if k in have {
      assert Sent(x, k);
      assert x.packets[k].seqNo in Starts(x, have, k);
    } else {
      forall s | s in c.buffer ensures s > c.next {
        assert s in Starts(x, have, k);
        var i :| i in have && i >= k && x.packets[i].seqNo == s;
        assert Sent(x, i);
        EdgesRise(x, k, i);
      }
    }
  }

  lemma TiledPull(c: Channel, x: Session, have: set<nat>, k: nat, z: Sizes)
    requires z.Valid() && WellSent(x) && forall i :: i in have ==> i < |x.packets|
    requires Sound(c) && k in have && At(c, x, have, k) && Accepts(z, Feed(x, k + 1))
    requires c.next in c.buffer
    ensures var a := Pull(c, c.next, z); a.status == Ok && At(a.channel, x, have, k + 1)
  {
    hide Unframe, MessagesOf, Accepts, Taken;
    assert Sent(x, k);
    var p := c.buffer[c.next];
    assert p == x.packets[k];
    TakesAll(c.history, MessagesOf(p), z);
    assert MessagesOf(p)[0..] == MessagesOf(p);
    StoredWithout(c.buffer, x, have, k);
  }

  lemma StoredWithout(buffer: map<u64, Packet>, x: Session, have: set<nat>, k: nat)
    requires WellSent(x) && k in have && forall i :: i in have ==> i < |x.packets|
    requires Holds(buffer, x, have, k)
    ensures Holds(buffer - {Edge(x, k)}, x, have, k + 1)
  {
    hide Storable;
    forall i | i in have && i > k ensures x.packets[i].seqNo > Edge(x, k) {
      assert Sent(x, i);
      EdgesRise(x, k, i);
    }
    assert Sent(x, k);
    var rest := buffer - {Edge(x, k)};
    forall s ensures s in rest.Keys <==> s in Starts(x, have, k + 1) {
      if s in rest.Keys {
        assert s in Starts(x, have, k);
      }
      if s in Starts(x, have, k + 1) {
        assert s in Starts(x, have, k);
      }
    }
  }

  lemma {:induction false} TiledDrain(c: Channel, x: Session, have: set<nat>, k: nat, z: Sizes)
    requires z.Valid() && WellSent(x) && k <= |x.packets| && forall i :: i in have ==> i < |x.packets|
    requires Sound(c) && At(c, x, have, k) && Accepts(z, Feed(x, |x.packets|))
    ensures Drain(c, z).status == Ok
    ensures At(Drain(c, z).channel, x, have, FirstMissing(have, |x.packets|, k))
    decreases |x.packets| - k
  {
    hide Sound, Pull, Candidate, Feed, Accepts;
    TiledCandidate(c, x, have, k);
    if k in have {
      FeedAccepted(z, x, k + 1);
      TiledPull(c, x, have, k, z);
      TiledDrain(Pull(c, c.next, z).channel, x, have, k + 1, z);
    }
  }

  // ----- One arrival --------------------------------------------------------------------

  /** The day goes on to the last message: before it, the end of messages has not been reached. */
  lemma NotYetEnded(z: Sizes, x: Session, k: nat)
    requires z.Valid() && WellSent(x) && k < |x.packets| && Accepts(z, Feed(x, |x.packets|))
    ensures PhaseAfter(z, Feed(x, k)) != IR.EndOfMessages
  {
    hide Feed, IR.Replay;
    FeedGrows(x, k, |x.packets|);
    var all, j := Feed(x, |x.packets|), |Feed(x, k)|;
    assert Feed(x, k) == all[..j];
    IR.NothingAfterEnd(z, IR.START_OF_DAY, all, j);
  }

  /** Settling after the drain gives the verdict exactly when the last packet and the marker came. */
  lemma SettledMerges(z: Sizes, c: Channel, x: Session, have: set<nat>, marked: bool, hadGap: bool)
    requires z.Valid() && WellSent(x) && forall i :: i in have ==> i < |x.packets|
    requires Sound(c) && Open(c, x, marked) && c.session == Some(x.name)
    requires At(c, x, have, FirstMissing(have, |x.packets|, 0)) && c.next > x.initial
    ensures Merged(z, Resolved(Settled(c), hadGap, z).channel, x, have, marked)
  {
    hide Storable, Feed, Holds, PhaseAfter;
    var n := |x.packets|;
    var k := FirstMissing(have, n, 0);
    EdgesRise(x, k, n);
    if k == n { StoredNone(c.buffer, x, have); }
  }

  /** Delivering packet `k` and draining what it frees. */
  lemma InOrderMerges(c: Channel, x: Session, have: set<nat>, k: nat, marked: bool, z: Sizes)
    requires z.Valid() && WellSent(x) && k < |x.packets| && forall i :: i in have ==> i < |x.packets|
    requires Sound(c) && Open(c, x, marked) && At(c, x, have, k) && k !in have
    requires Accepts(z, Feed(x, |x.packets|)) && Edge(x, k + 1) <= U64_MAX
    requires k == FirstMissing(have, |x.packets|, 0) && Sent(x, k) && c.session == Some(x.name)
    ensures Merged(z, InOrder(c, Edge(x, k + 1), MessagesOf(x.packets[k]), z).channel, x, have + {k}, marked)
  {
    hide Storable, Drain, Feed, Holds, PhaseAfter, MessagesOf, Resolved, Settled, Merged, Edge, Accepts, Taken;
    var n := |x.packets|;
    var ms := MessagesOf(x.packets[k]);
    var have' := have + {k};
    FeedAccepted(z, x, k + 1);
    assert Feed(x, k + 1) == Feed(x, k) + ms by { FeedStep(x, k); }
    TakesAll(c.history, ms, z);
    var a := Delivered(c, Edge(x, k + 1), ms, z);
    var c1 := if c.health == GapDetected then a.channel.(health := Recovering) else a.channel;
    StoredBeyond(c.buffer, x, have, k);
    TiledDrain(c1, x, have', k + 1, z);
    DrainEnds(c1, z);
    FirstMissingUnique(have', n, 0, FirstMissing(have', n, k + 1));
    EdgesRise(x, 0, k + 1);
    assert Edge(x, 0) == x.initial by { EdgeZero(x); }
    SettledMerges(z, Drain(c1, z).channel, x, have', marked, c1.health == Recovering);
  }

  lemma EdgeZero(x: Session)
    ensures Edge(x, 0) == x.initial
  {
  }

  lemma FeedStep(x: Session, k: nat)
    requires WellSent(x) && k < |x.packets| && Sent(x, k)
    ensures Feed(x, k + 1) == Feed(x, k) + MessagesOf(x.packets[k])
  {
    hide Unframe, MessagesOf;
  }

  lemma StoredBeyond(buffer: map<u64, Packet>, x: Session, have: set<nat>, k: nat)
    requires k < |x.packets| && k !in have && forall i :: i in have ==> i < |x.packets|
    requires Holds(buffer, x, have, k)
    ensures Holds(buffer, x, have + {k}, k + 1)
  {
    assert Starts(x, have, k) == Starts(x, have + {k}, k + 1);
  }

  lemma StoredNone(buffer: map<u64, Packet>, x: Session, have: set<nat>)
    requires (forall i :: i in have ==> i < |x.packets|) && Holds(buffer, x, have, |x.packets|)
    ensures buffer == map[]
  {
    assert Starts(x, have, |x.packets|) == {};
  }

  /** Storing packet `i` ahead of the gap. */
  lemma AheadMerges(z: Sizes, c: Channel, x: Session, have: set<nat>, i: nat, marked: bool, capacity: nat)
    requires z.Valid() && WellSent(x) && i < |x.packets| && forall j :: j in have ==> j < |x.packets|
    requires Open(c, x, marked) && c.session == Some(x.name)
    requires var k := FirstMissing(have, |x.packets|, 0); k < i && At(c, x, have, k)
    requires Fits(x, have + {i}, capacity)
    ensures Merged(z, Ahead(c, x.packets[i], capacity).channel, x, have + {i}, marked)
  {
    hide Storable, Feed, PhaseAfter, Holds, Edge, InsertOutcome, Starts;
    var n := |x.packets|;
    var k := FirstMissing(have, n, 0);
    FirstMissingUnique(have + {i}, n, 0, k);
    StoredAhead(c.buffer, x, have, i, k, capacity);
    assert i in have ==> have + {i} == have;
    assert |x.packets[i].data| <= MAX_PACKET_SIZE by { assert Sent(x, i); FitsSlot(x.packets[i]); }
  }

  lemma FitsSlot(p: Packet)
    requires Storable(p)
    ensures |p.data| <= MAX_PACKET_SIZE
  {
  }

  lemma StoredAhead(buffer: map<u64, Packet>, x: Session, have: set<nat>, i: nat, k: nat, capacity: nat)
    requires WellSent(x) && k < i < |x.packets| && forall j :: j in have ==> j < |x.packets|
    requires Holds(buffer, x, have, k) && |Starts(x, have + {i}, k)| <= capacity
    ensures InsertOutcome(buffer, capacity, x.packets[i]) == if i in have then DuplicateIdentical else Inserted
    ensures i !in have ==> Holds(buffer[x.packets[i].seqNo := x.packets[i]], x, have + {i}, k)
  {
    hide Storable, Edge, Starts;
    var p := x.packets[i];
    assert |p.data| <= MAX_PACKET_SIZE by { assert Sent(x, i); FitsSlot(p); }
    StartsWith(x, have, i, k);
    assert |buffer| == |Starts(x, have, k)|;
    if i in have {
      assert p.seqNo in Starts(x, have, k);
    } else {
      var buffer' := buffer[p.seqNo := p];
      assert buffer'.Keys == buffer.Keys + {p.seqNo};
      StartsContain(x, have, k);
    }
  }

  lemma StartsContain(x: Session, have: set<nat>, k: nat)
    requires forall j :: j in have ==> j < |x.packets|
    ensures forall j :: j in have && j >= k ==> x.packets[j].seqNo in Starts(x, have, k)
  {
  }

  lemma StartsWith(x: Session, have: set<nat>, i: nat, k: nat)
    requires WellSent(x) && k < i < |x.packets| && forall j :: j in have ==> j < |x.packets|
    ensures Starts(x, have + {i}, k) == Starts(x, have, k) + {x.packets[i].seqNo}
    ensures x.packets[i].seqNo in Starts(x, have, k) <==> i in have
    ensures forall j :: j in have && j != i ==> x.packets[j].seqNo != x.packets[i].seqNo
  {
    hide Storable;
    forall j | j in have && j != i ensures x.packets[j].seqNo != x.packets[i].seqNo {
      assert Sent(x, i) && Sent(x, j);
      if j < i { EdgesRise(x, j, i); } else { EdgesRise(x, i, j); }
    }
  }

  /** An arrival of packet `i`. */
  lemma DataMerges(c: Channel, x: Session, have: set<nat>, i: nat, marked: bool, e: Setting)
    requires e.Valid() && WellSent(x) && i < |x.packets| && forall j :: j in have ==> j < |x.packets|
    requires Between(c, e.room) && Merged(e.room, c, x, have, marked) && c.terminal == Ok && c.session == Some(x.name)
    requires Accepts(e.room, Feed(x, |x.packets|)) && Fits(x, have + {i}, e.capacity) && Sent(x, i)
    ensures Merged(e.room, Sequenced(c, x.packets[i].data, e).channel, x, have + {i}, marked)
  {
    hide Unframe, Feed, PhaseAfter, NothingCoversNext, InOrder, Ahead, ReadU16, ReadU64, Holds, Accepts;
    var n := |x.packets|;
    var k := FirstMissing(have, n, 0);
    var p := x.packets[i];
    var ms := MessagesOf(p);
    assert p == Packet(p.seqNo, p.msgCount, p.data) && Contents(p.data) == Framed(ms);
    EdgesRise(x, i + 1, n);
    assert Edge(x, i + 1) == p.seqNo + p.msgCount;
    EndsOpen(e.room, c, x, have, marked);
    if i < k {
      EdgesRise(x, i + 1, k);
      assert have + {i} == have;
    } else if i == k {
      assert ms[0..] == ms;
      InOrderMerges(c, x, have, k, marked, e.room);
    } else {
      EdgesRise(x, k, i);
      AheadMerges(e.room, c, x, have, i, marked, e.capacity);
    }
  }

  /** A merged channel that has not ended is open. */
  lemma EndsOpen(z: Sizes, c: Channel, x: Session, have: set<nat>, marked: bool)
    requires z.Valid() && WellSent(x) && (forall j :: j in have ==> j < |x.packets|) && Merged(z, c, x, have, marked)
    ensures c.terminal == Ok ==> Open(c, x, marked) && !(marked && FirstMissing(have, |x.packets|, 0) == |x.packets|)
  {
    hide PhaseAfter, At, Feed;
  }

  lemma BeatMerges(z: Sizes, c: Channel, x: Session, have: set<nat>, first: u64, marked: bool)
    requires z.Valid() && WellSent(x) && forall j :: j in have ==> j < |x.packets|
    requires Merged(z, c, x, have, marked) && c.terminal == Ok && first <= Edge(x, |x.packets|)
    ensures Merged(z, Heartbeat(c, first).channel, x, have, marked)
  {
    hide PhaseAfter, Feed, Storable, Holds;
    EndsOpen(z, c, x, have, marked);
  }

  lemma EndMerges(z: Sizes, c: Channel, x: Session, have: set<nat>, marked: bool)
    requires z.Valid() && WellSent(x) && forall j :: j in have ==> j < |x.packets|
    requires Accepts(z, Feed(x, |x.packets|)) && Edge(x, |x.packets|) <= U64_MAX
    requires Between(c, z) && Merged(z, c, x, have, marked) && c.terminal == Ok
    ensures Merged(z, EndMarker(c, Edge(x, |x.packets|), z).channel, x, have, true)
  {
    hide PhaseAfter, Feed, Storable, Holds, IR.Replay, NothingCoversNext;
    var n := |x.packets|;
    var k := FirstMissing(have, n, 0);
    EndsOpen(z, c, x, have, marked);
    EdgesRise(x, k, n);
    if k < n { NotYetEnded(z, x, k); } else { StoredNone(c.buffer, x, have); }
  }

  ghost predicate IsArrival(x: Session, d: seq<byte>) {
    IsData(x, d) || IsBeat(x, d) || IsEnd(x, d)
  }

  lemma ArrivalSet(x: Session, ds: seq<seq<byte>>, d: seq<byte>)
    requires WellSent(x)
    ensures Marked(x, ds + [d]) == (Marked(x, ds) || IsEnd(x, d))
    ensures !IsData(x, d) ==> Have(x, ds + [d]) == Have(x, ds)
    ensures forall i :: 0 <= i < |x.packets| && x.packets[i].data == d ==> Have(x, ds + [d]) == Have(x, ds) + {i}
  {
    hide Storable, IsEnd, ReadU64, ReadU16;
    if Marked(x, ds) {
      var i :| 0 <= i < |ds| && IsEnd(x, ds[i]);
      assert (ds + [d])[i] == ds[i];
    }
    assert (ds + [d])[|ds|] == d;
    forall i | 0 <= i < |x.packets| && x.packets[i].data == d ensures Have(x, ds + [d]) == Have(x, ds) + {i} {
      forall j | 0 <= j < |x.packets| && x.packets[j].data == d ensures j == i {
        assert Sent(x, i) && Sent(x, j);
        if j < i { EdgesRise(x, j, i); } else { EdgesRise(x, i, j); }
      }
    }
  }

  /** One more arrival, on any line. */
  lemma ArrivalMerges(c: Channel, x: Session, ds: seq<seq<byte>>, d: seq<byte>, e: Setting)
    requires e.Valid() && WellSent(x) && IsArrival(x, d) && Between(c, e.room) &&
             Merged(e.room, c, x, Have(x, ds), Marked(x, ds))
    requires Accepts(e.room, Feed(x, |x.packets|))
    requires Fits(x, Have(x, ds + [d]), e.capacity)
    ensures Merged(e.room, Process(c, d, e).channel, x, Have(x, ds + [d]), Marked(x, ds + [d]))
  {
    hide Merged, Storable, Marked, Have, Heartbeat, EndMarker, Sequenced, Feed, IR.Replay, ReadU16, ReadU64, Between;
    hide Fits, IsEnd, IsBeat, Edge;
    ArrivalSet(x, ds, d);
    var have, marked := Have(x, ds), Marked(x, ds);
    if c.terminal != Ok {
      EndedKeeps(e.room, c, x, have, marked, Have(x, ds + [d]));
    } else {
      ArrivalHeader(x, d);
      BoundMerges(e.room, c, x, have, marked);
      var bound := c.(session := Some(x.name));
      if IsData(x, d) {
        var i :| 0 <= i < |x.packets| && x.packets[i].data == d;
        DataMerges(bound, x, have, i, marked, e);
      } else if IsBeat(x, d) {
        BeatMerges(e.room, bound, x, have, FirstSequence(d), marked);
      } else {
        EndMerges(e.room, bound, x, have, marked);
      }
    }
  }

  /** After the verdict every packet has arrived, so a further arrival is no news. */
  lemma EndedKeeps(z: Sizes, c: Channel, x: Session, have: set<nat>, marked: bool, have': set<nat>)
    requires z.Valid() && WellSent(x) && (forall i :: i in have' ==> i < |x.packets|) && have <= have'
    requires (forall i :: i in have ==> i < |x.packets|) && Merged(z, c, x, have, marked) && c.terminal != Ok
    ensures marked && have' == have
  {
    hide At, PhaseAfter, Feed;
    var n := |x.packets|;
    assert FirstMissing(have, n, 0) == n;
  }

  lemma BoundMerges(z: Sizes, c: Channel, x: Session, have: set<nat>, marked: bool)
    requires z.Valid() && WellSent(x) && forall i :: i in have ==> i < |x.packets|
    requires Between(c, z) && Merged(z, c, x, have, marked)
    ensures c.session.Some? ==> c.session.value == x.name
    ensures Between(c.(session := Some(x.name)), z) && Merged(z, c.(session := Some(x.name)), x, have, marked)
  {
    hide Storable, PhaseAfter, Feed, Holds;
  }

  /** What the header of an arrival says. */
  lemma ArrivalHeader(x: Session, d: seq<byte>)
    requires WellSent(x) && IsArrival(x, d)
    ensures |d| >= HEADER_SIZE && SessionOf(d) == x.name
    ensures IsData(x, d) ==> 0 < MessageCount(d) < END_OF_SESSION
    ensures forall i :: 0 <= i < |x.packets| && x.packets[i].data == d ==> Sent(x, i)
    ensures IsBeat(x, d) ==> |d| == HEADER_SIZE && MessageCount(d) == 0 && FirstSequence(d) <= Edge(x, |x.packets|)
    ensures IsEnd(x, d) ==>
              |d| == HEADER_SIZE && MessageCount(d) == END_OF_SESSION &&
              FirstSequence(d) == Edge(x, |x.packets|)
  {
    hide Unframe, ReadU16, ReadU64;
    if IsData(x, d) {
      var i :| 0 <= i < |x.packets| && x.packets[i].data == d;
      assert Sent(x, i);
      assert |MessagesOf(x.packets[i])| == MessageCount(d);
    }
  }

  /** Confluence: after any arrivals of a session's packets, heartbeats and end marker, on any
      number of lines, in any order, with losses and repetitions, `next` is the first packet that
      has not arrived, the buffer holds exactly the arrivals beyond it, the parser has seen exactly
      the packets before it, and the session ends precisely when all of it and its marker came. */
  lemma {:induction false} MergeIsConfluent(x: Session, ds: seq<seq<byte>>, e: Setting)
    requires e.Valid() && WellSent(x) && forall i :: 0 <= i < |ds| ==> IsArrival(x, ds[i])
    requires Accepts(e.room, Feed(x, |x.packets|))
    requires forall j :: 0 <= j <= |ds| ==> Fits(x, Have(x, ds[..j]), e.capacity)
    ensures Merged(e.room, Run(Start(x.initial), ds, e), x, Have(x, ds), Marked(x, ds))
  {
    hide Merged, Storable, Marked, Have, Process, Feed, IR.Replay, Between, Fits, IsArrival, Edge;
    if ds == [] {
      StartMerged(e.room, x);
    } else {
      var n := |ds| - 1;
      forall j | 0 <= j <= n ensures Fits(x, Have(x, ds[..n][..j]), e.capacity) {
        assert ds[..n][..j] == ds[..j];
      }
      MergeIsConfluent(x, ds[..n], e);
      RunBetween(x.initial, ds[..n], e);
      assert ds[..n] + [ds[n]] == ds == ds[..n + 1];
      ArrivalMerges(Run(Start(x.initial), ds[..n], e), x, ds[..n], ds[n], e);
    }
  }

  lemma StartMerged(z: Sizes, x: Session)
    requires z.Valid() && WellSent(x)
    ensures Merged(z, Start(x.initial), x, Have(x, []), Marked(x, []))
  {
    hide Storable, PhaseAfter;
    assert Have(x, []) == {} && Starts(x, {}, 0) == {};
  }

  /** Two runs that received the same packets end alike, whatever their orders. */
  lemma OrderDoesNotMatter(x: Session, ds: seq<seq<byte>>, ds': seq<seq<byte>>, e: Setting)
    requires e.Valid() && WellSent(x) && (forall i :: 0 <= i < |ds| ==> IsArrival(x, ds[i])) &&
             forall i :: 0 <= i < |ds'| ==> IsArrival(x, ds'[i])
    requires Accepts(e.room, Feed(x, |x.packets|))
    requires forall j :: 0 <= j <= |ds| ==> Fits(x, Have(x, ds[..j]), e.capacity)
    requires forall j :: 0 <= j <= |ds'| ==> Fits(x, Have(x, ds'[..j]), e.capacity)
    requires forall d :: d in ds <==> d in ds'
    ensures var c, c' := Run(Start(x.initial), ds, e), Run(Start(x.initial), ds', e);
            c.next == c'.next && c.buffer == c'.buffer && c.history == c'.history && c.terminal == c'.terminal
  {
    hide Storable, Process, Feed, IR.Replay, Between, Fits, IsArrival, PhaseAfter, IsEnd, IsBeat, IsData, Edge;
    MergeIsConfluent(x, ds, e);
    MergeIsConfluent(x, ds', e);
    assert Have(x, ds) == Have(x, ds');
    SameMarked(x, ds, ds');
    SameMarked(x, ds', ds);
  }

  lemma SameMarked(x: Session, ds: seq<seq<byte>>, ds': seq<seq<byte>>)
    requires forall d :: d in ds ==> d in ds'
    ensures Marked(x, ds) ==> Marked(x, ds')
  {
    hide IsEnd;
    if Marked(x, ds) {
      var i :| 0 <= i < |ds| && IsEnd(x, ds[i]);
      assert ds[i] in ds';
      var j :| 0 <= j < |ds'| && ds'[j] == ds[i];
    }
  }

  /** A whole day reaches its accepted end exactly when every packet and a marker have arrived,
      on time or ahead of a gap. */
  lemma SessionCompletes(x: Session, ds: seq<seq<byte>>, e: Setting)
    requires e.Valid() && WellSent(x) && forall i :: 0 <= i < |ds| ==> IsArrival(x, ds[i])
    requires Accepts(e.room, Feed(x, |x.packets|))
    requires IR.Replay(e.room, IR.START_OF_DAY, Feed(x, |x.packets|)).value.phase == IR.EndOfMessages
    requires forall j :: 0 <= j <= |ds| ==> Fits(x, Have(x, ds[..j]), e.capacity)
    ensures Run(Start(x.initial), ds, e).terminal == EndOfStream <==>
              Marked(x, ds) && forall i :: 0 <= i < |x.packets| ==> x.packets[i].data in ds
  {
    hide Storable, Process, Feed, IR.Replay, Between, Fits, IsArrival, IsEnd, IsBeat, IsData, Edge, At;
    MergeIsConfluent(x, ds, e);
    var n := |x.packets|;
    var k := FirstMissing(Have(x, ds), n, 0);
    if k == n {
      forall i | 0 <= i < n ensures x.packets[i].data in ds {
        assert i in Have(x, ds);
      }
    } else {
      assert x.packets[k].data !in ds;
    }
  }
}
