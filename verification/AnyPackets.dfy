/** The merge when the lines cut one stream into packets in different, overlapping ways. */
module AnyPackets {
  import opened Types
  import opened ItchWire
  import opened MoldWire
  import IR = ItchReference
  import opened ReferenceBook
  import opened GapBuffer
  import opened Sequencing
  import opened SequencingRuns

  // ----- Arrived packets ----------------------------------------------------------------

  /** A datagram that carries messages. */
  predicate IsSequenced(d: seq<byte>) {
    |d| >= HEADER_SIZE && 0 < MessageCount(d) < END_OF_SESSION
  }

  predicate Covers(d: seq<byte>, k: nat) {
    IsSequenced(d) && FirstSequence(d) <= k < FirstSequence(d) + MessageCount(d)
  }

  function PacketOf(d: seq<byte>): Packet
    requires |d| >= HEADER_SIZE
  {
    Packet(FirstSequence(d), MessageCount(d), d)
  }

  /** The packet is over, or still stored. */
  ghost predicate Kept(c: Channel, p: Packet) {
    p.seqNo + p.msgCount <= c.next || (p.seqNo in c.buffer && c.buffer[p.seqNo] == p)
  }

  /** Every arrived packet is over or stored, and every stored packet has arrived. */
  ghost predicate Accounted(c: Channel, ds: seq<seq<byte>>) {
    && (forall d :: d in ds && IsSequenced(d) ==> Kept(c, PacketOf(d)))
    && (forall s :: s in c.buffer ==>
         var d := c.buffer[s].data; d in ds && IsSequenced(d) && c.buffer[s] == PacketOf(d))
  }

  /** Every number delivered since `initial` was on some arrived packet. */
  ghost predicate Supplied(c: Channel, ds: seq<seq<byte>>, initial: u64) {
    initial <= c.next && forall k :: initial <= k < c.next ==> Delivers(ds, k)
  }

  ghost predicate Delivers(ds: seq<seq<byte>>, k: nat) {
    exists d :: d in ds && Covers(d, k)
  }

  // ----- Draining -----------------------------------------------------------------------

  /** What a drain step or a whole drain may do: a packet leaves the buffer only once it is over, and
      `next` moves only across numbers that stored packets hold. */
  ghost predicate Consumes(c: Channel, c': Channel) {
    && (forall s :: s in c'.buffer ==> s in c.buffer && c'.buffer[s] == c.buffer[s])
    && (forall s :: s in c.buffer ==> s in c'.buffer || s + c.buffer[s].msgCount <= c'.next)
    && c.next <= c'.next
    && (forall k :: c.next <= k < c'.next ==> Held(c, k))
  }

  ghost predicate Held(c: Channel, k: nat) {
    exists s :: s in c.buffer && s <= k < s + c.buffer[s].msgCount
  }

  lemma PullConsumes(c: Channel, s: u64, z: Sizes)
    requires z.Valid() && Sound(c) && s in c.buffer && s <= c.next && Pull(c, s, z).status == Ok
    ensures Consumes(c, Pull(c, s, z).channel)
  {
    hide Unframe, Taken, Accepts;
    var c' := Pull(c, s, z).channel;
    forall k | c.next <= k < c'.next ensures Held(c, k) {
      assert s <= k < s + c.buffer[s].msgCount;
    }
  }

  lemma ConsumesTwice(c: Channel, c1: Channel, c2: Channel)
    requires Consumes(c, c1) && Consumes(c1, c2)
    ensures Consumes(c, c2)
  {
    forall k | c.next <= k < c2.next ensures Held(c, k) {
      if k >= c1.next {
        assert Held(c1, k);
        var s :| s in c1.buffer && s <= k < s + c1.buffer[s].msgCount;
        assert s in c.buffer && c.buffer[s] == c1.buffer[s];
      }
    }
  }

  lemma {:induction false} DrainConsumes(c: Channel, z: Sizes)
    requires z.Valid() && Sound(c) && Drain(c, z).status == Ok
    ensures Consumes(c, Drain(c, z).channel)
    decreases |c.buffer|
  {
    hide Pull, Candidate, Storable, Consumes;
    match Candidate(c)
    case None => ConsumesNothing(c);
    case Some(s) =>
      PullConsumes(c, s, z);
      var c1 := Pull(c, s, z).channel;
      DrainConsumes(c1, z);
      ConsumesTwice(c, c1, Drain(c1, z).channel);
  }

  lemma ConsumesNothing(c: Channel)
    ensures Consumes(c, c)
  {
  }

  // ----- Every step ---------------------------------------------------------------------

  /** A channel that has neither ended nor failed nor lost anything. */
  predicate Healthy(c: Channel) { c.terminal == Ok && c.health != Stale && c.health != Invalid }

  ghost predicate Tally(c: Channel, ds: seq<seq<byte>>, initial: u64) {
    Sound(c) && Accounted(c, ds) && Supplied(c, ds, initial)
  }

  lemma {:induction false} OneMore(c: Channel, c': Channel, ds: seq<seq<byte>>, d: seq<byte>, initial: u64)
    requires Tally(c, ds, initial) && Sound(c') && c'.next == c.next && c'.buffer == c.buffer
    requires IsSequenced(d) ==> Kept(c, PacketOf(d))
    ensures Tally(c', ds + [d], initial)
  {
    hide Sound, ReadU16, ReadU64;
    forall k | initial <= k < c'.next ensures Delivers(ds + [d], k) { MoreDelivers(ds, d, k); }
  }

  lemma MoreDelivers(ds: seq<seq<byte>>, d: seq<byte>, k: nat)
    requires Delivers(ds, k) || Covers(d, k)
    ensures Delivers(ds + [d], k)
  {
    hide Covers;
    if Delivers(ds, k) {
      var x :| x in ds && Covers(x, k);
      assert x in ds + [d];
    } else {
      assert d in ds + [d];
    }
  }

  lemma AheadTally(c: Channel, ds: seq<seq<byte>>, d: seq<byte>, capacity: nat, initial: u64)
    requires Tally(c, ds, initial) && Healthy(c) && IsSequenced(d) && FirstSequence(d) > c.next
    requires Sound(Ahead(c, PacketOf(d), capacity).channel) && Healthy(Ahead(c, PacketOf(d), capacity).channel)
    ensures Tally(Ahead(c, PacketOf(d), capacity).channel, ds + [d], initial)
  {
    hide Sound, ReadU16, ReadU64, Delivers;
    var c' := Ahead(c, PacketOf(d), capacity).channel;
    assert d in ds + [d];
    forall k | initial <= k < c'.next ensures Delivers(ds + [d], k) { MoreDelivers(ds, d, k); }
  }

  lemma InOrderTally(c: Channel, ds: seq<seq<byte>>, d: seq<byte>, ms: seq<Message>, z: Sizes, initial: u64)
    requires z.Valid() && Tally(c, ds, initial) && Healthy(c) && IsSequenced(d) && AllMessages(ms)
    requires FirstSequence(d) <= c.next < FirstSequence(d) + MessageCount(d) <= U64_MAX
    requires Healthy(InOrder(c, FirstSequence(d) + MessageCount(d), ms, z).channel)
    ensures Tally(InOrder(c, FirstSequence(d) + MessageCount(d), ms, z).channel, ds + [d], initial)
  {
    hide Storable, Drain, PhaseAfter, Taken, Accepts, ReadU16, ReadU64, Delivers, Held;
    var end := FirstSequence(d) + MessageCount(d);
    var a := Delivered(c, end, ms, z);
    var c1 := if c.health == GapDetected then a.channel.(health := Recovering) else a.channel;
    DrainEnds(c1, z);
    DrainConsumes(c1, z);
    var c2, c' := Drain(c1, z).channel, InOrder(c, end, ms, z).channel;
    assert c'.next == c2.next && c'.buffer == c2.buffer && c'.history == c2.history;
    forall k | initial <= k < c'.next ensures Delivers(ds + [d], k) {
      if c.next <= k < end {
        assert Covers(d, k);
      } else if k >= end {
        HeldDelivers(c, c1, ds, k);
      }
      MoreDelivers(ds, d, k);
    }
  }

  /** A stored number is on an arrived packet. */
  lemma HeldDelivers(c: Channel, c1: Channel, ds: seq<seq<byte>>, k: nat)
    requires Sound(c) && Accounted(c, ds) && c1.buffer == c.buffer && Held(c1, k)
    ensures Delivers(ds, k)
  {
    hide Storable, ReadU16, ReadU64;
    var s :| s in c1.buffer && s <= k < s + c1.buffer[s].msgCount;
    assert Covers(c.buffer[s].data, k);
  }

  lemma SequencedTally(c: Channel, ds: seq<seq<byte>>, d: seq<byte>, e: Setting, initial: u64)
    requires e.Valid() && Tally(c, ds, initial) && Healthy(c) && IsSequenced(d)
    requires Healthy(Sequenced(c, d, e).channel)
    ensures Tally(Sequenced(c, d, e).channel, ds + [d], initial)
  {
    hide Unframe, InOrder, Ahead, ReadU16, ReadU64, Accounted, Supplied, Storable;
    var first, count := FirstSequence(d), MessageCount(d);
    Unframed(d, count);
    if first > c.next {
      AheadTally(c, ds, d, e.capacity, initial);
    } else if first + count > c.next {
      InOrderTally(c, ds, d, Contents(d).messages[c.next - first..], e.room, initial);
    } else {
      OneMore(c, c, ds, d, initial);
    }
  }

  lemma ProcessTally(c: Channel, ds: seq<seq<byte>>, d: seq<byte>, e: Setting, initial: u64)
    requires e.Valid() && Tally(c, ds, initial) && Healthy(c) && Healthy(Process(c, d, e).channel)
    ensures Tally(Process(c, d, e).channel, ds + [d], initial)
  {
    hide Sequenced, PhaseAfter, ReadU16, ReadU64, Accounted, Supplied, Storable;
    var c' := Process(c, d, e).channel;
    if IsSequenced(d) {
      Rebound(c, Bound(c, d), ds, initial);
      SequencedTally(Bound(c, d), ds, d, e, initial);
    } else {
      OneMore(c, c', ds, d, initial);
    }
  }

  /** Only `next` and the buffer matter. */
  lemma Rebound(c: Channel, c': Channel, ds: seq<seq<byte>>, initial: u64)
    requires Tally(c, ds, initial) && c'.next == c.next && c'.buffer == c.buffer && c'.history == c.history
    ensures Tally(c', ds, initial)
  {
    hide Storable, ReadU16, ReadU64, Delivers;
  }

  /** What has failed or lost data does not recover. */
  lemma WasHealthy(c: Channel, d: seq<byte>, e: Setting)
    requires e.Valid() && Between(c, e.room) && Healthy(Process(c, d, e).channel)
    ensures Healthy(c)
  {
    hide Process, Running, Ended, Storable;
    if c.terminal != Ok {
      TerminalIsForever(c, [], d, e);
    } else if c.health == Stale {
      StaleStep(c, d, e);
    }
    RunningIsValid(c);
  }

  lemma RunningIsValid(c: Channel)
    ensures Running(c) ==> c.health != Invalid
  {
  }

  // ----- Every run ----------------------------------------------------------------------

  lemma {:induction false} RunTally(initial: u64, ds: seq<seq<byte>>, e: Setting)
    requires e.Valid() && Healthy(Run(Start(initial), ds, e))
    ensures Tally(Run(Start(initial), ds, e), ds, initial)
  {
    hide Process, Between, Healthy, Tally;
    if ds == [] {
      StartTally(initial);
    } else {
      var n := |ds| - 1;
      var c := Run(Start(initial), ds[..n], e);
      RunBetween(initial, ds[..n], e);
      WasHealthy(c, ds[n], e);
      RunTally(initial, ds[..n], e);
      ProcessTally(c, ds[..n], ds[n], e, initial);
      assert ds[..n] + [ds[n]] == ds;
    }
  }

  lemma StartTally(initial: u64)
    ensures Tally(Start(initial), [], initial)
  {
  }

  /** While nothing is lost for good, the channel waits for precisely the first number that no
      arrived packet holds, however the packets overlap and in whatever order they came. */
  lemma NextIsFirstMissing(initial: u64, ds: seq<seq<byte>>, e: Setting)
    requires e.Valid() && Healthy(Run(Start(initial), ds, e))
    ensures var next := Run(Start(initial), ds, e).next;
            initial <= next && (forall k :: initial <= k < next ==> Delivers(ds, k)) && !Delivers(ds, next)
  {
    hide Run, Storable, ReadU16, ReadU64;
    var c := Run(Start(initial), ds, e);
    RunTally(initial, ds, e);
    RunBetween(initial, ds, e);
  }

  /** Two receivers that got the same datagrams, in any order and with any repeats, wait for the
      same number and have handed the same messages to their parsers; the lines may cut the stream
      into packets in different, overlapping ways. */
  lemma AnyPacketsAgree(initial: u64, ds: seq<seq<byte>>, ds': seq<seq<byte>>, e: Setting, e': Setting,
                        stream: seq<Message>)
    requires e.Valid() && e'.Valid() && initial <= |stream| && (forall d :: d in ds <==> d in ds')
    requires forall i :: 0 <= i < |ds| ==> Carries(ds[i], stream)
    requires Healthy(Run(Start(initial), ds, e)) && Healthy(Run(Start(initial), ds', e'))
    ensures var c, c' := Run(Start(initial), ds, e), Run(Start(initial), ds', e');
            c.next == c'.next && initial <= c.next <= |stream| && c.history == c'.history == stream[initial..c.next]
  {
    hide Run, Carries, InStream, Delivers;
    var c, c' := Run(Start(initial), ds, e), Run(Start(initial), ds', e');
    NextIsFirstMissing(initial, ds, e);
    NextIsFirstMissing(initial, ds', e');
    forall k: nat ensures Delivers(ds, k) == Delivers(ds', k) { SameDelivers(ds, ds', k); }
    forall i | 0 <= i < |ds'| ensures Carries(ds'[i], stream) { assert ds'[i] in ds; }
    DeliveredExactlyOnce(initial, ds, e, stream);
    DeliveredExactlyOnce(initial, ds', e', stream);
  }

  lemma SameDelivers(ds: seq<seq<byte>>, ds': seq<seq<byte>>, k: nat)
    requires forall d :: d in ds <==> d in ds'
    ensures Delivers(ds, k) == Delivers(ds', k)
  {
    hide Covers;
  }
}
