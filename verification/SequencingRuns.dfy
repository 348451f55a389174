/** What holds on every run of the MoldUDP64 channel, whatever arrives. */
module SequencingRuns {
  import opened Types
  import opened ItchWire
  import opened MoldWire
  import IR = ItchReference
  import opened ReferenceBook
  import opened GapBuffer
  import opened Sequencing

  // ----- Draining -----------------------------------------------------------------------

  /** No stored packet holds the message the channel waits for. */
  ghost predicate NothingCoversNext(c: Channel) {
    forall s :: s in c.buffer ==> !(s <= c.next < s + c.buffer[s].msgCount)
  }

  /** When the bounded search finds nothing, nothing stored covers `next`: a stored packet has at
      most 144 messages. */
  lemma SearchIsExhaustive(c: Channel)
    requires Sound(c) && Candidate(c).None?
    ensures NothingCoversNext(c)
  {
    forall s | s in c.buffer ensures !(s <= c.next < s + c.buffer[s].msgCount) {
      assert |MessagesOf(c.buffer[s])| == c.buffer[s].msgCount;
    }
  }

  /** `a` is reached from `c` by delivering messages and taking packets out. */
  ghost predicate Drained(c: Channel, a: Answer) {
    var c' := a.channel;
    && c' == c.(next := c'.next, health := c'.health, buffer := c'.buffer, history := c'.history)
    && c'.next >= c.next && c.history <= c'.history
    && c'.buffer.Keys <= c.buffer.Keys && (forall s :: s in c'.buffer ==> c'.buffer[s] == c.buffer[s])
    && (a.status == Ok ==> c'.health == c.health)
    && (a.status != Ok ==> a.status == InvalidItchMessage && c'.health == Invalid)
  }

  lemma PullDrains(c: Channel, s: u64, z: Sizes)
    requires z.Valid() && Sound(c) && s in c.buffer && s <= c.next
    ensures Drained(c, Pull(c, s, z))
  {
    hide Unframe, Storable;
  }

  /** Draining only delivers and takes out, and ends with nothing stored that covers `next`. */
  lemma {:induction false} DrainEnds(c: Channel, z: Sizes)
    requires z.Valid() && Sound(c)
    ensures Drained(c, Drain(c, z))
    ensures Drain(c, z).status == Ok ==> NothingCoversNext(Drain(c, z).channel)
    decreases |c.buffer|
  {
    hide NothingCoversNext, Pull, Candidate, Storable;
    match Candidate(c)
    case None => SearchIsExhaustive(c);
    case Some(s) =>
      PullDrains(c, s, z);
      var a := Pull(c, s, z);
      if a.status == Ok { DrainEnds(a.channel, z); }
  }

  // ----- Health, watermark and the end of the session -----------------------------------

  /** What holds between any two datagrams. */
  ghost predicate Between(c: Channel, z: Sizes)
    requires z.Valid()
  {
    && Sound(c)
    && (c.terminal == Ok ==> Running(c))
    && (c.terminal == EndOfStream ==> Ended(c, z))
    && (c.terminal != Ok && c.terminal != EndOfStream ==> c.health == Invalid)
  }

  /** Unless the channel has lost data for good, it is good exactly when nothing is outstanding. */
  ghost predicate Running(c: Channel) {
    && c.health != Invalid
    && (c.health != Stale ==> (c.health == Good <==> c.buffer == map[] && c.watermark == 0))
    && (c.health != Stale && c.watermark != 0 ==> c.next < c.watermark)
    && (c.pendingEnd != 0 ==> c.next <= c.pendingEnd)
    && NothingCoversNext(c)
  }

  ghost predicate Ended(c: Channel, z: Sizes)
    requires z.Valid()
  {
    && c.health == Good && c.buffer == map[] && c.watermark == 0
    && AllMessages(c.history) && PhaseAfter(z, c.history) == IR.EndOfMessages
  }

  lemma EndMarkerBetween(c: Channel, first: u64, z: Sizes)
    requires z.Valid() && Between(c, z) && c.terminal == Ok
    ensures Between(EndMarker(c, first, z).channel, z)
  {
    hide PhaseAfter, Storable;
  }

  lemma HeartbeatBetween(c: Channel, first: u64, z: Sizes)
    requires z.Valid() && Between(c, z) && c.terminal == Ok
    ensures Between(Heartbeat(c, first).channel, z)
  {
    hide PhaseAfter, Storable;
  }

  lemma AheadBetween(c: Channel, p: Packet, capacity: nat, z: Sizes)
    requires z.Valid() && Between(c, z) && c.terminal == Ok && p.seqNo > c.next
    requires |p.data| <= MAX_PACKET_SIZE ==> Storable(p)
    ensures Between(Ahead(c, p, capacity).channel, z)
  {
    hide PhaseAfter, Storable;
  }

  lemma InOrderBetween(c: Channel, end: u64, ms: seq<Message>, z: Sizes)
    requires z.Valid() && Between(c, z) && c.terminal == Ok && AllMessages(ms) && c.next < end
    ensures Between(InOrder(c, end, ms, z).channel, z)
  {
    hide PhaseAfter, Storable, Drain, Taken, Accepts;
    var a := Delivered(c, end, ms, z);
    if a.status == Ok {
      var c1 := if c.health == GapDetected then a.channel.(health := Recovering) else a.channel;
      DrainEnds(c1, z);
    }
  }

  lemma SequencedBetween(c: Channel, d: seq<byte>, e: Setting)
    requires e.Valid() && Between(c, e.room) && c.terminal == Ok && |d| >= HEADER_SIZE && MessageCount(d) > 0
    ensures Between(Sequenced(c, d, e).channel, e.room)
  {
    hide PhaseAfter, Unframe, Drain, NothingCoversNext, InOrder, Ahead;
    var first, count := FirstSequence(d), MessageCount(d);
    if first <= U64_MAX - count && Contents(d).Framed? {
      var ms := Contents(d).messages;
      Unframed(d, count);
      if first > c.next {
        AheadBetween(c, Packet(first, count, d), e.capacity, e.room);
      } else if first + count > c.next {
        InOrderBetween(c, first + count, ms[c.next - first..], e.room);
      }
    }
  }

  lemma ProcessBetween(c: Channel, d: seq<byte>, e: Setting)
    requires e.Valid() && Between(c, e.room)
    ensures Between(Process(c, d, e).channel, e.room)
  {
    hide PhaseAfter, NothingCoversNext, Sequenced, Heartbeat, EndMarker, Storable;
    if c.terminal == Ok && |d| >= HEADER_SIZE {
      var bound := c.(session := Some(SessionOf(d)));
      BindingKeeps(c, bound, e.room);
      EndMarkerBetween(bound, FirstSequence(d), e.room);
      HeartbeatBetween(bound, FirstSequence(d), e.room);
      if MessageCount(d) > 0 { SequencedBetween(bound, d, e); }
    }
  }

  lemma BindingKeeps(c: Channel, bound: Channel, z: Sizes)
    requires z.Valid() && Between(c, z) && bound == c.(session := bound.session)
    ensures Between(bound, z)
  {
  }

  /** On every run: health, watermark and buffer agree, nothing stored covers `next`, and every
      terminal failure shows as an invalid channel. */
  lemma {:induction false} RunBetween(initial: u64, ds: seq<seq<byte>>, e: Setting)
    requires e.Valid()
    ensures Between(Run(Start(initial), ds, e), e.room)
  {
    hide Process, Between;
    if ds == [] {
      StartBetween(initial, e.room);
    } else {
      RunBetween(initial, ds[..|ds| - 1], e);
      ProcessBetween(Run(Start(initial), ds[..|ds| - 1], e), ds[|ds| - 1], e);
    }
  }

  lemma StartBetween(initial: u64, z: Sizes)
    requires z.Valid()
    ensures Between(Start(initial), z)
  {
  }

  // ----- Terminal and stale channels ----------------------------------------------------

  /** A terminal status is answered forever and nothing changes any more. */
  lemma {:induction false} TerminalIsForever(c: Channel, ds: seq<seq<byte>>, d: seq<byte>, e: Setting)
    requires e.Valid() && Sound(c) && c.terminal != Ok
    ensures Run(c, ds, e) == c && Process(Run(c, ds, e), d, e) == Answer(c, c.terminal, false)
  {
    hide Sound, Sequenced, Heartbeat, EndMarker;
    if ds != [] { TerminalIsForever(c, ds[..|ds| - 1], ds[|ds| - 1], e); }
  }

  ghost predicate StaleOrFailed(c: Channel) {
    (c.health == Stale && c.terminal == Ok) || (c.terminal != Ok && c.terminal != EndOfStream)
  }

  /** How a sequenced packet may move the lifecycle of a running channel. */
  ghost predicate Moves(c: Channel, c': Channel) {
    && (c'.terminal == Ok ==> c'.pendingEnd == c.pendingEnd)
    && (c'.terminal == EndOfStream ==> c.health != Stale && c.pendingEnd != 0 && c'.next == c.pendingEnd)
    && (c'.terminal == Ok && c.health == Stale ==> c'.health == Stale)
  }

  lemma InOrderMoves(c: Channel, end: u64, ms: seq<Message>, z: Sizes)
    requires z.Valid() && Sound(c) && AllMessages(ms) && c.terminal == Ok
    ensures Moves(c, InOrder(c, end, ms, z).channel)
  {
    hide PhaseAfter, Storable, Drain, Taken, Accepts;
    var a := Delivered(c, end, ms, z);
    if a.status == Ok {
      DrainEnds(if c.health == GapDetected then a.channel.(health := Recovering) else a.channel, z);
    }
  }

  lemma SequencedMoves(c: Channel, d: seq<byte>, e: Setting)
    requires e.Valid() && Sound(c) && c.terminal == Ok && |d| >= HEADER_SIZE && MessageCount(d) > 0
    ensures Moves(c, Sequenced(c, d, e).channel)
  {
    hide PhaseAfter, Unframe, InOrder, Sound, ReadU16, ReadU64;
    var first, count := FirstSequence(d), MessageCount(d);
    if first <= U64_MAX - count && Contents(d).Framed? && first <= c.next < first + count {
      Unframed(d, count);
      InOrderMoves(c, first + count, Contents(d).messages[c.next - first..], e.room);
    }
  }

  /** The channel as `Process` hands it on, bound to the session of `d`. */
  ghost function Bound(c: Channel, d: seq<byte>): (b: Channel)
    requires |d| >= HEADER_SIZE
    ensures Sound(c) ==> Sound(b)
  {
    c.(session := Some(SessionOf(d)))
  }

  lemma StaleStep(c: Channel, d: seq<byte>, e: Setting)
    requires e.Valid() && Sound(c) && StaleOrFailed(c)
    ensures StaleOrFailed(Process(c, d, e).channel)
  {
    hide Sound, PhaseAfter, Sequenced, Storable, ReadU16, ReadU64;
    if c.terminal == Ok && |d| >= HEADER_SIZE && 0 < MessageCount(d) {
      SequencedMoves(Bound(c, d), d, e);
    }
  }

  /** Data lost for want of room is never forgotten: a stale channel stays stale unless it fails,
      so it can never accept the end of the session. */
  lemma {:induction false} StaleIsForever(c: Channel, ds: seq<seq<byte>>, e: Setting)
    requires e.Valid() && Sound(c) && StaleOrFailed(c)
    ensures StaleOrFailed(Run(c, ds, e))
  {
    hide Process, StaleOrFailed, Sound;
    if ds != [] {
      StaleIsForever(c, ds[..|ds| - 1], e);
      StaleStep(Run(c, ds[..|ds| - 1], e), ds[|ds| - 1], e);
    }
  }

  // ----- The accepted end of the session ------------------------------------------------

  /** A marker among the arrivals names `end` as the end of the session. */
  ghost predicate Advertised(ds: seq<seq<byte>>, end: u64) {
    exists i :: 0 <= i < |ds| && |ds[i]| == HEADER_SIZE && MessageCount(ds[i]) == END_OF_SESSION &&
                FirstSequence(ds[i]) == end
  }

  /** The pending end and an accepted end were both advertised. */
  ghost predicate EndKnown(c: Channel, ds: seq<seq<byte>>) {
    && (c.terminal == Ok && c.pendingEnd != 0 ==> Advertised(ds, c.pendingEnd))
    && (c.terminal == EndOfStream ==> Advertised(ds, c.next))
  }

  lemma EndKnownStep(c: Channel, ds: seq<seq<byte>>, d: seq<byte>, e: Setting)
    requires e.Valid() && Sound(c) && EndKnown(c, ds)
    ensures EndKnown(Process(c, d, e).channel, ds + [d])
  {
    hide Sound, PhaseAfter, Sequenced, Storable, ReadU16, ReadU64, Advertised;
    AdvertisedStep(ds, d);
    if c.terminal == Ok && |d| >= HEADER_SIZE && 0 < MessageCount(d) {
      SequencedMoves(Bound(c, d), d, e);
    }
  }

  lemma AdvertisedStep(ds: seq<seq<byte>>, d: seq<byte>)
    ensures forall end: u64 :: Advertised(ds, end) ==> Advertised(ds + [d], end)
    ensures |d| == HEADER_SIZE && MessageCount(d) == END_OF_SESSION ==> Advertised(ds + [d], FirstSequence(d))
  {
    hide ReadU16, ReadU64;
    forall end: u64 | Advertised(ds, end) ensures Advertised(ds + [d], end) {
      var i :| 0 <= i < |ds| && |ds[i]| == HEADER_SIZE && MessageCount(ds[i]) == END_OF_SESSION &&
          FirstSequence(ds[i]) == end;
      assert (ds + [d])[i] == ds[i];
    }
    assert (ds + [d])[|ds|] == d;
  }

  lemma {:induction false} RunEndKnown(initial: u64, ds: seq<seq<byte>>, e: Setting)
    requires e.Valid()
    ensures EndKnown(Run(Start(initial), ds, e), ds)
  {
    hide Process, EndKnown, Storable;
    if ds == [] {
      assert EndKnown(Start(initial), []) by { StartEndKnown(initial); }
    } else {
      var n := |ds| - 1;
      RunEndKnown(initial, ds[..n], e);
      EndKnownStep(Run(Start(initial), ds[..n], e), ds[..n], ds[n], e);
      assert ds == ds[..n] + [ds[n]];
    }
  }

  lemma StartEndKnown(initial: u64)
    ensures EndKnown(Start(initial), [])
  {
  }

  /** The end of the session is accepted only with everything delivered up to an advertised end,
      nothing buffered and nothing outstanding, after a day whose six events came each once and in
      order, and with no order left alive. */
  lemma EndOfStreamIsComplete(initial: u64, ds: seq<seq<byte>>, e: Setting)
    requires e.Valid() && Run(Start(initial), ds, e).terminal == EndOfStream
    ensures var c := Run(Start(initial), ds, e);
            && Advertised(ds, c.next) && c.buffer == map[] && c.watermark == 0
            && IR.Replay(e.room, IR.START_OF_DAY, c.history).Some?
            && var day := IR.Replay(e.room, IR.START_OF_DAY, c.history).value;
               day.phase == IR.EndOfMessages && day.events == "OSQMEC" && day.books.live == map[]
  {
    hide Process, Run, IR.Replay, Storable;
    RunBetween(initial, ds, e);
    RunEndKnown(initial, ds, e);
    IR.EndOfDay(e.room, Run(Start(initial), ds, e).history);
  }

  // ----- Growth -------------------------------------------------------------------------

  lemma InOrderGrows(c: Channel, end: u64, ms: seq<Message>, z: Sizes)
    requires z.Valid() && Sound(c) && AllMessages(ms)
    ensures c.history <= InOrder(c, end, ms, z).channel.history
  {
    hide PhaseAfter, Storable, Drain, Taken, Accepts;
    var a := Delivered(c, end, ms, z);
    if a.status == Ok {
      DrainEnds(if c.health == GapDetected then a.channel.(health := Recovering) else a.channel, z);
    }
  }

  /** What was delivered stays delivered. */
  lemma HistoryGrows(c: Channel, d: seq<byte>, e: Setting)
    requires e.Valid() && Sound(c)
    ensures c.history <= Process(c, d, e).channel.history
  {
    hide PhaseAfter, Unframe, InOrder, ReadU16, ReadU64, Storable;
    if c.terminal == Ok && |d| >= HEADER_SIZE && MessageCount(d) > 0 {
      var first, count := FirstSequence(d), MessageCount(d);
      if first <= U64_MAX - count && Contents(d).Framed? && first <= c.next < first + count {
        Unframed(d, count);
        InOrderGrows(Bound(c, d), first + count, Contents(d).messages[c.next - first..], e.room);
      }
    }
  }

  // ----- Exactly once, in order ---------------------------------------------------------

  /** The packet is a window of `stream`, whose messages are numbered from 0. */
  ghost predicate Window(p: Packet, stream: seq<Message>)
    requires Storable(p)
  {
    p.seqNo + p.msgCount <= |stream| && MessagesOf(p) == stream[p.seqNo..p.seqNo + p.msgCount]
  }

  /** Whatever messages the datagram carries are those of `stream` at its sequence numbers. */
  ghost predicate Carries(d: seq<byte>, stream: seq<Message>) {
    |d| >= HEADER_SIZE && Contents(d).Framed? ==>
      var first, ms := FirstSequence(d), Contents(d).messages;
      first + |ms| <= |stream| && ms == stream[first..first + |ms|]
  }

  /** The parser has seen a prefix of the stream from `initial` on, up to `next`. */
  ghost predicate InStream(c: Channel, stream: seq<Message>, initial: u64) {
    && Sound(c)
    && (forall s :: s in c.buffer ==> Window(c.buffer[s], stream))
    && initial + |c.history| <= |stream| && c.history == stream[initial..initial + |c.history|]
    && (c.health != Invalid ==> c.next == initial + |c.history|)
  }

  lemma DeliveredInStream(c: Channel, end: u64, ms: seq<Message>, z: Sizes, stream: seq<Message>, initial: u64)
    requires z.Valid() && InStream(c, stream, initial) && c.health != Invalid && AllMessages(ms)
    requires c.next <= end <= |stream| && ms == stream[c.next..end]
    ensures InStream(Delivered(c, end, ms, z).channel, stream, initial)
  {
    hide Storable, Window, Accepts, Taken, IsMessage;
    TakenWindow(stream, initial, c.next, end, Taken(c.history, ms, z));
  }

  lemma TakenWindow(stream: seq<Message>, initial: nat, next: nat, end: nat, taken: seq<Message>)
    requires initial <= next <= end <= |stream| && taken <= stream[next..end]
    ensures stream[initial..next] + taken == stream[initial..next + |taken|]
    ensures |taken| == end - next ==> taken == stream[next..end]
  {
    assert taken == stream[next..end][..|taken|];
    assert taken == stream[next..next + |taken|];
  }

  lemma PullInStream(c: Channel, s: u64, z: Sizes, stream: seq<Message>, initial: u64)
    requires z.Valid() && InStream(c, stream, initial) && c.health != Invalid && s in c.buffer && s <= c.next
    ensures InStream(Pull(c, s, z).channel, stream, initial)
  {
    hide Unframe, Delivered, MessagesOf;
    var p := c.buffer[s];
    var rest := c.(buffer := c.buffer - {s});
    var end := p.seqNo + p.msgCount;
    if end > c.next {
      assert MessagesOf(p)[c.next - s..] == stream[c.next..end];
      DeliveredInStream(rest, end, MessagesOf(p)[c.next - s..], z, stream, initial);
    }
  }

  lemma {:induction false} DrainInStream(c: Channel, z: Sizes, stream: seq<Message>, initial: u64)
    requires z.Valid() && InStream(c, stream, initial) && c.health != Invalid
    ensures InStream(Drain(c, z).channel, stream, initial)
    decreases |c.buffer|
  {
    hide Storable, InStream, Pull, Candidate;
    assert Sound(c) by { InStreamSound(c, stream, initial); }
    match Candidate(c)
    case None =>
    case Some(s) =>
      PullDrains(c, s, z);
      PullInStream(c, s, z, stream, initial);
      var a := Pull(c, s, z);
      if a.status == Ok { DrainInStream(a.channel, z, stream, initial); }
  }

  lemma InStreamSound(c: Channel, stream: seq<Message>, initial: u64)
    requires InStream(c, stream, initial)
    ensures Sound(c)
  {
  }

  /** Only `next`, the buffer and the history matter. */
  lemma InStreamAgrees(c: Channel, c': Channel, stream: seq<Message>, initial: u64)
    requires InStream(c, stream, initial) && (c.health == Invalid ==> c'.health == Invalid)
    requires c'.next == c.next && c'.buffer == c.buffer && c'.history == c.history
    ensures InStream(c', stream, initial)
  {
  }

  lemma InOrderInStream(c: Channel, end: u64, ms: seq<Message>, z: Sizes, stream: seq<Message>, initial: u64)
    requires z.Valid() && InStream(c, stream, initial) && c.health != Invalid && AllMessages(ms)
    requires c.next <= end <= |stream| && ms == stream[c.next..end]
    ensures InStream(InOrder(c, end, ms, z).channel, stream, initial)
  {
    hide Storable, Drain, PhaseAfter, Window, InStream, Taken, Accepts;
    assert Sound(c) by { InStreamSound(c, stream, initial); }
    DeliveredInStream(c, end, ms, z, stream, initial);
    var a := Delivered(c, end, ms, z);
    var r := InOrder(c, end, ms, z).channel;
    if a.status == Ok {
      var c1 := if c.health == GapDetected then a.channel.(health := Recovering) else a.channel;
      InStreamAgrees(a.channel, c1, stream, initial);
      DrainInStream(c1, z, stream, initial);
      InStreamAgrees(Drain(c1, z).channel, r, stream, initial);
    } else {
      InStreamAgrees(a.channel, r, stream, initial);
    }
  }

  lemma AheadInStream(c: Channel, p: Packet, capacity: nat, stream: seq<Message>, initial: u64)
    requires InStream(c, stream, initial) && c.health != Invalid
    requires |p.data| <= MAX_PACKET_SIZE ==> Storable(p) && Window(p, stream)
    ensures InStream(Ahead(c, p, capacity).channel, stream, initial)
  {
    hide Storable, Window;
  }

  lemma SequencedInStream(c: Channel, d: seq<byte>, e: Setting, stream: seq<Message>, initial: u64)
    requires e.Valid() && InStream(c, stream, initial) && c.health != Invalid && Carries(d, stream)
    requires |d| >= HEADER_SIZE && MessageCount(d) > 0
    ensures InStream(Sequenced(c, d, e).channel, stream, initial)
  {
    hide Unframe, InOrder, Ahead, PhaseAfter, ReadU16, ReadU64, InStream;
    InStreamSound(c, stream, initial);
    var first, count := FirstSequence(d), MessageCount(d);
    if first <= U64_MAX - count && Contents(d).Framed? {
      var ms := Contents(d).messages;
      Unframed(d, count);
      if first <= c.next < first + count {
        assert ms[c.next - first..] == stream[c.next..first + count];
        InOrderInStream(c, first + count, ms[c.next - first..], e.room, stream, initial);
      } else if c.next < first {
        AheadInStream(c, Packet(first, count, d), e.capacity, stream, initial);
      }
    }
    InStreamAgrees(c, Failed(c, InvalidSequence).channel, stream, initial);
    if Contents(d).Malformed? {
      InStreamAgrees(c, Failed(c, Contents(d).status).channel, stream, initial);
    }
  }

  lemma ProcessInStream(c: Channel, d: seq<byte>, e: Setting, stream: seq<Message>, initial: u64)
    requires e.Valid() && InStream(c, stream, initial) && (c.terminal == Ok ==> c.health != Invalid) &&
             Carries(d, stream)
    ensures InStream(Process(c, d, e).channel, stream, initial)
  {
    hide Sequenced, PhaseAfter, ReadU16, ReadU64, Window, Storable, Carries;
    if c.terminal == Ok && |d| >= HEADER_SIZE && MessageCount(d) > 0 {
      SequencedInStream(Bound(c, d), d, e, stream, initial);
    }
  }

  /** Exactly once and in order: whatever is lost, repeated, reordered or cut into packets in
      different ways, the parser has seen precisely the messages from `initial` up to `next`, and
      after a failure still a contiguous run of messages from `initial` on. */
  lemma {:induction false} DeliveredExactlyOnce(initial: u64, ds: seq<seq<byte>>, e: Setting, stream: seq<Message>)
    requires e.Valid() && initial <= |stream| && forall i :: 0 <= i < |ds| ==> Carries(ds[i], stream)
    ensures var c := Run(Start(initial), ds, e);
            && initial + |c.history| <= |stream| && c.history == stream[initial..initial + |c.history|]
            && (c.terminal == Ok || c.terminal == EndOfStream ==> c.next == initial + |c.history|)
            && InStream(c, stream, initial)
  {
    hide Process, Carries, Storable, Window, NothingCoversNext, PhaseAfter;
    RunBetween(initial, ds, e);
    if ds != [] {
      var n := |ds| - 1;
      DeliveredExactlyOnce(initial, ds[..n], e, stream);
      RunBetween(initial, ds[..n], e);
      ProcessInStream(Run(Start(initial), ds[..n], e), ds[n], e, stream, initial);
    }
  }

  // ----- A feed with room is never refused ----------------------------------------------

  /** The stream from `initial` on is a feed the parser takes to its end. */
  ghost predicate Playable(z: Sizes, stream: seq<Message>, initial: u64) {
    z.Valid() && initial <= |stream| && AllMessages(stream[initial..]) && Accepts(z, stream[initial..])
  }

  lemma DeliveredTakesAll(c: Channel, end: u64, ms: seq<Message>, z: Sizes, stream: seq<Message>, initial: u64)
    requires Playable(z, stream, initial) && InStream(c, stream, initial) && c.health != Invalid && AllMessages(ms)
    requires c.next <= end <= |stream| && ms == stream[c.next..end]
    ensures Delivered(c, end, ms, z).status == Ok
  {
    hide Storable, Window, Accepts, Taken, IsMessage;
    var rest := stream[initial..];
    assert c.history + ms == rest[..end - initial];
    PrefixAccepted(z, rest, end - initial);
    TakesAll(c.history, ms, z);
  }

  lemma PullTakesAll(c: Channel, s: u64, z: Sizes, stream: seq<Message>, initial: u64)
    requires Playable(z, stream, initial) && InStream(c, stream, initial) && c.health != Invalid
    requires s in c.buffer && s <= c.next
    ensures Pull(c, s, z).status == Ok
  {
    hide Unframe, Delivered, MessagesOf, Accepts;
    var p := c.buffer[s];
    var rest := c.(buffer := c.buffer - {s});
    var end := p.seqNo + p.msgCount;
    if end > c.next {
      assert MessagesOf(p)[c.next - s..] == stream[c.next..end];
      DeliveredTakesAll(rest, end, MessagesOf(p)[c.next - s..], z, stream, initial);
    }
  }

  lemma {:induction false} DrainTakesAll(c: Channel, z: Sizes, stream: seq<Message>, initial: u64)
    requires Playable(z, stream, initial) && InStream(c, stream, initial) && c.health != Invalid
    ensures Sound(c) && Drain(c, z).status == Ok
    decreases |c.buffer|
  {
    hide Storable, InStream, Pull, Candidate, Playable;
    InStreamSound(c, stream, initial);
    PlayableValid(z, stream, initial);
    match Candidate(c)
    case None =>
    case Some(s) =>
      PullDrains(c, s, z);
      PullInStream(c, s, z, stream, initial);
      PullTakesAll(c, s, z, stream, initial);
      DrainTakesAll(Pull(c, s, z).channel, z, stream, initial);
  }

  lemma PlayableValid(z: Sizes, stream: seq<Message>, initial: u64)
    requires Playable(z, stream, initial)
    ensures z.Valid()
  {
  }

  lemma InOrderTakesAll(c: Channel, end: u64, ms: seq<Message>, z: Sizes, stream: seq<Message>, initial: u64)
    requires Playable(z, stream, initial) && InStream(c, stream, initial) && c.health != Invalid && AllMessages(ms)
    requires c.next <= end <= |stream| && ms == stream[c.next..end] && c.terminal == Ok
    ensures Sound(c) && InOrder(c, end, ms, z).channel.terminal != InvalidItchMessage
  {
    hide Storable, Drain, PhaseAfter, InStream, Delivered, Taken, Accepts;
    InStreamSound(c, stream, initial);
    DeliveredTakesAll(c, end, ms, z, stream, initial);
    DeliveredInStream(c, end, ms, z, stream, initial);
    DeliveredFrame(c, end, ms, z);
    var a := Delivered(c, end, ms, z).channel;
    var c1 := if c.health == GapDetected then a.(health := Recovering) else a;
    InStreamAgrees(a, c1, stream, initial);
    DrainTakesAll(c1, z, stream, initial);
    DrainEnds(c1, z);
  }

  lemma DeliveredFrame(c: Channel, end: u64, ms: seq<Message>, z: Sizes)
    requires z.Valid() && Sound(c) && AllMessages(ms) && Delivered(c, end, ms, z).status == Ok
    ensures var a := Delivered(c, end, ms, z).channel; a.health == c.health && a.terminal == c.terminal
  {
    hide Storable, Taken;
  }

  /** The datagram is not refused for its own wire form. */
  ghost predicate WellFormedWire(d: seq<byte>) {
    |d| >= HEADER_SIZE ==> Contents(d) != Malformed(InvalidItchMessage)
  }

  lemma ProcessTakesAll(c: Channel, d: seq<byte>, e: Setting, stream: seq<Message>, initial: u64)
    requires e.Valid() && Playable(e.room, stream, initial) && InStream(c, stream, initial) && Carries(d, stream)
    requires (c.terminal == Ok ==> c.health != Invalid) && c.terminal != InvalidItchMessage && WellFormedWire(d)
    ensures Process(c, d, e).channel.terminal != InvalidItchMessage
  {
    hide Unframe, InOrder, PhaseAfter, ReadU16, ReadU64, InStream, Playable, Storable;
    InStreamSound(c, stream, initial);
    if c.terminal == Ok && |d| >= HEADER_SIZE && MessageCount(d) > 0 {
      var b := Bound(c, d);
      InStreamAgrees(c, b, stream, initial);
      var first, count := FirstSequence(d), MessageCount(d);
      if first <= U64_MAX - count && Contents(d).Framed? && first <= c.next < first + count {
        var ms := Contents(d).messages;
        Unframed(d, count);
        assert ms[c.next - first..] == stream[c.next..first + count];
        InOrderTakesAll(b, first + count, ms[c.next - first..], e.room, stream, initial);
      }
    }
  }

  /** A stream that the reference accepts, with room for its orders, is never refused, however its
      well-formed packets arrive. */
  lemma {:induction false} PlayableIsNeverRefused(initial: u64, ds: seq<seq<byte>>, e: Setting, stream: seq<Message>)
    requires e.Valid() && Playable(e.room, stream, initial)
    requires forall i :: 0 <= i < |ds| ==> Carries(ds[i], stream) && WellFormedWire(ds[i])
    ensures Run(Start(initial), ds, e).terminal != InvalidItchMessage
  {
    hide Process, Carries, Storable, Window, NothingCoversNext, PhaseAfter, WellFormedWire, Accepts;
    if ds != [] {
      var n := |ds| - 1;
      PlayableIsNeverRefused(initial, ds[..n], e, stream);
      DeliveredExactlyOnce(initial, ds[..n], e, stream);
      RunBetween(initial, ds[..n], e);
      ProcessTakesAll(Run(Start(initial), ds[..n], e), ds[n], e, stream, initial);
    }
  }
}
