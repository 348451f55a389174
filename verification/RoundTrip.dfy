/** From a BinaryFILE through the replay source and back through the channel. */
module RoundTrip {
  import opened Types
  import opened FiniteSets
  import opened ItchWire
  import opened MoldWire
  import opened GapBuffer
  import opened Sequencing
  import opened SequencingRuns
  import opened LineMerge
  import SRC = ItchMoldUdpSource
  import DEC = MoldUdpDecoder
  import IR = ItchReference
  import opened ReferenceBook

  // ----- A session grows packet by packet -----------------------------------------------

  ghost function Grown(x: Session, p: Packet): Session { x.(packets := x.packets + [p]) }

  lemma {:induction false} FeedOfPrefix(x: Session, p: Packet, k: nat)
    requires WellSent(x) && WellSent(Grown(x, p)) && k <= |x.packets|
    ensures Feed(Grown(x, p), k) == Feed(x, k)
  {
    hide Unframe, MessagesOf;
    if k > 0 {
      FeedOfPrefix(x, p, k - 1);
      assert Sent(x, k - 1) && Sent(Grown(x, p), k - 1);
      assert Grown(x, p).packets[k - 1] == x.packets[k - 1];
    }
  }

  /** A datagram of the source, sent at the end of a session, extends it by its messages. */
  lemma DatagramExtends(x: Session, ms: seq<Message>)
    requires WellSent(x) && AllMessages(ms) && 0 < |ms| <= 103 && Edge(x, |x.packets|) + |ms| <= U64_MAX
    requires |Datagram(x.name, Edge(x, |x.packets|), ms)| <= SRC.MAX_PACKET_BYTES
    ensures var d := Datagram(x.name, Edge(x, |x.packets|), ms); var p := Packet(FirstSequence(d), MessageCount(d), d);
            && WellSent(Grown(x, p)) && Edge(Grown(x, p), |x.packets| + 1) == Edge(x, |x.packets|) + |ms|
            && Feed(Grown(x, p), |x.packets| + 1) == Feed(x, |x.packets|) + ms
  {
    hide Datagram, Unframe, ReadU16, ReadU64, Feed;
    var n := |x.packets|;
    var d := Datagram(x.name, Edge(x, n), ms);
    var p := Packet(FirstSequence(d), MessageCount(d), d);
    DatagramRoundTrip(x.name, Edge(x, n), ms);
    var x' := Grown(x, p);
    assert Storable(p) && MessagesOf(p) == ms;
    forall i | 0 <= i < |x'.packets| ensures Sent(x', i) {
      if i < n { assert Sent(x, i); }
    }
    FeedOfPrefix(x, p, n);
    FeedStep(x', n);
  }

  // ----- The driver ---------------------------------------------------------------------

  /** Cuts a whole file into packets, changing the packet size between packets as it likes: the
      packets tile the sequence numbers from 1 and hold the file's records in order, whatever the
      sizes, and the source completes exactly when the file ends well. */
  method EmitAll(source: SRC.ItchMoldUdpSource, sizes: seq<u16>) returns (ps: seq<Packet>)
    requires source.Valid() && !source.eof && source.emitted == []
    modifies source, source.packetBuf
    ensures source.Valid() && source.eof
    ensures WellSent(Session(source.session, 1, ps))
    ensures Feed(Session(source.session, 1, ps), |ps|) == SRC.ReadFile(source.input, source.policy).messages
    ensures source.completed <==> !SRC.ReadFile(source.input, source.policy).ending.Broken?
    ensures forall i :: 0 <= i < |ps| ==> |ps[i].data| <= SRC.MAX_PACKET_BYTES
  {
    hide SRC.ItchMoldUdpSource.Valid, Datagram, Unframe, ReadU16, ReadU64, Feed, Sent, SRC.PacketBody;
    ps := [];
    source.StateFacts();
    EmptySession(source.session);
    while true
      invariant source.Valid() && |source.session| == SESSION_SIZE && WellSent(Session(source.session, 1, ps))
      invariant Feed(Session(source.session, 1, ps), |ps|) == source.emitted
      invariant Edge(Session(source.session, 1, ps), |ps|) == source.nextSeq
      invariant forall i :: 0 <= i < |ps| ==> |ps[i].data| <= SRC.MAX_PACKET_BYTES
      decreases |source.input| - |source.emitted|
    {
      if |ps| < |sizes| {
        var _ := source.SetMessagesPerPacket(sizes[|ps|]);
      }
      source.Bounds();
      var packet, ms := source.Next();
      source.Bounds();
      if packet.None? {
        source.EndFacts();
        return;
      }
      var d := packet.value;
      DatagramExtends(Session(source.session, 1, ps), ms);
      ps := ps + [Packet(FirstSequence(d), MessageCount(d), d)];
    }
  }

  lemma EmptySession(name: seq<byte>)
    requires |name| == SESSION_SIZE
    ensures var x := Session(name, 1, []); WellSent(x) && Feed(x, 0) == [] && Edge(x, 0) == 1
  {
  }

  // ----- Decoding -----------------------------------------------------------------------

  ghost function Datagrams(x: Session, k: nat): (ds: seq<seq<byte>>)
    requires k <= |x.packets|
    ensures |ds| == k
  {
    seq(k, i requires 0 <= i < k => x.packets[i].data)
  }

  lemma CleanHave(x: Session, k: nat, capacity: nat)
    requires WellSent(x) && k <= |x.packets|
    ensures FirstMissing(Range(k), |x.packets|, 0) == k && Starts(x, Range(k), k) == {} && Fits(x, Range(k), capacity)
  {
    hide Range, Sent;
    FirstMissingUnique(Range(k), |x.packets|, 0, k);
    assert Starts(x, Range(k), k) == {};
  }

  lemma {:induction false} CleanMerged(x: Session, k: nat, e: Setting)
    requires e.Valid() && WellSent(x) && k <= |x.packets| && Accepts(e.room, Feed(x, |x.packets|))
    ensures Merged(e.room, Run(Start(x.initial), Datagrams(x, k), e), x, Range(k), false)
  {
    hide Merged, Between, Feed, Process, Storable, ReadU16, ReadU64, Fits, Edge, Sent, Accepts, IsData, IsEnd;
    if k == 0 {
      CleanStart(x, e);
    } else {
      var i := k - 1;
      CleanMerged(x, i, e);
      var ds := Datagrams(x, k);
      assert ds[..i] == Datagrams(x, i);
      RunBetween(x.initial, ds[..i], e);
      CleanStep(Run(Start(x.initial), ds[..i], e), x, i, e);
    }
  }

  lemma CleanStart(x: Session, e: Setting)
    requires e.Valid() && WellSent(x)
    ensures Merged(e.room, Run(Start(x.initial), Datagrams(x, 0), e), x, Range(0), false)
  {
    hide Merged, Sent;
    StartMerged(e.room, x);
    assert Have(x, []) == Range(0) && !Marked(x, []);
  }

  lemma CleanStep(c: Channel, x: Session, i: nat, e: Setting)
    requires e.Valid() && WellSent(x) && i < |x.packets| && Accepts(e.room, Feed(x, |x.packets|))
    requires Between(c, e.room) && Sound(c) && Merged(e.room, c, x, Range(i), false)
    ensures Merged(e.room, Process(c, x.packets[i].data, e).channel, x, Range(i + 1), false)
  {
    hide Merged, Between, Feed, Process, Sequenced, Sound, Fits, Sent, Accepts, FirstMissing, Starts, At, Range;
    CleanHave(x, i, e.capacity);
    CleanHave(x, i + 1, e.capacity);
    RangeGrows(i);
    DataHeader(x, i);
    BoundMerges(e.room, c, x, Range(i), false);
    assert c.terminal == Ok by { OpenUnmarked(e.room, c, x, Range(i)); }
    DataIsSequenced(c, x.packets[i].data, e);
    DataMerges(c.(session := Some(x.name)), x, Range(i), i, false, e);
  }

  lemma RangeGrows(i: nat)
    ensures Range(i + 1) == Range(i) + {i}
  {
  }

  lemma DataHeader(x: Session, i: nat)
    requires WellSent(x) && i < |x.packets|
    ensures var d := x.packets[i].data;
            |d| >= HEADER_SIZE && SessionOf(d) == x.name && 0 < MessageCount(d) < END_OF_SESSION && Sent(x, i)
  {
    hide ReadU16, ReadU64, Sent, IsBeat, IsEnd;
    ArrivalHeader(x, x.packets[i].data);
  }

  lemma DataIsSequenced(c: Channel, d: seq<byte>, e: Setting)
    requires e.Valid() && Sound(c) && c.terminal == Ok && |d| >= HEADER_SIZE && 0 < MessageCount(d) < END_OF_SESSION
    requires c.session.Some? ==> c.session.value == SessionOf(d)
    ensures Sound(c.(session := Some(SessionOf(d))))
    ensures Process(c, d, e) == Sequenced(c.(session := Some(SessionOf(d))), d, e)
  {
    hide Sequenced, Storable, ReadU16, ReadU64;
  }

  lemma OpenUnmarked(z: Sizes, c: Channel, x: Session, have: set<nat>)
    requires z.Valid() && WellSent(x) && (forall j :: j in have ==> j < |x.packets|) && Merged(z, c, x, have, false)
    ensures Open(c, x, false) && At(c, x, have, FirstMissing(have, |x.packets|, 0))
  {
    hide At, Feed;
  }

  /** Packets received in order are delivered one by one, nothing is ever buffered, and at the end
      the channel is good. */
  lemma CleanRun(x: Session, k: nat, e: Setting)
    requires e.Valid() && WellSent(x) && k <= |x.packets| && Accepts(e.room, Feed(x, |x.packets|))
    ensures var c := Run(Start(x.initial), Datagrams(x, k), e);
            && c.next == Edge(x, k) && c.history == Feed(x, k) && c.buffer == map[] && c.terminal == Ok
            && (k == |x.packets| ==> c.health == Good)
  {
    hide Merged, Feed, Storable, Fits, Process, NothingCoversNext;
    CleanMerged(x, k, e);
    CleanHave(x, k, e.capacity);
    OpenUnmarked(e.room, Run(Start(x.initial), Datagrams(x, k), e), x, Range(k));
    RunBetween(x.initial, Datagrams(x, k), e);
  }

  /** The session's packets, from sequence number 1 on, hold exactly `ms`; so EmitAll leaves them. */
  ghost predicate Packed(x: Session, ms: seq<Message>) {
    WellSent(x) && x.initial == 1 && Feed(x, |x.packets|) == ms
  }

  /** Packetize, then decode, is the identity on every well-formed BinaryFILE: packets that hold
      what EmitAll puts into them bring exactly the file's records to the parser, in order. */
  lemma PacketizeThenDecode(input: seq<byte>, policy: SRC.CompletionPolicy, records: seq<Message>, ending: SRC.Ending,
                            x: Session, e: Setting)
    requires SRC.WellFormedDay(records) && input == Blocks(records) + SRC.Trailer(ending) && !ending.Broken?
    requires ending == SRC.LegacyEnd ==> policy == SRC.AllowEofAfterEndOfMessages
    requires Packed(x, SRC.ReadFile(input, policy).messages) && e.Valid() && Accepts(e.room, records)
    ensures SRC.ReadFile(input, policy) == SRC.Reading(records, ending)
    ensures var c := Run(Start(1), Datagrams(x, |x.packets|), e);
            c.history == records && c.next == 1 + |records| && c.terminal == Ok && c.health == Good
  {
    hide SRC.ReadFrom, Run, Feed, Storable, SRC.WellFormedDay, Blocks, SRC.ReadFile, Accepts;
    SRC.CompletesIffWellFormed(input, policy, records, ending);
    CleanRun(x, |x.packets|, e);
    EdgeCountsFeed(x, |x.packets|);
  }

  // ----- File to books ------------------------------------------------------------------

  /** Replays a file through source and decoder: whatever the packet sizes, the day the parser ends
      with is the replay of the file's records. */
  method ReplayFile(source: SRC.ItchMoldUdpSource, sizes: seq<u16>, decoder: DEC.MoldUdpDecoder)
    requires source.Valid() && !source.eof && source.emitted == []
    requires decoder.Valid() && decoder.Now() == Start(1)
    requires source as object !in decoder.Footprint() && source.packetBuf as object !in decoder.Footprint()
    requires source.packetBuf as object != decoder.gapBuffer.slots
    requires Accepts(decoder.Room(), SRC.ReadFile(source.input, source.policy).messages)
    modifies source, source.packetBuf, decoder, decoder.gapBuffer, decoder.gapBuffer.slots, decoder.Footprint()
    ensures decoder.Valid() && decoder.history == SRC.ReadFile(source.input, source.policy).messages
    ensures decoder.health == Good && decoder.terminal == Ok && decoder.next == 1 + |decoder.history|
    ensures IR.Replay(decoder.Room(), IR.START_OF_DAY, decoder.history) == Some(decoder.parser.Now())
  {
    hide DEC.MoldUdpDecoder.Valid, SRC.ItchMoldUdpSource.Valid, SRC.ReadFile, Run, Accepts, WellSent, Feed, Between;
    hide Storable;
    var ps := Emitted(source, sizes, decoder);
    var ds: seq<seq<byte>> := seq(|ps|, i requires 0 <= i < |ps| => ps[i].data);
    ghost var x := Session(source.session, 1, ps);
    assert ds == Datagrams(x, |ps|);
    DEC.StartIsBetween(decoder);
    decoder.ProcessAll(ds);
    CleanRun(x, |ps|, decoder.Env());
    EdgeCountsFeed(x, |ps|);
    decoder.DayReplayed();
  }

  /** EmitAll beside a decoder it does not touch. */
  method Emitted(source: SRC.ItchMoldUdpSource, sizes: seq<u16>, decoder: DEC.MoldUdpDecoder) returns (ps: seq<Packet>)
    requires source.Valid() && !source.eof && source.emitted == [] && decoder.Valid()
    requires source as object !in decoder.Footprint() && source.packetBuf as object !in decoder.Footprint()
    requires source.packetBuf as object != decoder.gapBuffer.slots
    modifies source, source.packetBuf
    ensures decoder.Valid() && decoder.Now() == old(decoder.Now()) && decoder.Footprint() == old(decoder.Footprint())
    ensures WellSent(Session(source.session, 1, ps))
    ensures Feed(Session(source.session, 1, ps), |ps|) == SRC.ReadFile(source.input, source.policy).messages
  {
    hide DEC.MoldUdpDecoder.Valid, SRC.ItchMoldUdpSource.Valid, SRC.ReadFile, WellSent, Feed, Storable;
    ps := EmitAll(source, sizes);
  }

  lemma {:induction false} EdgeCountsFeed(x: Session, k: nat)
    requires WellSent(x) && k <= |x.packets|
    ensures Edge(x, k) == x.initial + |Feed(x, k)|
  {
    hide Unframe;
    if k > 0 {
      EdgeCountsFeed(x, k - 1);
      assert Sent(x, k - 1);
    }
  }
}
