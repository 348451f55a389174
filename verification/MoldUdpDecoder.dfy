/** The decoder: binds the session, validates and sequences datagrams, and feeds the parser.
    Proved against the channel of Sequencing. */
module MoldUdpDecoder {
  import opened Types
  import opened ItchWire
  import opened MoldWire
  import opened GapBuffer
  import opened Sequencing
  import opened SequencingRuns
  import IR = ItchReference
  import IP = ItchParser
  import opened ReferenceBook
  import LM = LineMerge
  import AP = AnyPackets
  import CL = ChannelLaws
  import BM = BookManager

  function StatusOf(f: Framing): DecodeStatus {
    match f
    case Framed(_) => Ok
    case Malformed(status) => status
  }

  /** Checks the whole framing and every message length before anything is applied or stored. */
  method ValidateSequencedPacket(d: seq<byte>, count: u16) returns (r: DecodeStatus)
    requires |d| >= HEADER_SIZE
    ensures r == StatusOf(Unframe(d, HEADER_SIZE, count))
  {
    var offset := HEADER_SIZE;
    for i := 0 to count
      invariant HEADER_SIZE <= offset <= |d|
      invariant StatusOf(Unframe(d, HEADER_SIZE, count)) == StatusOf(Unframe(d, offset, count - i))
    {
      hide ReadU16, ExpectedLength;
      if offset + 2 > |d| {
        return InvalidSize;
      }
      var length := ReadU16(d, offset);
      offset := offset + 2;
      if length == 0 || length > |d| - offset {
        return InvalidSize;
      }
      var expected := ExpectedLength(d[offset]);
      if expected == 0 || length != expected {
        return InvalidItchMessage;
      }
      offset := offset + length;
    }
    if offset != |d| {
      return InvalidSize;
    }
    return Ok;
  }

  /** The messages of a valid packet after its first `skip`. */
  ghost predicate Behind(d: seq<byte>, count: u16, skip: nat, ms: seq<Message>) {
    && |d| >= HEADER_SIZE && Unframe(d, HEADER_SIZE, count).Framed?
    && skip <= |Unframe(d, HEADER_SIZE, count).messages|
    && ms == Unframe(d, HEADER_SIZE, count).messages[skip..]
  }

  ghost predicate InOrderIs(z: Sizes, c: Channel, end: u64, ms: seq<Message>, a: Answer) {
    z.Valid() && Sound(c) && AllMessages(ms) && InOrder(c, end, ms, z) == a
  }

  ghost predicate PullIs(z: Sizes, c: Channel, s: u64, a: Answer) {
    z.Valid() && Sound(c) && s in c.buffer && s <= c.next && Pull(c, s, z) == a
  }

  /** A delivery seen from the method: what it took, how it ended, and that the reference agrees. */
  ghost predicate TookFrom(z: Sizes, c: Channel, c': Channel, ms: seq<Message>, status: DecodeStatus) {
    var taken := |c'.history| - |c.history|;
    && z.Valid() && AllMessages(c'.history) && Accepts(z, c'.history)
    && 0 <= taken <= |ms| && (status == Ok || status == InvalidItchMessage)
    && (status == Ok <==> taken == |ms|)
    && (taken < |ms| ==> AllMessages(c'.history + [ms[taken]]) && !Accepts(z, c'.history + [ms[taken]]))
    && c' == c.(history := c.history + ms[..taken], health := if status == Ok then c.health else Invalid)
  }

  lemma TookIsDelivered(z: Sizes, c: Channel, c': Channel, end: u64, ms: seq<Message>, status: DecodeStatus)
    requires z.Valid() && Sound(c) && AllMessages(ms) && TookFrom(z, c, c', ms, status)
    ensures Delivered(c, end, ms, z) == Answer(if status == Ok then c'.(next := end) else c', status, false)
  {
    hide AllStorable, Accepts, Taken;
    var taken := |c'.history| - |c.history|;
    assert status == Ok ==> ms[..taken] == ms;
    TakenIs(c.history, ms, z, taken);
  }

  /** The objects the parser may change. */
  ghost function FootprintOf(parser: IP.ItchParser): set<object>
    reads parser.books
  {
    {parser, parser.symbols, parser.symbols.entries, parser.symbols.index, parser.books} +
    parser.books.repr + parser.books.Roots()
  }

  class MoldUdpDecoder {
    const parser: IP.ItchParser
    const gapBuffer: GapBuffer
    var firstPacketSeen: bool
    var session: seq<byte>
    var next: u64
    var watermark: u64
    var pendingEnd: u64
    var health: Health
    var phase: IR.Phase
    var terminal: DecodeStatus
    // The messages the parser accepted, and the one it refused.
    ghost var history: seq<Message>
    ghost var refused: Option<Message>

    ghost function Footprint(): set<object>
      reads parser.books
    {
      FootprintOf(parser)
    }

    /** The footprint has only grown by new objects. */
    twostate predicate Grown()
      reads parser.books
    {
      forall o :: o in Footprint() && o !in old(Footprint()) ==> fresh(o)
    }

    ghost function Room(): Sizes { parser.Room() }

    ghost function Env(): Setting { Setting(gapBuffer.capacity, Room()) }

    ghost function Now(): Channel
      reads this, gapBuffer
    {
      Channel(if firstPacketSeen then Some(session) else None,
              next, watermark, pendingEnd, health, terminal, gapBuffer.contents, history)
    }

    ghost predicate Apart()
      reads parser.books
    {
      && this as object !in Footprint() && gapBuffer as object !in Footprint() &&
         gapBuffer.slots as object !in Footprint()
    }

    /** The day is that of the accepted messages, or what refusing the last one left of it. */
    ghost predicate Valid()
      reads this, gapBuffer, gapBuffer.slots, Footprint(), parser.books
    {
      && Apart() && parser.Ready() && gapBuffer.Valid() && Sound(Now()) && Room().Valid()
      && Tracks(Room(), history, parser.Now(), health, refused) && phase == parser.phase
    }

    constructor (parser: IP.ItchParser, gapBuffer: GapBuffer, initial: u64)
      requires parser.Ready() && parser.Now() == IR.START_OF_DAY && parser.lastError == IP.NoError
      requires gapBuffer.Valid() && gapBuffer.contents == map[]
      requires gapBuffer as object !in FootprintOf(parser) && gapBuffer.slots as object !in FootprintOf(parser)
      ensures Valid() && Now() == Start(initial)
      ensures this.parser == parser && this.gapBuffer == gapBuffer
    {
      hide GapBuffer.Valid, IP.ItchParser.Ready, Tracks, Sound;
      StartSound(initial);
      assert parser.Room().Valid() by { parser.RoomIsValid(); }
      StartTracks(parser.Room());
      this.parser, this.gapBuffer := parser, gapBuffer;
      firstPacketSeen, session, next, watermark, pendingEnd := false, [], initial, 0, 0;
      health, phase, terminal := Good, IR.WaitingStartOfMessages, Ok;
      history, refused := [], None;
      new;
      assert Apart() by {
        assert this as object !in parser.books.repr;
        assert this as object !in parser.books.Roots();
      }
      assert parser.Ready();
      assert Tracks(Room(), history, parser.Now(), health, refused);
    }

    method TerminalFailure(status: DecodeStatus) returns (r: DecodeStatus)
      requires Valid() && status != Ok
      modifies this`health, this`terminal
      ensures Valid() && Failed(old(Now()), status) == Answer(Now(), r, false)
    {
      hide IP.ItchParser.Ready, GapBuffer.Valid, IR.Replay;
      health := Invalid;
      terminal := status;
      return status;
    }

    /** The parser's part of a delivery. */
    method Parse(m: Message) returns (ok: bool)
      requires Apart() && parser.Ready() && gapBuffer.Valid() && IsMessage(m) && Room().Valid()
      modifies Footprint()
      ensures Apart() && parser.Ready() && gapBuffer.Valid() && Grown() && ok == (parser.lastError == IP.NoError)
      ensures Now() == old(Now())
      ensures IP.Handled(IR.Step(Room(), old(parser.Now()), m), parser.Now(), parser.lastError)
    {
      hide IP.ItchParser.Ready, GapBuffer.Valid, IR.Step, IP.Handled, IsMessage;
      parser.HandlePrevalidatedMessage(m);
      return parser.lastError == IP.NoError;
    }

    /** Hands one validated message to the parser. */
    method HandleOne(m: Message) returns (ok: bool)
      requires Valid() && IsMessage(m) && health != Invalid
      modifies this, Footprint()
      ensures Valid() && Grown()
      ensures Now() == if ok then old(Now()).(history := old(history) + [m]) else old(Now()).(health := Invalid)
      ensures refused == if ok then old(refused) else Some(m)
      ensures AllMessages(history) && AllMessages(history + [m])
      ensures Accepts(Room(), history) && (!ok ==> !Accepts(Room(), history + [m]))
    {
      hide IP.ItchParser.Ready, GapBuffer.Valid, IR.Step, IP.Handled, IsMessage, AllStorable, Tracks;
      ghost var day := parser.Now();
      ok := Parse(m);
      HandledOne(Room(), history, day, parser.Now(), m, health, refused, parser.lastError);
      Record(m, ok);
    }

    /** Notes what the parser made of a message. */
    method Record(m: Message, ok: bool)
      requires Apart() && parser.Ready() && gapBuffer.Valid() && Sound(Now()) && IsMessage(m)
      requires Room().Valid() && if ok then Tracks(Room(), history + [m], parser.Now(), health, refused)
               else Tracks(Room(), history, parser.Now(), Invalid, Some(m))
      modifies this
      ensures Valid()
      ensures Now() == if ok then old(Now()).(history := old(history) + [m]) else old(Now()).(health := Invalid)
      ensures refused == if ok then old(refused) else Some(m)
    {
      hide IP.ItchParser.Ready, GapBuffer.Valid, IsMessage, AllStorable, Tracks;
      phase := parser.phase;
      if ok {
        history := history + [m];
      } else {
        health, refused := Invalid, Some(m);
      }
    }

    /** Walks the blocks of a valid packet and hands on the messages from `start` on. */
    method ProcessSequencedPacket(d: seq<byte>, first: u64, count: u16, start: u64) returns (status: DecodeStatus)
      requires Valid() && health != Invalid && |d| >= HEADER_SIZE && Unframe(d, HEADER_SIZE, count).Framed?
      requires first <= start <= first + count
      modifies this, Footprint()
      ensures Valid() && Grown()
      ensures var ms := Unframe(d, HEADER_SIZE, count).messages;
              |ms| == count && TookFrom(Room(), old(Now()), Now(), ms[start - first..], status)
      ensures status == Ok ==> refused == old(refused)
      ensures status != Ok ==> refused.Some?
    {
      hide Valid, Footprint, Unframe, ReadU16, TookFrom, Handed, IsMessage, Accepts, AllStorable;
      ghost var ms := Unframe(d, HEADER_SIZE, count).messages;
      Unframed(d, count);
      ghost var c, skip := Now(), start - first;
      IsSound();
      HandedNone(Room(), c, ms, skip);
      if start < first || start > first + count {
        return InvalidSequence;
      }
      var offset := HEADER_SIZE;
      for i := 0 to count
        invariant Valid() && Grown() && health != Invalid && refused == old(refused)
        invariant HEADER_SIZE <= offset <= |d| && Unframe(d, offset, count - i) == Framed(ms[i..])
        invariant Handed(Room(), c, Now(), ms, skip, i)
      {
        FirstBlock(d, offset, count - i, ms[i..]);
        HandedNext(Room(), c, Now(), ms, skip, i);
        if offset + 2 > |d| {
          return InvalidSize;
        }
        var length := ReadU16(d, offset);
        offset := offset + 2;
        if length == 0 || offset + length > |d| {
          return InvalidSize;
        }
        if first + i >= start {
          var ok := HandleOne(d[offset..offset + length]);
          if !ok {
            return InvalidItchMessage;
          }
        }
        offset := offset + length;
      }
      HandedAll(Room(), c, Now(), ms, skip);
      return Ok;
    }

    method Lookup(s: u64) returns (r: Option<Packet>)
      requires Valid()
      ensures Valid() && Now() == old(Now()) && Footprint() == old(Footprint())
      ensures r == if s in gapBuffer.contents then Some(gapBuffer.contents[s]) else None
    {
      hide GapBuffer.Valid, IP.ItchParser.Ready, Tracks, Storable;
      r := gapBuffer.Find(s);
    }

    /** The nearest buffered packet that starts at or at most 144 below `next`. */
    method FindCandidate() returns (r: Option<Packet>)
      requires Valid()
      ensures Valid() && Now() == old(Now()) && Footprint() == old(Footprint())
      ensures match Candidate(Now())
              case None => r == None
              case Some(s) => r == Some(gapBuffer.contents[s])
    {
      hide Valid, Footprint;
      var far := Reach(next);
      for distance := 0 to far + 1
        invariant Valid() && Now() == old(Now()) && Footprint() == old(Footprint())
        invariant distance <= far ==> Candidate(Now()) == Nearest(gapBuffer.contents, next, distance, far)
        invariant distance == far + 1 ==> Candidate(Now()) == None
      {
        r := Lookup(next - distance);
        if r.Some? {
          return;
        }
      }
      return None;
    }

    /** Takes a buffered packet out, delivering what it holds beyond `next`. */
    method PullPacket(p: Packet) returns (status: DecodeStatus)
      requires Valid() && health != Invalid && p.seqNo in gapBuffer.contents && gapBuffer.contents[p.seqNo] == p
      requires p.seqNo <= next
      modifies this, gapBuffer, gapBuffer.slots, Footprint()
      ensures Valid() && Grown() && (status == Ok || (status == InvalidItchMessage && refused.Some?))
      ensures status == Ok ==> health == old(health)
      ensures |gapBuffer.contents| < |old(gapBuffer.contents)|
      ensures PullIs(Room(), old(Now()), p.seqNo, Answer(Now(), status, false))
    {
      hide Valid, Unframe, Footprint, Pull, TookFrom, Delivered, Sound, Storable, MessagesOf, Accepts;
      IsSound();
      StoredForm(Now(), p.seqNo);
      ghost var c := Now();
      if p.seqNo + p.msgCount <= next {
        PullOld(Room(), c, p.seqNo);
        EraseStored(p.seqNo);
        return Ok;
      }
      status := ProcessSequencedPacket(p.data, p.seqNo, p.msgCount, next);
      PullTook(Room(), c, p.seqNo, Now(), status);
      EraseStored(p.seqNo);
      if status == Ok {
        Advance(p.seqNo + p.msgCount);
      }
    }

    lemma IsSound()
      requires Valid()
      ensures Sound(Now()) && Room().Valid() && Accepts(Room(), history)
    {
      hide IP.ItchParser.Ready, GapBuffer.Valid, Storable, IR.Replay, IR.Step;
    }

    method EraseStored(s: u64)
      requires Valid()
      modifies gapBuffer, gapBuffer.slots
      ensures Valid() && Now() == old(Now()).(buffer := old(Now()).buffer - {s}) && Footprint() == old(Footprint())
    {
      hide IP.ItchParser.Ready, GapBuffer.Valid, Tracks, Sound;
      EraseKeepsSound(Now(), s);
      gapBuffer.Erase(s);
      assert parser.Ready() && gapBuffer.Valid() && Apart();
    }

    method Advance(end: u64)
      requires Valid()
      modifies this`next
      ensures Valid() && Now() == old(Now()).(next := end)
    {
      hide IP.ItchParser.Ready, GapBuffer.Valid, Tracks, Storable;
      next := end;
    }

    /** Each round takes one packet out of the buffer or returns. */
    method DrainGapBuffer() returns (status: DecodeStatus)
      requires Valid() && health != Invalid
      modifies this, gapBuffer, gapBuffer.slots, Footprint()
      ensures Valid() && Grown() && (status == Ok || (status == InvalidItchMessage && refused.Some?))
      ensures Drain(old(Now()), Room()) == Answer(Now(), status, false)
    {
      hide Valid, Footprint, Pull, Drain, Candidate, Storable, GapBuffer.Valid;
      ghost var c := Now();
      IsSound();
      while true
        invariant Valid() && Grown() && health != Invalid
        invariant Sound(c) && Sound(Now())
        invariant Drain(c, Room()) == Drain(Now(), Room())
        decreases |gapBuffer.contents|
      {
        var candidate := FindCandidate();
        ghost var before := Now();
        if candidate.None? {
          DrainDone(Room(), before);
          return Ok;
        }
        assert candidate.value.seqNo == Candidate(before).value by { SoundStorable(before, Candidate(before).value); }
        var pulled := PullPacket(candidate.value);
        IsSound();
        DrainPulled(Room(), before, candidate.value.seqNo, Now(), pulled);
        if pulled != Ok {
          return pulled;
        }
      }
    }

    /** Records what is outstanding. */
    method Mark(health: Health, watermark: u64, pendingEnd: u64)
      requires Valid() && (this.health == Invalid <==> health == Invalid)
      modifies this`health, this`watermark, this`pendingEnd
      ensures Valid() && Now() == old(Now()).(health := health, watermark := watermark, pendingEnd := pendingEnd)
    {
      hide IP.ItchParser.Ready, GapBuffer.Valid, Storable, IR.Replay, IR.Step;
      this.health, this.watermark, this.pendingEnd := health, watermark, pendingEnd;
    }

    method AcceptEnd()
      requires Valid()
      modifies this`terminal
      ensures Valid() && Now() == old(Now()).(terminal := EndOfStream)
    {
      hide IP.ItchParser.Ready, GapBuffer.Valid, Storable, Tracks;
      terminal := EndOfStream;
    }

    lemma PhaseTracked()
      requires Valid()
      ensures AllMessages(history) && PhaseAfter(Room(), history) == phase && gapBuffer.Valid()
    {
      hide IP.ItchParser.Ready, GapBuffer.Valid, Sound, Tracks, PhaseAfter, IR.Step;
      TracksPhase(Room(), history, parser.Now(), health, refused);
    }

    /** Health and watermark once the drain is done. */
    method Settle()
      requires Valid()
      modifies this`watermark, this`health, this`pendingEnd
      ensures Valid() && Now() == Settled(old(Now()))
    {
      hide Valid, GapBuffer.Valid;
      PhaseTracked();
      if health != Invalid && health != Stale {
        var outstanding := if watermark != 0 && next >= watermark then 0 else watermark;
        Mark(if gapBuffer.Empty() && outstanding == 0 then Good else Recovering, outstanding, pendingEnd);
      }
    }

    /** The verdict on an end marker that came ahead of its gap. */
    method ResolvePendingEndOfStream() returns (status: DecodeStatus)
      requires Valid()
      modifies this`pendingEnd, this`terminal, this`health, this`watermark
      ensures Valid() && (status != Ok && status != EndOfStream ==> Now() == old(Now()) && status != InvalidItchMessage)
      ensures forall hadGap :: Resolved(old(Now()), hadGap, Room()) ==
                if status == Ok || status == EndOfStream then Answer(Now(), status, hadGap) else Failed(Now(), status)
    {
      hide Valid, GapBuffer.Valid, PhaseAfter, Storable;
      PhaseTracked();
      IsSound();
      if pendingEnd == 0 || next < pendingEnd {
        return Ok;
      }
      if next > pendingEnd {
        return InvalidSequence;
      }
      if health != Good || !gapBuffer.Empty() || watermark != 0 {
        return Ok;
      }
      if phase != IR.EndOfMessages {
        return IncompleteSession;
      }
      Mark(health, watermark, 0);
      AcceptEnd();
      return EndOfStream;
    }

    method ProcessHeartbeat(first: u64) returns (status: DecodeStatus, hadGap: bool)
      requires Valid()
      modifies this
      ensures Valid() && Heartbeat(old(Now()), first) == Answer(Now(), status, hadGap) && status != InvalidItchMessage
      ensures first > old(next) && (old(pendingEnd) == 0 || first <= old(pendingEnd)) ==>
                status == Ok && hadGap && watermark >= first && watermark >= old(watermark) && health != Good
    {
      hide Valid, GapBuffer.Valid;
      PhaseTracked();
      if pendingEnd != 0 && first > pendingEnd {
        status := TerminalFailure(InvalidSequence);
        return status, false;
      }
      if first > next {
        Mark(if health != Stale && health != Invalid then GapDetected else health, Max(watermark, first), pendingEnd);
        return Ok, true;
      }
      if watermark != 0 && next >= watermark {
        Mark(if gapBuffer.Empty() && health != Invalid && health != Stale then Good else health, 0, pendingEnd);
      }
      return Ok, false;
    }

    method ProcessEndMarker(first: u64) returns (status: DecodeStatus, hadGap: bool)
      requires Valid()
      modifies this
      ensures Valid() && EndMarker(old(Now()), first, Room()) == Answer(Now(), status, hadGap) &&
              status != InvalidItchMessage
    {
      hide Valid, GapBuffer.Valid, PhaseAfter, Storable;
      PhaseTracked();
      IsSound();
      if first < next || (pendingEnd != 0 && pendingEnd != first) || watermark > first {
        status := TerminalFailure(InvalidSequence);
        return status, false;
      }
      if first > next {
        if phase == IR.EndOfMessages || health == Invalid || health == Stale {
          status := TerminalFailure(InvalidSequence);
          return status, false;
        }
        Mark(GapDetected, Max(watermark, first), first);
        return Ok, true;
      }
      if health != Good || !gapBuffer.Empty() || watermark != 0 {
        status := TerminalFailure(InvalidSequence);
        return status, false;
      }
      if phase != IR.EndOfMessages {
        status := TerminalFailure(IncompleteSession);
        return status, false;
      }
      AcceptEnd();
      return EndOfStream, false;
    }

    method Store(p: Packet) returns (r: InsertResult)
      requires Valid() && (|p.data| <= MAX_PACKET_SIZE ==> Storable(p))
      modifies gapBuffer, gapBuffer.slots
      ensures Valid() && r == InsertOutcome(old(gapBuffer.contents), gapBuffer.capacity, p)
      ensures Now() == if r == Inserted then old(Now()).(buffer := old(gapBuffer.contents)[p.seqNo := p])
              else old(Now())
    {
      hide IP.ItchParser.Ready, GapBuffer.Valid, Storable, Tracks, Sound;
      StoreKeepsSound(Now(), p);
      r := gapBuffer.Insert(p.data, p.seqNo, p.msgCount);
      assert parser.Ready() && gapBuffer.Valid() && Apart();
    }

    /** Buffers a valid packet that starts behind a gap. */
    method ProcessAhead(d: seq<byte>, first: u64, count: u16) returns (status: DecodeStatus, hadGap: bool)
      requires Valid() && health != Invalid && (|d| <= MAX_PACKET_SIZE ==> Storable(Packet(first, count, d)))
      modifies this, gapBuffer, gapBuffer.slots
      ensures Valid() && Ahead(old(Now()), Packet(first, count, d), gapBuffer.capacity) == Answer(Now(), status, hadGap)
      ensures status != InvalidItchMessage
    {
      hide Valid, GapBuffer.Valid, Storable, InsertOutcome;
      if health == Stale {
        return Ok, true;
      }
      Mark(GapDetected, watermark, pendingEnd);
      if |d| > MAX_PACKET_SIZE {
        status := TerminalFailure(InvalidSize);
        return status, false;
      }
      var inserted := Store(Packet(first, count, d));
      if inserted == ConflictingDuplicate {
        status := TerminalFailure(RedundantFeedMismatch);
        return status, false;
      }
      if inserted != DuplicateIdentical && inserted != Inserted {
        Mark(Stale, watermark, pendingEnd);
      }
      return Ok, true;
    }

    /** Delivers a valid packet with no gap before it, then whatever it frees. */
    method ProcessInOrder(d: seq<byte>, first: u64, count: u16, end: u64, ghost unseen: seq<Message>)
      returns (status: DecodeStatus, hadGap: bool)
      requires Valid() && health != Invalid && first <= next < end == first + count
      requires Behind(d, count, next - first, unseen) && AllMessages(unseen)
      modifies this, gapBuffer, gapBuffer.slots, Footprint()
      ensures Valid() && Grown() && (status == InvalidItchMessage ==> refused.Some?)
      ensures InOrderIs(Room(), old(Now()), end, unseen, Answer(Now(), status, hadGap))
    {
      hide Valid, Footprint, Unframe, Drain, Delivered, Settled, Resolved, InOrder, TookFrom, Storable;
      IsSound();
      ghost var c := Now();
      status := ProcessSequencedPacket(d, first, count, next);
      InOrderTook(Room(), c, end, unseen, Now(), status);
      if status != Ok {
        status := TerminalFailure(status);
        return status, false;
      }
      if health == GapDetected {
        Mark(Recovering, watermark, pendingEnd);
      }
      Advance(end);
      IsSound();
      hadGap := health == GapDetected || health == Recovering;
      status := DrainGapBuffer();
      if status != Ok {
        status := TerminalFailure(status);
        return status, false;
      }
      IsSound();
      Settle();
      status := ResolvePendingEndOfStream();
      if status != Ok && status != EndOfStream {
        status := TerminalFailure(status);
        return status, false;
      }
    }

    method Validate(d: seq<byte>, count: u16) returns (r: DecodeStatus)
      requires Valid() && |d| >= HEADER_SIZE
      ensures Valid() && Now() == old(Now()) && Footprint() == old(Footprint())
      ensures r == StatusOf(Unframe(d, HEADER_SIZE, count))
    {
      hide IP.ItchParser.Ready, GapBuffer.Valid, Storable, Tracks;
      r := ValidateSequencedPacket(d, count);
    }

    /** A datagram with messages. */
    method ProcessSequenced(d: seq<byte>) returns (status: DecodeStatus, hadGap: bool)
      requires Valid() && health != Invalid && |d| >= HEADER_SIZE && MessageCount(d) > 0
      modifies this, gapBuffer, gapBuffer.slots, Footprint()
      ensures Valid() && Grown()
      ensures status == InvalidItchMessage ==> refused.Some? || Contents(d) == Malformed(InvalidItchMessage)
      ensures Sequenced(old(Now()), d, Env()) == Answer(Now(), status, hadGap)
    {
      hide Valid, Footprint, Unframe, InOrder, Ahead, ReadU16, ReadU64;
      IsSound();
      var first, count := FirstSequence(d), MessageCount(d);
      if first > U64_MAX - count {
        status := TerminalFailure(InvalidSequence);
        return status, false;
      }
      status := Validate(d, count);
      if status != Ok {
        status := TerminalFailure(status);
        return status, false;
      }
      Unframed(d, count);
      if pendingEnd != 0 && first + count > pendingEnd {
        status := TerminalFailure(InvalidSequence);
        return status, false;
      }
      if first + count <= next {
        return Ok, false;
      }
      if first > next {
        status, hadGap := ProcessAhead(d, first, count);
      } else {
        status, hadGap := ProcessInOrder(d, first, count, first + count, Contents(d).messages[next - first..]);
      }
    }

    /** Binds the first packet's session; later packets must belong to it. */
    method BindSession(d: seq<byte>) returns (ok: bool)
      requires Valid() && |d| >= HEADER_SIZE
      modifies this`firstPacketSeen, this`session
      ensures Valid() && ok == (old(Now()).session == None || old(Now()).session == Some(SessionOf(d)))
      ensures Now() == if ok then old(Now()).(session := Some(SessionOf(d))) else old(Now())
    {
      hide IP.ItchParser.Ready, GapBuffer.Valid, Storable, Tracks;
      if !firstPacketSeen {
        firstPacketSeen := true;
        session := SessionOf(d);
        return true;
      }
      return session == SessionOf(d);
    }

    /** One arriving datagram, exactly as the channel of Sequencing prescribes. */
    method ProcessPacket(d: seq<byte>) returns (status: DecodeStatus, hadGap: bool)
      requires Valid() && (terminal == Ok ==> health != Invalid)
      modifies this, gapBuffer, gapBuffer.slots, Footprint()
      ensures Valid() && Grown()
      ensures status == InvalidItchMessage && old(terminal) == Ok ==>
                refused.Some? || (|d| >= HEADER_SIZE && Contents(d) == Malformed(InvalidItchMessage))
      ensures Process(old(Now()), d, Env()) == Answer(Now(), status, hadGap)
      ensures old(terminal) == Ok && (status == Ok || status == EndOfStream) ==>
                && |d| >= HEADER_SIZE
                && (hadGap <==>
                      || FirstSequence(d) > old(next)
                      || (AP.Covers(d, old(next)) && (old(health) == GapDetected || old(health) == Recovering)))
      ensures old(terminal) == Ok && |d| == HEADER_SIZE && MessageCount(d) == 0 && FirstSequence(d) > old(next) &&
              (old(firstPacketSeen) ==> old(session) == SessionOf(d)) &&
              (old(pendingEnd) == 0 || FirstSequence(d) <= old(pendingEnd)) ==>
                status == Ok && hadGap && health != Good
    {
      hide Valid, Footprint, Process, ReadU16, ReadU64, Storable;
      IsSound();
      ghost var c, e := Now(), Env();
      status, hadGap := Receive(d);
      FlagMeans(c, d, e, status, hadGap);
      HeartbeatMeans(c, d, e);
    }

    /** The cases of one arriving datagram. */
    method Receive(d: seq<byte>) returns (status: DecodeStatus, hadGap: bool)
      requires Valid() && (terminal == Ok ==> health != Invalid)
      modifies this, gapBuffer, gapBuffer.slots, Footprint()
      ensures Valid() && Grown()
      ensures status == InvalidItchMessage && old(terminal) == Ok ==>
                refused.Some? || (|d| >= HEADER_SIZE && Contents(d) == Malformed(InvalidItchMessage))
      ensures Process(old(Now()), d, Env()) == Answer(Now(), status, hadGap)
    {
      hide Valid, Footprint, Unframe, Sequenced, Heartbeat, EndMarker, ReadU16, ReadU64, Storable;
      IsSound();
      if terminal != Ok {
        return terminal, false;
      }
      if |d| < HEADER_SIZE {
        return PacketTooSmall, false;
      }
      if (MessageCount(d) == 0 || MessageCount(d) == END_OF_SESSION) && |d| != HEADER_SIZE {
        status := TerminalFailure(InvalidSize);
        return status, false;
      }
      var bound := BindSession(d);
      if !bound {
        status := TerminalFailure(InvalidSession);
        return status, false;
      }
      if MessageCount(d) == END_OF_SESSION {
        status, hadGap := ProcessEndMarker(FirstSequence(d));
      } else if MessageCount(d) == 0 {
        status, hadGap := ProcessHeartbeat(FirstSequence(d));
      } else {
        status, hadGap := ProcessSequenced(d);
      }
    }

    /** A whole run of arrivals. */
    method ProcessAll(ds: seq<seq<byte>>)
      requires Valid() && Between(Now(), Room())
      modifies this, gapBuffer, gapBuffer.slots, Footprint()
      ensures Valid() && Grown() && Between(Now(), Room())
      ensures Now() == Run(old(Now()), ds, Env())
    {
      hide Valid, Footprint, Process, Between, Sound;
      ghost var c := Now();
      IsSound();
      BetweenFacts(Room(), c);
      for i := 0 to |ds|
        invariant Valid() && Grown() && Between(Now(), Room()) && Sound(c)
        invariant Now() == Run(c, ds[..i], Env())
      {
        BetweenFacts(Room(), Now());
        ProcessBetween(Now(), ds[i], Env());
        var _, _ := ProcessPacket(ds[i]);
        assert ds[..i + 1][..i] == ds[..i];
      }
      assert ds[..|ds|] == ds;
    }

    /** Unless it failed, the parser's day is the replay of what it was given. */
    lemma DayReplayed()
      requires Valid() && health != Invalid
      ensures Room().Valid() && AllMessages(history) &&
              IR.Replay(Room(), IR.START_OF_DAY, history) == Some(parser.Now())
    {
      hide IP.ItchParser.Ready, GapBuffer.Valid, Storable, IR.Replay, IR.Step;
    }

    /** An accepted end leaves every book empty. */
    lemma EndLeavesBooksEmpty(initial: u64, ds: seq<seq<byte>>)
      requires Valid() && Reached(Now(), initial, ds, Env()) && terminal == EndOfStream
      ensures parser.Now().events == "OSQMEC" && Advertised(ds, next) && parser.books.AllEmpty()
    {
      hide IP.ItchParser.Ready, GapBuffer.Valid, Storable, BM.BookManager.AllEmpty, Reached;
      EndIsComplete(Now(), parser.Now(), refused, initial, ds, Env());
      parser.NoOrdersLeft();
    }
  }

  // ----- What the object shows after any run --------------------------------------------

  /** `c` is where the arrivals `ds` lead from the start. */
  ghost predicate Reached(c: Channel, initial: u64, ds: seq<seq<byte>>, e: Setting) {
    e.Valid() && c == Run(Start(initial), ds, e)
  }

  /** The day of a channel that has not failed is the replay of what was delivered. */
  lemma DayIsReplay(c: Channel, day: IR.Day, refused: Option<Message>, initial: u64, ds: seq<seq<byte>>, e: Setting)
    requires e.Valid() && Reached(c, initial, ds, e) && Tracks(e.room, c.history, day, c.health, refused)
    requires c.terminal == Ok || c.terminal == EndOfStream
    ensures AllMessages(c.history) && IR.Replay(e.room, IR.START_OF_DAY, c.history) == Some(day)
  {
    hide IR.Replay, Run, Storable, NothingCoversNext;
    RunBetween(initial, ds, e);
  }

  /** Whatever the lines lost, repeated, reordered or cut differently, the day (phase, directory and
      books) is that of the stream delivered in order up to `next`. */
  lemma BooksFollowStream(c: Channel, day: IR.Day, refused: Option<Message>, initial: u64, ds: seq<seq<byte>>,
                          e: Setting, stream: seq<Message>)
    requires e.Valid() && Reached(c, initial, ds, e) && Tracks(e.room, c.history, day, c.health, refused)
    requires c.terminal == Ok || c.terminal == EndOfStream
    requires initial <= |stream| && (forall i :: 0 <= i < |ds| ==> Carries(ds[i], stream))
    ensures initial <= c.next <= |stream| && AllMessages(stream[initial..c.next])
    ensures IR.Replay(e.room, IR.START_OF_DAY, stream[initial..c.next]) == Some(day)
  {
    hide IR.Replay, Run, Carries, InStream, Tracks;
    DeliveredExactlyOnce(initial, ds, e, stream);
    DayIsReplay(c, day, refused, initial, ds, e);
  }

  /** After any arrivals of one session's packets, on any lines and in any order, the day is that of
      delivering in order the packets before the first one that has not arrived. */
  lemma BooksFollowPackets(c: Channel, day: IR.Day, refused: Option<Message>, x: LM.Session, ds: seq<seq<byte>>,
                           e: Setting)
    requires e.Valid() && Reached(c, x.initial, ds, e) && Tracks(e.room, c.history, day, c.health, refused)
    requires LM.WellSent(x) && (forall i :: 0 <= i < |ds| ==> LM.IsArrival(x, ds[i]))
    requires Accepts(e.room, LM.Feed(x, |x.packets|))
    requires forall j :: 0 <= j <= |ds| ==> LM.Fits(x, LM.Have(x, ds[..j]), e.capacity)
    ensures var k := LM.FirstMissing(LM.Have(x, ds), |x.packets|, 0);
            refused == None ==> IR.Replay(e.room, IR.START_OF_DAY, LM.Feed(x, k)) == Some(day)
  {
    hide IR.Replay, Run, LM.Feed, Storable, LM.Fits, LM.IsArrival, LM.Verdict, LM.Holds, LM.Open;
    LM.MergeIsConfluent(x, ds, e);
  }

  /** Two decoders that received the same datagrams of one stream, in any order, on lines that may
      cut the stream into different and overlapping packets and with any room for gaps, hold the
      same books as long as neither has failed or lost data. */
  lemma AnyPacketsSameBooks(c: Channel, c': Channel, day: IR.Day, day': IR.Day, refused: Option<Message>,
                            refused': Option<Message>, initial: u64, ds: seq<seq<byte>>, ds': seq<seq<byte>>,
                            e: Setting, e': Setting, stream: seq<Message>)
    requires e.Valid() && Reached(c, initial, ds, e) && Tracks(e.room, c.history, day, c.health, refused)
    requires e'.Valid() && Reached(c', initial, ds', e') && Tracks(e'.room, c'.history, day', c'.health, refused')
    requires e'.room == e.room && initial <= |stream| && (forall d :: d in ds <==> d in ds')
    requires forall i :: 0 <= i < |ds| ==> Carries(ds[i], stream)
    requires AP.Healthy(c) && AP.Healthy(c')
    ensures day == day'
  {
    hide IR.Replay, Run, Carries, Tracks;
    AP.AnyPacketsAgree(initial, ds, ds', e, e', stream);
    DayIsReplay(c, day, refused, initial, ds, e);
    DayIsReplay(c', day', refused', initial, ds', e');
  }

  /** Two decoders that received the same packets, each in its own order, hold the same books. */
  lemma SameArrivalsSameBooks(c: Channel, c': Channel, day: IR.Day, day': IR.Day, refused: Option<Message>,
                              refused': Option<Message>, x: LM.Session, ds: seq<seq<byte>>, ds': seq<seq<byte>>,
                              e: Setting)
    requires e.Valid() && Reached(c, x.initial, ds, e) && Tracks(e.room, c.history, day, c.health, refused)
    requires Reached(c', x.initial, ds', e) && Tracks(e.room, c'.history, day', c'.health, refused')
    requires LM.WellSent(x) && Accepts(e.room, LM.Feed(x, |x.packets|)) && (forall d :: d in ds <==> d in ds')
    requires forall i :: 0 <= i < |ds| ==> LM.IsArrival(x, ds[i])
    requires forall i :: 0 <= i < |ds'| ==> LM.IsArrival(x, ds'[i])
    requires forall j :: 0 <= j <= |ds| ==> LM.Fits(x, LM.Have(x, ds[..j]), e.capacity)
    requires forall j :: 0 <= j <= |ds'| ==> LM.Fits(x, LM.Have(x, ds'[..j]), e.capacity)
    ensures refused == None && refused' == None ==> day == day'
  {
    hide IR.Replay, Run, LM.Feed, Storable, LM.Fits, LM.IsArrival, LM.WellSent;
    LM.OrderDoesNotMatter(x, ds, ds', e);
  }

  /** The end of the session is accepted only after a complete day without live orders. */
  lemma EndIsComplete(c: Channel, day: IR.Day, refused: Option<Message>, initial: u64, ds: seq<seq<byte>>, e: Setting)
    requires e.Valid() && Reached(c, initial, ds, e) && Tracks(e.room, c.history, day, c.health, refused)
    requires c.terminal == EndOfStream
    ensures Advertised(ds, c.next) && day.events == "OSQMEC" && day.books.live == map[]
  {
    hide IR.Replay, Run, Storable, Tracks, Advertised;
    EndOfStreamIsComplete(initial, ds, e);
    DayIsReplay(c, day, refused, initial, ds, e);
  }

  lemma FlagMeans(c: Channel, d: seq<byte>, e: Setting, status: DecodeStatus, hadGap: bool)
    requires e.Valid() && Sound(c) && status == Process(c, d, e).status && hadGap == Process(c, d, e).hadGap
    ensures c.terminal == Ok && (status == Ok || status == EndOfStream) ==>
              && |d| >= HEADER_SIZE
              && (hadGap <==>
                    || FirstSequence(d) > c.next
                    || (AP.Covers(d, c.next) && (c.health == GapDetected || c.health == Recovering)))
  {
    hide Process, ReadU16, ReadU64, Storable;
    if c.terminal == Ok && (status == Ok || status == EndOfStream) { CL.GapFlag(c, d, e); }
  }

  lemma HeartbeatMeans(c: Channel, d: seq<byte>, e: Setting)
    requires e.Valid() && Sound(c)
    ensures c.terminal == Ok && |d| == HEADER_SIZE && MessageCount(d) == 0 && FirstSequence(d) > c.next &&
            (c.session.Some? ==> c.session.value == SessionOf(d)) &&
            (c.pendingEnd == 0 || FirstSequence(d) <= c.pendingEnd) ==>
              var a := Process(c, d, e); a.status == Ok && a.hadGap && a.channel.health != Good
  {
    hide Process, ReadU16, ReadU64, Storable;
    if c.terminal == Ok && |d| == HEADER_SIZE && MessageCount(d) == 0 && FirstSequence(d) > c.next &&
       (c.session.Some? ==> c.session.value == SessionOf(d)) &&
       (c.pendingEnd == 0 || FirstSequence(d) <= c.pendingEnd) {
      CL.HeartbeatAhead(c, d, e);
    }
  }

  lemma StartIsBetween(decoder: MoldUdpDecoder)
    requires decoder.Valid() && exists initial: u64 :: decoder.Now() == Start(initial)
    ensures decoder.Room().Valid() && Between(decoder.Now(), decoder.Room())
  {
    hide IP.ItchParser.Ready, GapBuffer.Valid, Storable, Tracks, Between;
    var initial: u64 :| decoder.Now() == Start(initial);
    StartBetween(initial, decoder.Room());
  }

  lemma BetweenFacts(z: Sizes, c: Channel)
    requires z.Valid() && Between(c, z)
    ensures Sound(c) && (c.terminal == Ok ==> c.health != Invalid)
  {
  }

  lemma InOrderTook(z: Sizes, c: Channel, end: u64, ms: seq<Message>, c': Channel, status: DecodeStatus)
    requires z.Valid() && Sound(c) && AllMessages(ms) && TookFrom(z, c, c', ms, status)
    ensures Sound(c') && (status == Ok || status == InvalidItchMessage) && (status == Ok ==> c'.health == c.health)
    ensures status != Ok ==> InOrder(c, end, ms, z) == Failed(c', status)
    ensures status == Ok ==>
              var c1 := c'.(next := end, health := if c.health == GapDetected then Recovering else c.health);
              && Sound(c1)
              && InOrder(c, end, ms, z) ==
                 var b := Drain(c1, z);
                 if b.status != Ok then Failed(b.channel, b.status)
                 else Resolved(Settled(b.channel), c1.health == Recovering, z)
  {
    hide Delivered, Drain, Storable, Settled, Resolved, Accepts;
    TookIsDelivered(z, c, c', end, ms, status);
  }

  lemma DrainDone(z: Sizes, c: Channel)
    requires z.Valid() && Sound(c) && Candidate(c).None?
    ensures Drain(c, z) == Answer(c, Ok, false)
  {
  }

  lemma DrainPulled(z: Sizes, c: Channel, s: u64, c': Channel, status: DecodeStatus)
    requires z.Valid() && Sound(c) && Sound(c') && Candidate(c) == Some(s) && Pull(c, s, z) == Answer(c', status, false)
    ensures Drain(c, z) == if status == Ok then Drain(c', z) else Answer(c', status, false)
  {
    hide Pull, Candidate, Storable;
  }

  lemma PullOld(z: Sizes, c: Channel, s: u64)
    requires z.Valid() && Sound(c) && s in c.buffer && s + c.buffer[s].msgCount <= c.next
    ensures Pull(c, s, z) == Answer(c.(buffer := c.buffer - {s}), Ok, false)
  {
  }

  lemma PullTook(z: Sizes, c: Channel, s: u64, c': Channel, status: DecodeStatus)
    requires z.Valid() && Sound(c) && s in c.buffer && s <= c.next < s + c.buffer[s].msgCount
    requires TookFrom(z, c, c', MessagesOf(c.buffer[s])[c.next - s..], status)
    ensures Pull(c, s, z) ==
            Answer((if status == Ok then c'.(next := s + c.buffer[s].msgCount) else c').(buffer := c.buffer - {s}),
                status, false)
    ensures (status == Ok ==> c'.health == c.health) && c'.buffer == c.buffer
    ensures status == Ok || status == InvalidItchMessage
  {
    hide Delivered, Unframe, MessagesOf, AllStorable, Accepts;
    assert Storable(c.buffer[s]) by { SoundStorable(c, s); }
    var rest := c.(buffer := c.buffer - {s});
    var end := s + c.buffer[s].msgCount;
    var ms := MessagesOf(c.buffer[s])[c.next - s..];
    assert Sound(rest) && c.buffer[s].seqNo == s by { SoundStorable(c, s); }
    TookIsDelivered(z, rest, c'.(buffer := rest.buffer), end, ms, status);
  }

  lemma SoundStorable(c: Channel, s: u64)
    requires Sound(c) && s in c.buffer
    ensures Storable(c.buffer[s]) && c.buffer[s].seqNo == s && Sound(c.(buffer := c.buffer - {s}))
  {
  }

  /** The first `i` messages have been walked, those from `skip` on handed over. */
  ghost predicate Handed(z: Sizes, c: Channel, c': Channel, ms: seq<Message>, skip: nat, i: nat)
    requires skip <= |ms| && i <= |ms|
  {
    && c' == c.(history := c.history + ms[skip..if i < skip then skip else i])
    && z.Valid() && AllMessages(c'.history) && Accepts(z, c'.history)
  }

  lemma HandedNone(z: Sizes, c: Channel, ms: seq<Message>, skip: nat)
    requires skip <= |ms| && z.Valid() && AllMessages(c.history) && Accepts(z, c.history)
    ensures Handed(z, c, c, ms, skip, 0)
  {
    hide Accepts;
    assert c.history + ms[skip..skip] == c.history;
  }

  lemma HandedNext(z: Sizes, c: Channel, c': Channel, ms: seq<Message>, skip: nat, i: nat)
    requires skip <= |ms| && i < |ms| && Handed(z, c, c', ms, skip, i) && c'.health != Invalid
    ensures ms[i..][0] == ms[i] && ms[i..][1..] == ms[i + 1..]
    ensures i < skip ==> Handed(z, c, c', ms, skip, i + 1)
    ensures i >= skip && AllMessages(c'.history + [ms[i]]) && Accepts(z, c'.history + [ms[i]]) ==>
              Handed(z, c, c'.(history := c'.history + [ms[i]]), ms, skip, i + 1)
    ensures i >= skip && AllMessages(c'.history + [ms[i]]) && !Accepts(z, c'.history + [ms[i]]) ==>
              TookFrom(z, c, c'.(health := Invalid), ms[skip..], InvalidItchMessage)
  {
    hide Accepts, IsMessage;
    if i >= skip {
      assert ms[skip..i] + [ms[i]] == ms[skip..i + 1];
      assert ms[skip..i] == ms[skip..][..i - skip];
      assert ms[skip..][i - skip] == ms[i];
    }
  }

  lemma HandedAll(z: Sizes, c: Channel, c': Channel, ms: seq<Message>, skip: nat)
    requires skip <= |ms| && Handed(z, c, c', ms, skip, |ms|)
    ensures TookFrom(z, c, c', ms[skip..], Ok)
  {
    hide Accepts;
    assert ms[skip..|ms|] == ms[skip..] == ms[skip..][..|ms| - skip];
  }

  /** The day is that of the accepted messages; after a refusal, what it left of that day. */
  ghost predicate Tracks(z: Sizes, history: seq<Message>, day: IR.Day, health: Health, refused: Option<Message>)
    requires z.Valid()
  {
    && AllMessages(history) && Accepts(z, history)
    && var replayed := IR.Replay(z, IR.START_OF_DAY, history).value;
       match refused
       case None => day == replayed
       case Some(m) =>
         health == Invalid && IsMessage(m) && IR.Step(z, replayed, m).Refuse? && day == IR.Step(z, replayed, m).day
  }

  /** Neither an accepted nor a refused message hides the phase of the accepted feed. */
  lemma TracksPhase(z: Sizes, history: seq<Message>, day: IR.Day, health: Health, refused: Option<Message>)
    requires z.Valid() && Tracks(z, history, day, health, refused)
    ensures AllMessages(history) && PhaseAfter(z, history) == day.phase
  {
    hide IR.Replay, IR.Step;
    if refused.Some? { IR.RefusalKeepsPhase(z, IR.Replay(z, IR.START_OF_DAY, history).value, refused.value); }
  }

  /** What a stored packet is known to be. */
  lemma StoredForm(c: Channel, s: u64)
    requires Sound(c) && s in c.buffer
    ensures var p := c.buffer[s];
            && p.seqNo == s && p.seqNo + p.msgCount <= U64_MAX && HEADER_SIZE <= |p.data| && Storable(p)
            && Unframe(p.data, HEADER_SIZE, p.msgCount) == Framed(MessagesOf(p))
  {
    hide Unframe;
  }

  lemma StoreKeepsSound(c: Channel, p: Packet)
    requires Sound(c) && (|p.data| <= MAX_PACKET_SIZE ==> Storable(p))
    ensures |p.data| <= MAX_PACKET_SIZE ==> Sound(c.(buffer := c.buffer[p.seqNo := p]))
  {
    hide Storable;
  }

  lemma EraseKeepsSound(c: Channel, s: u64)
    requires Sound(c)
    ensures Sound(c.(buffer := c.buffer - {s}))
  {
    hide Storable;
  }

  lemma StartSound(initial: u64)
    ensures Sound(Start(initial))
  {
  }

  lemma StartTracks(z: Sizes)
    requires z.Valid()
    ensures Tracks(z, [], IR.START_OF_DAY, Good, None)
  {
  }

  lemma HandledOne(z: Sizes, history: seq<Message>, day: IR.Day, day': IR.Day, m: Message, h: Health,
                   refused: Option<Message>, e: IP.ParseError)
    requires z.Valid() && IsMessage(m) && h != Invalid && Tracks(z, history, day, h, refused)
    requires IP.Handled(IR.Step(z, day, m), day', e)
    ensures AllMessages(history) && AllMessages(history + [m]) && Accepts(z, history)
    ensures e == IP.NoError <==> Accepts(z, history + [m])
    ensures e == IP.NoError ==> Tracks(z, history + [m], day', h, refused)
    ensures e != IP.NoError ==> Tracks(z, history, day', Invalid, Some(m))
  {
    hide IR.Step, IR.Replay;
    IR.ReplayOne(z, IR.START_OF_DAY, history, m);
  }
}
