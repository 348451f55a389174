/** The MoldUDP64 channel as a value: what one arriving datagram does to it.  The parser takes
    exactly the messages that continue an accepted feed of ItchReference. */
module Sequencing {
  import opened Types
  import opened ItchWire
  import opened MoldWire
  import IR = ItchReference
  import opened ReferenceBook
  import opened GapBuffer

  datatype Health = Good | GapDetected | Recovering | Stale | Invalid

  /** `history` lists the messages the parser accepted, in the order it saw them. */
  datatype Channel = Channel(
    session: Option<seq<byte>>,
    next: u64,
    watermark: u64,
    pendingEnd: u64,
    health: Health,
    terminal: DecodeStatus,
    buffer: map<u64, Packet>,
    history: seq<Message>)

  datatype Answer = Answer(channel: Channel, status: DecodeStatus, hadGap: bool)

  /** What the environment fixes: the slots of the gap buffer and the room of the books. */
  datatype Setting = Setting(capacity: nat, room: Sizes) {
    predicate Valid() { room.Valid() }
  }

  function Start(initial: u64): Channel {
    Channel(None, initial, 0, 0, Good, Ok, map[], [])
  }

  const MAX_MESSAGES_PER_PACKET: nat := (MAX_PACKET_SIZE - HEADER_SIZE) / (2 + 12)

  // ----- What is stored -----------------------------------------------------------------

  /** A packet that passed validation and fits a slot. */
  ghost predicate Storable(p: Packet) {
    && HEADER_SIZE <= |p.data| <= MAX_PACKET_SIZE
    && p.msgCount > 0 && p.seqNo + p.msgCount <= U64_MAX
    && Unframe(p.data, HEADER_SIZE, p.msgCount).Framed?
  }

  ghost predicate AllStorable(buffer: map<u64, Packet>) {
    forall s :: s in buffer ==> buffer[s].seqNo == s && Storable(buffer[s])
  }

  ghost predicate Sound(c: Channel) {
    AllStorable(c.buffer) && AllMessages(c.history)
  }

  ghost function MessagesOf(p: Packet): (ms: seq<Message>)
    requires Storable(p)
    ensures |ms| == p.msgCount <= MAX_MESSAGES_PER_PACKET && AllMessages(ms)
  {
    Unframed(p.data, p.msgCount);
    Unframe(p.data, HEADER_SIZE, p.msgCount).messages
  }

  lemma Unframed(d: seq<byte>, n: nat)
    requires HEADER_SIZE <= |d| && Unframe(d, HEADER_SIZE, n).Framed?
    ensures var ms := Unframe(d, HEADER_SIZE, n).messages;
            |ms| == n && HEADER_SIZE + 14 * n <= |d| && AllMessages(ms)
  {
    hide Unframe, Blocks;
    FewMessages(d, n);
    UnframeIsInverse(d, HEADER_SIZE, n, Unframe(d, HEADER_SIZE, n).messages);
  }

  // ----- Delivery -----------------------------------------------------------------------

  /** A feed the parser takes from the start of the day to its end. */
  ghost predicate Accepts(z: Sizes, history: seq<Message>)
    requires z.Valid() && AllMessages(history)
  {
    IR.Replay(z, IR.START_OF_DAY, history).Some?
  }

  /** The messages of `ms` the parser takes after `history`, up to the first it refuses. */
  ghost function Taken(history: seq<Message>, ms: seq<Message>, z: Sizes): (r: seq<Message>)
    requires z.Valid() && AllMessages(history) && AllMessages(ms)
    ensures r <= ms && AllMessages(r)
    decreases |ms|
  {
    if ms == [] || !Accepts(z, history + [ms[0]]) then []
    else [ms[0]] + Taken(history + [ms[0]], ms[1..], z)
  }

  /** How many messages are taken is decided by which prefixes are accepted. */
  lemma {:induction false} TakenIs(history: seq<Message>, ms: seq<Message>, z: Sizes, n: nat)
    requires z.Valid() && AllMessages(history) && AllMessages(ms) && n <= |ms| && AllMessages(history + ms[..n])
    requires Accepts(z, history + ms[..n])
    requires n < |ms| ==> AllMessages(history + ms[..n] + [ms[n]]) && !Accepts(z, history + ms[..n] + [ms[n]])
    ensures Taken(history, ms, z) == ms[..n]
    decreases |ms|
  {
    hide IR.Step, IsMessage, Accepts;
    if n > 0 {
      var h, rest := history + [ms[0]], ms[1..];
      PrefixAccepted(z, history + ms[..n], |history| + 1);
      ShiftOne(history, ms, n);
      TakenIs(h, rest, z, n - 1);
    } else if ms != [] {
      assert history + ms[..0] + [ms[0]] == history + [ms[0]];
    }
  }

  lemma ShiftOne(history: seq<Message>, ms: seq<Message>, n: nat)
    requires 0 < n <= |ms|
    ensures var h, rest := history + [ms[0]], ms[1..];
            && (history + ms[..n])[..|history| + 1] == h && history + ms[..n] == h + rest[..n - 1]
            && ms[..n] == [ms[0]] + rest[..n - 1]
            && (n < |ms| ==> history + ms[..n] + [ms[n]] == h + rest[..n - 1] + [rest[n - 1]])
  {
    assert ms[..n] == [ms[0]] + ms[1..][..n - 1];
  }

  lemma TakesAll(history: seq<Message>, ms: seq<Message>, z: Sizes)
    requires z.Valid() && AllMessages(history) && AllMessages(ms) && AllMessages(history + ms) &&
             Accepts(z, history + ms)
    ensures Taken(history, ms, z) == ms
  {
    hide Accepts, IsMessage;
    assert ms[..|ms|] == ms;
    TakenIs(history, ms, z, |ms|);
  }

  lemma PrefixAccepted(z: Sizes, history: seq<Message>, n: nat)
    requires z.Valid() && AllMessages(history) && n <= |history| && Accepts(z, history)
    ensures Accepts(z, history[..n])
  {
    hide IR.Replay, IsMessage;
    if n < |history| {
      IR.NothingAfterEnd(z, IR.START_OF_DAY, history, n);
    } else {
      assert history[..n] == history;
    }
  }

  /** Hands messages that start at `next` and end before `end` to the parser. */
  ghost function Delivered(c: Channel, end: u64, ms: seq<Message>, z: Sizes): (a: Answer)
    requires z.Valid() && Sound(c) && AllMessages(ms)
    ensures Sound(a.channel)
  {
    var taken := Taken(c.history, ms, z);
    var c' := c.(history := c.history + taken);
    if taken == ms then Answer(c'.(next := end), Ok, false)
    else Answer(c'.(health := Invalid), InvalidItchMessage, false)
  }

  /** The nearest stored start at distance `near` to `far` below `next`. */
  function Nearest(buffer: map<u64, Packet>, next: u64, near: nat, far: nat): (r: Option<u64>)
    requires near <= far <= next
    ensures r.Some? ==> r.value in buffer && next - far <= r.value <= next - near
    ensures forall s :: s in buffer && next - far <= s <= next - near ==> r.Some? && s <= r.value
    decreases far - near
  {
    if next - near in buffer then Some(next - near)
    else if near == far then None
    else Nearest(buffer, next, near + 1, far)
  }

  function Reach(next: u64): (r: nat)
    ensures r <= next
  {
    if next < MAX_MESSAGES_PER_PACKET then next else MAX_MESSAGES_PER_PACKET
  }

  function Candidate(c: Channel): (r: Option<u64>)
    ensures r.Some? ==> r.value in c.buffer && r.value <= c.next
  {
    Nearest(c.buffer, c.next, 0, Reach(c.next))
  }

  /** Takes the stored packet that starts at `s` out and delivers what it holds beyond `next`. */
  ghost function Pull(c: Channel, s: u64, z: Sizes): (a: Answer)
    requires z.Valid() && Sound(c) && s in c.buffer && s <= c.next
    ensures Sound(a.channel) && a.channel.buffer == c.buffer - {s}
  {
    var p := c.buffer[s];
    var rest := c.(buffer := c.buffer - {s});
    if p.seqNo + p.msgCount <= c.next then Answer(rest, Ok, false)
    else Delivered(rest, p.seqNo + p.msgCount, MessagesOf(p)[c.next - p.seqNo..], z)
  }

  /** Pulls stored packets as long as one starts at or shortly before `next`. */
  ghost function Drain(c: Channel, z: Sizes): (a: Answer)
    requires z.Valid() && Sound(c)
    ensures Sound(a.channel)
    decreases |c.buffer|
  {
    match Candidate(c)
    case None => Answer(c, Ok, false)
    case Some(s) =>
      var a := Pull(c, s, z);
      if a.status == Ok then Drain(a.channel, z) else a
  }

  // ----- One datagram -------------------------------------------------------------------

  function Failed(c: Channel, status: DecodeStatus): Answer {
    Answer(c.(health := Invalid, terminal := status), status, false)
  }

  ghost function PhaseAfter(z: Sizes, history: seq<Message>): IR.Phase
    requires z.Valid() && AllMessages(history)
  {
    match IR.Replay(z, IR.START_OF_DAY, history)
    case None => IR.WaitingStartOfMessages
    case Some(d) => d.phase
  }

  function Max(a: u64, b: u64): u64 { if a > b then a else b }

  /** An end-of-session marker. */
  ghost function EndMarker(c: Channel, first: u64, z: Sizes): (a: Answer)
    requires z.Valid() && Sound(c)
    ensures Sound(a.channel)
  {
    if first < c.next || (c.pendingEnd != 0 && c.pendingEnd != first) || c.watermark > first then
      Failed(c, InvalidSequence)
    else if first > c.next then
      if PhaseAfter(z, c.history) == IR.EndOfMessages || c.health == Invalid || c.health == Stale then
        Failed(c, InvalidSequence)
      else
        Answer(c.(pendingEnd := first, watermark := Max(c.watermark, first), health := GapDetected), Ok, true)
    else if c.health != Good || c.buffer != map[] || c.watermark != 0 then Failed(c, InvalidSequence)
    else if PhaseAfter(z, c.history) != IR.EndOfMessages then Failed(c, IncompleteSession)
    else Answer(c.(terminal := EndOfStream), EndOfStream, false)
  }

  function Heartbeat(c: Channel, first: u64): Answer {
    if c.pendingEnd != 0 && first > c.pendingEnd then Failed(c, InvalidSequence)
    else if first > c.next then
      Answer(c.(watermark := Max(c.watermark, first),
                health := if c.health == Stale || c.health == Invalid then c.health else GapDetected),
             Ok, true)
    else if c.watermark != 0 && c.next >= c.watermark then
      Answer(c.(watermark := 0,
                health := if c.buffer == map[] && c.health != Invalid && c.health != Stale then Good else c.health),
             Ok, false)
    else Answer(c, Ok, false)
  }

  /** A valid packet that starts behind a gap. */
  function Ahead(c: Channel, p: Packet, capacity: nat): Answer {
    if c.health == Stale then Answer(c, Ok, true)
    else if |p.data| > MAX_PACKET_SIZE then Failed(c, InvalidSize)
    else match InsertOutcome(c.buffer, capacity, p)
      case ConflictingDuplicate => Failed(c, RedundantFeedMismatch)
      case DuplicateIdentical => Answer(c.(health := GapDetected), Ok, true)
      case Inserted => Answer(c.(health := GapDetected, buffer := c.buffer[p.seqNo := p]), Ok, true)
      case _ => Answer(c.(health := Stale), Ok, true)
  }

  /** Health and watermark once nothing more can be drained. */
  function Settled(c: Channel): Channel {
    if c.health == Invalid || c.health == Stale then c
    else
      var watermark := if c.watermark != 0 && c.next >= c.watermark then 0 else c.watermark;
      c.(watermark := watermark, health := if c.buffer == map[] && watermark == 0 then Good else Recovering)
  }

  /** An end marker that came ahead of its gap takes effect once the gap is closed. */
  ghost function Resolved(c: Channel, hadGap: bool, z: Sizes): (a: Answer)
    requires z.Valid() && Sound(c)
    ensures Sound(a.channel)
  {
    if c.pendingEnd == 0 || c.next < c.pendingEnd then Answer(c, Ok, hadGap)
    else if c.next > c.pendingEnd then Failed(c, InvalidSequence)
    else if c.health != Good || c.buffer != map[] || c.watermark != 0 then Answer(c, Ok, hadGap)
    else if PhaseAfter(z, c.history) != IR.EndOfMessages then Failed(c, IncompleteSession)
    else Answer(c.(pendingEnd := 0, terminal := EndOfStream), EndOfStream, hadGap)
  }

  /** A valid packet with messages not seen yet and no gap before it. */
  ghost function InOrder(c: Channel, end: u64, ms: seq<Message>, z: Sizes): (a: Answer)
    requires z.Valid() && Sound(c) && AllMessages(ms)
    ensures Sound(a.channel)
  {
    var a := Delivered(c, end, ms, z);
    if a.status != Ok then Failed(a.channel, a.status)
    else
      var c1 := if c.health == GapDetected then a.channel.(health := Recovering) else a.channel;
      var b := Drain(c1, z);
      if b.status != Ok then Failed(b.channel, b.status)
      else Resolved(Settled(b.channel), c1.health == Recovering, z)
  }

  ghost function Sequenced(c: Channel, d: seq<byte>, e: Setting): (a: Answer)
    requires e.Valid() && Sound(c) && |d| >= HEADER_SIZE && MessageCount(d) > 0
    ensures Sound(a.channel)
  {
    var first, count := FirstSequence(d), MessageCount(d);
    if first > U64_MAX - count then Failed(c, InvalidSequence)
    else match Contents(d)
      case Malformed(status) => Failed(c, status)
      case Framed(ms) =>
        assert |ms| == count && AllMessages(ms) by { Unframed(d, count); }
        if c.pendingEnd != 0 && first + count > c.pendingEnd then Failed(c, InvalidSequence)
        else if first + count <= c.next then Answer(c, Ok, false)
        else if first > c.next then Ahead(c, Packet(first, count, d), e.capacity)
        else InOrder(c, first + count, ms[c.next - first..], e.room)
  }

  /** One arriving datagram. */
  ghost function Process(c: Channel, d: seq<byte>, e: Setting): (a: Answer)
    requires e.Valid() && Sound(c)
    ensures Sound(a.channel)
  {
    if c.terminal != Ok then Answer(c, c.terminal, false)
    else if |d| < HEADER_SIZE then Answer(c, PacketTooSmall, false)
    else if (MessageCount(d) == 0 || MessageCount(d) == END_OF_SESSION) && |d| != HEADER_SIZE then
      Failed(c, InvalidSize)
    else if c.session.Some? && c.session.value != SessionOf(d) then Failed(c, InvalidSession)
    else
      var bound := c.(session := Some(SessionOf(d)));
      if MessageCount(d) == END_OF_SESSION then EndMarker(bound, FirstSequence(d), e.room)
      else if MessageCount(d) == 0 then Heartbeat(bound, FirstSequence(d))
      else Sequenced(bound, d, e)
  }

  /** A whole run. */
  ghost function Run(c: Channel, ds: seq<seq<byte>>, e: Setting): (r: Channel)
    requires e.Valid() && Sound(c)
    ensures Sound(r)
  {
    if ds == [] then c else Process(Run(c, ds[..|ds| - 1], e), ds[|ds| - 1], e).channel
  }
}
