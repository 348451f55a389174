/** Stored packets that the drain jumps over: they stay for good and the session cannot end. */
module Leftovers {
  import opened Types
  import opened BookTypes
  import opened ItchWire
  import opened MoldWire
  import IR = ItchReference
  import opened ReferenceBook
  import opened GapBuffer
  import opened Sequencing
  import opened SequencingRuns

  // ----- What a drain leaves ------------------------------------------------------------

  /** Whatever is stored at or below `next` is further behind than the search looks. */
  ghost predicate Skimmed(c: Channel) {
    forall s :: s in c.buffer && s <= c.next ==> s + MAX_MESSAGES_PER_PACKET < c.next
  }

  lemma {:induction false} DrainSkims(c: Channel, z: Sizes)
    requires z.Valid() && Sound(c) && Drain(c, z).status == Ok
    ensures Skimmed(Drain(c, z).channel)
    decreases |c.buffer|
  {
    hide Pull, Candidate, Storable, Skimmed;
    match Candidate(c)
    case None => SearchSkims(c);
    case Some(s) => DrainSkims(Pull(c, s, z).channel, z);
  }

  lemma SearchSkims(c: Channel)
    requires Candidate(c).None?
    ensures Skimmed(c)
  {
  }

  // ----- Which stored packets a drain skips ---------------------------------------------

  /** A packet stored above `s` holds message `k`. */
  ghost predicate HeldAbove(c: Channel, s: u64, k: nat) {
    exists t :: t in c.buffer && s < t <= k < t + c.buffer[t].msgCount
  }

  /** The packets above `s` hold everything from `next` to the last number from which the search can
      still reach `s`. */
  ghost predicate Bridged(c: Channel, s: u64) {
    forall k :: c.next <= k <= s + MAX_MESSAGES_PER_PACKET ==> HeldAbove(c, s, k)
  }

  /** A round that pulls a packet above `s` does not change whether `s` is bridged. */
  lemma PullKeepsBridged(c: Channel, s: u64, t: u64, z: Sizes)
    requires z.Valid() && Sound(c) && t in c.buffer && s < t <= c.next && Pull(c, t, z).status == Ok
    ensures Bridged(Pull(c, t, z).channel, s) <==> Bridged(c, s)
  {
    hide Unframe, Taken, Accepts;
    var c' := Pull(c, t, z).channel;
    forall k | c'.next <= k ensures HeldAbove(c', s, k) <==> HeldAbove(c, s, k) {
      if HeldAbove(c, s, k) {
        var u :| u in c.buffer && s < u <= k < u + c.buffer[u].msgCount;
        assert u in c'.buffer && c'.buffer[u] == c.buffer[u];
      }
    }
    forall k | c.next <= k < c'.next ensures HeldAbove(c, s, k) {
      assert t <= k < t + c.buffer[t].msgCount;
    }
  }

  /** A stored start that the search returns is not bridged: nothing above it holds `next`. */
  lemma FoundNotBridged(c: Channel, s: u64)
    requires Candidate(c) == Some(s)
    ensures !Bridged(c, s)
  {
    assert !HeldAbove(c, s, c.next);
  }

  /** The exact condition: of the packets that start at or below `next`, a drain leaves precisely
      those that the packets above them bridge. */
  lemma {:induction false} SkippedExactly(c: Channel, s: u64, z: Sizes)
    requires z.Valid() && Sound(c) && s in c.buffer && s <= c.next && Drain(c, z).status == Ok
    ensures s in Drain(c, z).channel.buffer <==> Bridged(c, s)
    decreases |c.buffer|
  {
    hide Pull, Candidate, Storable, Bridged;
    match Candidate(c)
    case None => OutOfReachBridged(c, s);
    case Some(t) =>
      var c' := Pull(c, t, z).channel;
      PullDrains(c, t, z);
      if t == s {
        FoundNotBridged(c, s);
        DrainEnds(c', z);
      } else {
        NearestFirst(c, s, t);
        PullKeepsBridged(c, s, t, z);
        SkippedExactly(c', s, z);
      }
  }

  lemma OutOfReachBridged(c: Channel, s: u64)
    requires Candidate(c).None? && s in c.buffer && s <= c.next
    ensures Bridged(c, s)
  {
    SearchSkims(c);
  }

  lemma NearestFirst(c: Channel, s: u64, t: u64)
    requires Candidate(c) == Some(t) && s in c.buffer && s <= c.next
    ensures s <= t
  {
  }

  // ----- Between datagrams --------------------------------------------------------------

  lemma InOrderSkims(c: Channel, end: u64, ms: seq<Message>, z: Sizes)
    requires z.Valid() && Sound(c) && AllMessages(ms) && InOrder(c, end, ms, z).channel.terminal == Ok
    ensures Skimmed(InOrder(c, end, ms, z).channel)
  {
    hide PhaseAfter, Storable, Drain, Taken, Accepts, Skimmed;
    var a := Delivered(c, end, ms, z);
    var c1 := if c.health == GapDetected then a.channel.(health := Recovering) else a.channel;
    DrainSkims(c1, z);
    SameSkimmed(Drain(c1, z).channel, InOrder(c, end, ms, z).channel);
  }

  lemma SameSkimmed(c: Channel, c': Channel)
    requires Skimmed(c) && c'.buffer == c.buffer && c'.next == c.next
    ensures Skimmed(c')
  {
  }

  lemma ProcessSkims(c: Channel, d: seq<byte>, e: Setting)
    requires e.Valid() && Sound(c) && Skimmed(c) && Process(c, d, e).channel.terminal == Ok
    ensures Skimmed(Process(c, d, e).channel)
  {
    hide PhaseAfter, Unframe, InOrder, ReadU16, ReadU64, Storable;
    if |d| >= HEADER_SIZE && MessageCount(d) > 0 {
      var first, count := FirstSequence(d), MessageCount(d);
      if first <= U64_MAX - count && Contents(d).Framed? && first <= c.next < first + count {
        Unframed(d, count);
        var ms := Contents(d).messages[c.next - first..];
        if InOrder(Bound(c, d), first + count, ms, e.room).channel.terminal == Ok {
          InOrderSkims(Bound(c, d), first + count, ms, e.room);
        }
      }
    }
  }

  /** On every run that is not over, a packet still stored at or below `next` is out of reach. */
  lemma {:induction false} RunSkims(initial: u64, ds: seq<seq<byte>>, e: Setting)
    requires e.Valid() && Run(Start(initial), ds, e).terminal == Ok
    ensures Skimmed(Run(Start(initial), ds, e))
  {
    hide Process, Storable, Skimmed;
    if ds == [] {
      SearchSkims(Start(initial));
    } else {
      var n := |ds| - 1;
      var c := Run(Start(initial), ds[..n], e);
      if c.terminal != Ok { TerminalIsForever(c, [], ds[n], e); }
      RunSkims(initial, ds[..n], e);
      ProcessSkims(c, ds[n], e);
    }
  }

  // ----- Out of reach is out of reach for good ------------------------------------------

  /** `p` is stored where no search will look again. */
  ghost predicate Stranded(c: Channel, p: Packet) {
    && p.seqNo in c.buffer && c.buffer[p.seqNo] == p && p.seqNo + MAX_MESSAGES_PER_PACKET < c.next
    && c.terminal != EndOfStream
  }

  lemma PullStrands(c: Channel, z: Sizes, p: Packet)
    requires z.Valid() && Sound(c) && Stranded(c, p) && Candidate(c).Some?
    ensures Stranded(Pull(c, Candidate(c).value, z).channel, p)
  {
    hide Sound, Storable, Pull, Nearest;
    PullDrains(c, Candidate(c).value, z);
  }

  lemma {:induction false} DrainStrands(c: Channel, z: Sizes, p: Packet)
    requires z.Valid() && Sound(c) && Stranded(c, p)
    ensures Stranded(Drain(c, z).channel, p)
    decreases |c.buffer|
  {
    hide Pull, Candidate, Storable, Stranded;
    match Candidate(c)
    case None =>
    case Some(s) =>
      PullStrands(c, z, p);
      var a := Pull(c, s, z);
      if a.status == Ok { DrainStrands(a.channel, z, p); }
  }

  lemma InOrderStrands(c: Channel, end: u64, ms: seq<Message>, z: Sizes, p: Packet)
    requires z.Valid() && Sound(c) && AllMessages(ms) && Stranded(c, p) && c.next <= end
    ensures Stranded(InOrder(c, end, ms, z).channel, p)
  {
    hide PhaseAfter, Storable, Drain, Taken, Accepts;
    var a := Delivered(c, end, ms, z);
    if a.status == Ok {
      var c1 := if c.health == GapDetected then a.channel.(health := Recovering) else a.channel;
      DrainEnds(c1, z);
      DrainStrands(c1, z, p);
    }
  }

  lemma ProcessStrands(c: Channel, d: seq<byte>, e: Setting, p: Packet)
    requires e.Valid() && Sound(c) && Stranded(c, p)
    ensures Stranded(Process(c, d, e).channel, p)
  {
    hide PhaseAfter, Unframe, InOrder, ReadU16, ReadU64, Storable;
    if |d| >= HEADER_SIZE && MessageCount(d) > 0 {
      var first, count := FirstSequence(d), MessageCount(d);
      if first <= U64_MAX - count && Contents(d).Framed? && first <= c.next < first + count {
        Unframed(d, count);
        InOrderStrands(Bound(c, d), first + count, Contents(d).messages[c.next - first..], e.room, p);
      }
    }
  }

  lemma {:induction false} RunStrands(c: Channel, ds: seq<seq<byte>>, e: Setting, p: Packet)
    requires e.Valid() && Sound(c) && Stranded(c, p)
    ensures Stranded(Run(c, ds, e), p)
  {
    hide Process, Sound, Stranded;
    if ds != [] {
      RunStrands(c, ds[..|ds| - 1], e, p);
      ProcessStrands(Run(c, ds[..|ds| - 1], e), ds[|ds| - 1], e, p);
    }
  }

  /** A packet that is still stored when all of it, or a part of it, is behind `next` stays stored
      whatever arrives, and the end of the session is never accepted. */
  lemma LeftoverIsForever(initial: u64, ds: seq<seq<byte>>, more: seq<seq<byte>>, e: Setting, s: u64)
    requires e.Valid() && Run(Start(initial), ds, e).terminal == Ok
    requires s in Run(Start(initial), ds, e).buffer && s <= Run(Start(initial), ds, e).next
    ensures var c := Run(Start(initial), ds, e);
            var c' := Run(c, more, e);
            s in c'.buffer && c'.buffer[s] == c.buffer[s] && c'.terminal != EndOfStream
  {
    hide Run, Storable;
    var c := Run(Start(initial), ds, e);
    RunSkims(initial, ds, e);
    RunStrands(c, more, e, c.buffer[s]);
  }

  // ----- A quiet day --------------------------------------------------------------------

  /** A system event message. */
  function Event(code: char): (m: Message)
    requires code as int < 0x100
    ensures IsMessage(m) && |m| == 12
  {
    ['S' as int, 0, 0, 0, 0, 0, 0, 0, 0, 0, 0, code as int]
  }

  function Events(codes: string): (ms: seq<Message>)
    requires forall i :: 0 <= i < |codes| ==> codes[i] as int < 0x100
    ensures |ms| == |codes| && AllMessages(ms)
    ensures forall i :: 0 <= i < |ms| ==> |ms[i]| == 12
  {
    seq(|codes|, i requires 0 <= i < |codes| => Event(codes[i]))
  }

  lemma EventFields(code: char)
    requires code as int < 0x100
    ensures var m := Event(code);
            IR.LocateOf(m) == 0 && IR.TimestampOf(m) == 0 && IR.EventCode(m) == code && IR.TypeOf(m) == 'S'
  {
    var m := Event(code);
    assert ReadBE(m, 1, 2) == 0;
    assert ReadBE(m, 5, 2) == 0;
    assert ReadBE(m, 5, 4) == 0;
    assert ReadBE(m, 5, 6) == 0;
  }

  /** One more event that the phase lets through. */
  lemma OneEvent(z: Sizes, codes: string, code: char, day: IR.Day)
    requires z.Valid() && (forall i :: 0 <= i < |codes| ==> codes[i] as int < 0x100) && code as int < 0x100
    requires IR.Replay(z, IR.START_OF_DAY, Events(codes)) == Some(day)
    requires IR.Permitted(day.phase, Event(code)) && IR.SystemEvent(day, code).Accept?
    ensures IR.Replay(z, IR.START_OF_DAY, Events(codes + [code])) == Some(IR.SystemEvent(day, code).day)
  {
    hide IR.Replay, IR.SystemEvent, IR.Permitted, IR.OrderMessage, IR.Directory, ReadU16, ReadU48;
    EventFields(code);
    IR.ReplayOne(z, IR.START_OF_DAY, Events(codes), Event(code));
    assert Events(codes + [code]) == Events(codes) + [Event(code)];
  }

  /** The start of messages and `n` emergency events without effect. */
  function QuietStart(n: nat): (codes: string)
    ensures |codes| == n + 1 && forall i :: 0 <= i < |codes| ==> codes[i] as int < 0x100
  {
    "O" + seq(n, _ => 'A')
  }

  const AFTER_START: IR.Day := IR.START_OF_DAY.(phase := IR.StartupDirectorySpin, events := "O")

  lemma {:induction false} QuietStartTaken(z: Sizes, n: nat)
    requires z.Valid()
    ensures IR.Replay(z, IR.START_OF_DAY, Events(QuietStart(n))) == Some(AFTER_START)
  {
    hide IR.Step;
    if n == 0 {
      EventFields('O');
      OneEvent(z, "", 'O', IR.START_OF_DAY);
      assert "" + ['O'] == "O" == QuietStart(0);
    } else {
      EventFields('A');
      QuietStartTaken(z, n - 1);
      OneEvent(z, QuietStart(n - 1), 'A', AFTER_START);
      assert QuietStart(n - 1) + ['A'] == QuietStart(n);
    }
  }

  /** 146 messages of 12 bytes. */
  ghost predicate Short(day: seq<Message>) {
    |day| == 146 && AllMessages(day) && forall i :: 0 <= i < |day| ==> |day[i]| == 12
  }

  /** A day of 146 messages without a single order. */
  function QuietDay(): (ms: seq<Message>)
    ensures Short(ms)
  {
    Events(QuietStart(140) + "S" + "Q" + "M" + "E" + "C")
  }

  /** A feed of events after which the day is in `phase` and no order is alive. */
  ghost predicate LeadsTo(z: Sizes, codes: string, phase: IR.Phase) {
    && z.Valid() && (forall i :: 0 <= i < |codes| ==> codes[i] as int < 0x100)
    && var r := IR.Replay(z, IR.START_OF_DAY, Events(codes));
       r.Some? && r.value.phase == phase && r.value.books.live == map[]
  }

  lemma DailyEvent(z: Sizes, codes: string, from: IR.Phase, code: char, to: IR.Phase)
    requires LeadsTo(z, codes, from) && code in "SQMEC" && IR.EventPhase(code) == Some(to) && IR.MayAdvance(from, to)
    ensures LeadsTo(z, codes + [code], to)
  {
    hide IR.Replay, IR.Step, ReadU16, Events, Event;
    EventFields(code);
    OneEvent(z, codes, code, IR.Replay(z, IR.START_OF_DAY, Events(codes)).value);
  }

  lemma QuietDayAccepted(z: Sizes)
    requires z.Valid()
    ensures Accepts(z, QuietDay()) && PhaseAfter(z, QuietDay()) == IR.EndOfMessages
  {
    hide IR.Replay, Events, QuietStart;
    var codes := QuietStart(140);
    assert LeadsTo(z, codes, IR.StartupDirectorySpin) by { QuietStartTaken(z, 140); }
    DailyEvent(z, codes, IR.StartupDirectorySpin, 'S', IR.SystemHours);
    DailyEvent(z, codes + "S", IR.SystemHours, 'Q', IR.MarketHours);
    DailyEvent(z, codes + "S" + "Q", IR.MarketHours, 'M', IR.PostMarketHours);
    DailyEvent(z, codes + "S" + "Q" + "M", IR.PostMarketHours, 'E', IR.PostSystemHours);
    DailyEvent(z, codes + "S" + "Q" + "M" + "E", IR.PostSystemHours, 'C', IR.EndOfMessages);
  }

  // ----- The run ------------------------------------------------------------------------

  const SESSION: seq<byte> := [0, 0, 0, 0, 0, 0, 0, 0, 0, 0]

  /** Messages `from` up to `to` of the day, numbered from 1. */
  ghost function Cut(day: seq<Message>, from: u64, to: u64): (d: seq<byte>)
    requires Short(day) && 1 <= from < to <= 147
    ensures |d| == HEADER_SIZE + 14 * (to - from)
    ensures SessionOf(d) == SESSION && FirstSequence(d) == from && MessageCount(d) == to - from
    ensures Contents(d) == Framed(day[from - 1..to - 1])
  {
    hide Unframe, Header, ReadU16, ReadU64, Events;
    var ms := day[from - 1..to - 1];
    DatagramRoundTrip(SESSION, from, ms);
    BlocksLength(ms);
    Datagram(SESSION, from, ms)
  }

  lemma {:induction false} BlocksLength(ms: seq<Message>)
    requires AllMessages(ms) && forall i :: 0 <= i < |ms| ==> |ms[i]| == 12
    ensures |Blocks(ms)| == 14 * |ms|
  {
    if ms != [] { BlocksLength(ms[1..]); }
  }

  /** One line sends message 2 by itself, another sends 3 to 146 in one packet, and the packet with
      messages 1 and 2 comes last. */
  ghost function Arrivals(day: seq<Message>): seq<seq<byte>>
    requires Short(day)
  {
    [Cut(day, 2, 3), Cut(day, 3, 147), Cut(day, 1, 3)]
  }

  ghost function Waiting(day: seq<Message>, n: nat): (c: Channel)
    requires Short(day) && n <= 2
    ensures Sound(c)
  {
    hide Unframe, ReadU16, ReadU64, Events;
    var lone, long := Packet(2, 1, Cut(day, 2, 3)), Packet(3, 144, Cut(day, 3, 147));
    var buffer := if n == 0 then map[] else if n == 1 then map[2 := lone] else map[2 := lone, 3 := long];
    Channel(if n == 0 then None else Some(SESSION), 1, 0, 0, if n == 0 then Good else GapDetected, Ok, buffer, [])
  }

  lemma FirstTwo(e: Setting, day: seq<Message>)
    requires Short(day) && e.Valid() && e.capacity >= 2
    ensures Process(Waiting(day, 0), Cut(day, 2, 3), e).channel == Waiting(day, 1)
    ensures Process(Waiting(day, 1), Cut(day, 3, 147), e).channel == Waiting(day, 2)
  {
    hide Unframe, ReadU16, ReadU64, Cut, InOrder;
  }

  /** Where the arrivals lead: all 146 messages are delivered and the lone packet is still stored. */
  ghost function Stuck(day: seq<Message>): (c: Channel)
    requires Short(day)
    ensures Sound(c)
  {
    hide Unframe, ReadU16, ReadU64;
    Channel(Some(SESSION), 147, 0, 0, Recovering, Ok, map[2 := Packet(2, 1, Cut(day, 2, 3))], day)
  }

  /** The parser takes the day in the two parts it is handed over in. */
  lemma TwoParts(z: Sizes, day: seq<Message>)
    requires z.Valid() && Short(day) && Accepts(z, day)
    ensures Taken([], day[..2], z) == day[..2]
    ensures Taken(day[..2], day[2..], z) == day[2..]
  {
    hide Taken, Accepts, IsMessage;
    PrefixAccepted(z, day, 2);
    assert [] + day[..2] == day[..2] && day[..2] + day[2..] == day;
    TakesAll([], day[..2], z);
    TakesAll(day[..2], day[2..], z);
  }

  /** The search takes the long packet first and then looks no further back than message 3. */
  lemma JumpsOver(c: Channel, z: Sizes, day: seq<Message>)
    requires z.Valid() && Short(day) && Accepts(z, day)
    requires c == Waiting(day, 2).(next := 3, health := Recovering, history := day[..2])
    ensures Sound(c) && Drain(c, z) == Answer(Stuck(day), Ok, false)
  {
    hide Unframe, Taken, ReadU16, ReadU64, Cut, Nearest;
    var long := c.buffer[3];
    assert Storable(long);
    assert Candidate(c) == Some(3);
    assert MessagesOf(long)[0..] == day[2..];
    TwoParts(z, day);
    assert day[..2] + day[2..] == day;
    assert c.buffer - {3} == Stuck(day).buffer;
    assert Pull(c, 3, z).channel == Stuck(day);
    assert Candidate(Stuck(day)) == None;
  }

  lemma LastOne(e: Setting, day: seq<Message>)
    requires e.Valid() && Short(day) && Accepts(e.room, day)
    ensures Process(Waiting(day, 2), Cut(day, 1, 3), e).channel == Stuck(day)
  {
    hide Unframe, Taken, ReadU16, ReadU64, Cut, Drain, Storable, PhaseAfter;
    var c := Waiting(day, 2);
    TwoParts(e.room, day);
    var ms := Contents(Cut(day, 1, 3)).messages[0..];
    assert ms == day[..2];
    JumpsOver(c.(next := 3, health := Recovering, history := day[..2]), e.room, day);
    assert c.history + ms == ms && 2 in Stuck(day).buffer;
    assert InOrder(c, 3, ms, e.room).channel == Stuck(day);
  }

  /** Any short day the parser takes, arriving in full on lines that cut it differently: all of it
      is delivered, and the packet with message 2 alone is skipped by the drain. */
  lemma StuckRun(e: Setting, day: seq<Message>)
    requires e.Valid() && e.capacity >= 2 && Short(day) && Accepts(e.room, day)
    ensures Run(Start(1), Arrivals(day), e) == Stuck(day)
  {
    hide Process, Cut, Sound;
    var a := Arrivals(day);
    assert a[..2] == [Cut(day, 2, 3), Cut(day, 3, 147)] && a[..2][..1] == [Cut(day, 2, 3)];
    FirstTwo(e, day);
    LastOne(e, day);
    assert Run(Start(1), a[..1], e) == Waiting(day, 1);
    assert Run(Start(1), a[..2], e) == Waiting(day, 2);
  }

  /** That day cannot be closed: the packet stays stored whatever else arrives, the end is never
      accepted, and the correct end marker fails the session. */
  lemma StuckForGood(e: Setting, day: seq<Message>, more: seq<seq<byte>>)
    requires e.Valid() && Short(day)
    ensures Run(Stuck(day), more, e).terminal != EndOfStream && 2 in Run(Stuck(day), more, e).buffer
    ensures Process(Stuck(day), Header(SESSION, 147, END_OF_SESSION), e).status == InvalidSequence
  {
    hide Run, Process, Cut, Sound;
    RunStrands(Stuck(day), more, e, Stuck(day).buffer[2]);
    MarkerFails(e, day);
  }

  lemma MarkerFails(e: Setting, day: seq<Message>)
    requires e.Valid() && Short(day)
    ensures Process(Stuck(day), Header(SESSION, 147, END_OF_SESSION), e).status == InvalidSequence
  {
    hide Header, ReadU16, ReadU64, Cut, Sound, Sequenced, Heartbeat;
    var d := Header(SESSION, 147, END_OF_SESSION);
    HeaderFields(SESSION, 147, END_OF_SESSION, []);
    assert d + [] == d;
  }

  // ----- The same datagrams in sending order --------------------------------------------

  /** In order and with nothing stored. */
  ghost function Smooth(day: seq<Message>, n: nat): (c: Channel)
    requires Short(day) && n <= |day|
    ensures Sound(c)
  {
    Channel(Some(SESSION), n + 1, 0, 0, Good, Ok, map[], day[..n])
  }

  lemma SmoothSteps(e: Setting, day: seq<Message>)
    requires e.Valid() && Short(day) && Accepts(e.room, day)
    ensures Process(Start(1), Cut(day, 1, 3), e).channel == Smooth(day, 2)
    ensures Process(Smooth(day, 2), Cut(day, 2, 3), e).channel == Smooth(day, 2)
    ensures Process(Smooth(day, 2), Cut(day, 3, 147), e).channel == Smooth(day, 146)
  {
    hide Unframe, Taken, ReadU16, ReadU64, Cut, Storable, PhaseAfter, Accepts;
    TwoParts(e.room, day);
    var ms, rest := Contents(Cut(day, 1, 3)).messages[0..], Contents(Cut(day, 3, 147)).messages[0..];
    assert ms == day[..2] && rest == day[2..] && [] + ms == ms && ms + rest == day == day[..146];
    DrainsNothing(Bound(Smooth(day, 2), Cut(day, 1, 3)), e.room);
    DrainsNothing(Smooth(day, 146), e.room);
  }

  lemma DrainsNothing(c: Channel, z: Sizes)
    requires z.Valid() && Sound(c) && c.buffer == map[]
    ensures Drain(c, z) == Answer(c, Ok, false)
  {
    hide Storable;
  }

  /** The verdict on a session does depend on the order once packets overlap: sent in order, the
      same three datagrams and the same marker end the session of the quiet day. */
  lemma InOrderCloses(e: Setting, day: seq<Message>)
    requires e.Valid() && Short(day) && Accepts(e.room, day) && PhaseAfter(e.room, day) == IR.EndOfMessages
    ensures var c := Run(Start(1), [Cut(day, 1, 3), Cut(day, 2, 3), Cut(day, 3, 147)], e);
            Process(c, Header(SESSION, 147, END_OF_SESSION), e).status == EndOfStream
  {
    hide Process, Cut, Storable;
    var a := [Cut(day, 1, 3), Cut(day, 2, 3), Cut(day, 3, 147)];
    SmoothSteps(e, day);
    assert a[..2] == [Cut(day, 1, 3), Cut(day, 2, 3)] && a[..2][..1] == [Cut(day, 1, 3)];
    assert Run(Start(1), a[..1], e) == Smooth(day, 2);
    assert Run(Start(1), a[..2], e) == Smooth(day, 2);
    MarkerCloses(e, day);
  }

  lemma MarkerCloses(e: Setting, day: seq<Message>)
    requires e.Valid() && Short(day) && PhaseAfter(e.room, day) == IR.EndOfMessages
    ensures Process(Smooth(day, 146), Header(SESSION, 147, END_OF_SESSION), e).status == EndOfStream
  {
    hide Header, ReadU16, ReadU64, PhaseAfter, Sound, Sequenced, Heartbeat;
    var d := Header(SESSION, 147, END_OF_SESSION);
    HeaderFields(SESSION, 147, END_OF_SESSION, []);
    assert d + [] == d && day[..146] == day;
  }
}
