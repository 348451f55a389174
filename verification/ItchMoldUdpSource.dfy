/** The replay source: cuts a BinaryFILE of ITCH records into MoldUDP64 datagrams. */
module ItchMoldUdpSource {
  import opened Types
  import opened ItchWire
  import opened MoldWire

  const MAX_PACKET_BYTES: nat := 1472

  datatype CompletionPolicy = RequireTerminator | AllowEofAfterEndOfMessages

  datatype Ending = Terminated | LegacyEnd | Broken(error: string)

  datatype Reading = Reading(messages: seq<Message>, ending: Ending)

  // ----- What a BinaryFILE says, packets aside ------------------------------------------

  predicate IsEvent(m: Message, code: char) {
    |m| >= 12 && m[0] == 'S' as int && m[11] == code as int
  }

  datatype Step = Stop(ending: Ending) | Take(m: Message)

  /** Judges a complete record. */
  function Judge(m: Message, saw: bool): (r: Step)
    requires |m| > 0
    ensures r.Take? ==> r.m == m && IsMessage(m)
    ensures r.Stop? ==> r.ending.Broken?
  {
    if ExpectedLength(m[0]) == 0 then Stop(Broken("unsupported ITCH message type"))
    else if |m| != ExpectedLength(m[0]) then Stop(Broken("invalid ITCH message length"))
    else if m[0] == 'S' as int && (m[1] != 0 || m[2] != 0) then Stop(Broken("System Event stock locate is not zero"))
    else if !saw && !IsEvent(m, 'O') then Stop(Broken("first ITCH record is not System Event O"))
    else Take(m)
  }

  /** The next record of the file; `saw` tells whether there was one before and `ended` whether
      the last one was System Event C. */
  function StepAt(input: seq<byte>, pos: nat, saw: bool, ended: bool, policy: CompletionPolicy): (r: Step)
    requires pos <= |input|
    ensures r.Take? ==> pos + 2 + |r.m| <= |input| && IsMessage(r.m)
  {
    if pos == |input| then
      if policy == AllowEofAfterEndOfMessages && ended then Stop(LegacyEnd)
      else Stop(Broken("physical EOF before zero-length BinaryFILE terminator"))
    else if pos + 2 > |input| then Stop(Broken("truncated ITCH message-length prefix"))
    else
      var len := ReadU16(input, pos);
      if len == 0 then
        if pos + 2 != |input| then Stop(Broken("data follows zero-length BinaryFILE terminator"))
        else if !ended then Stop(Broken("BinaryFILE terminator before ITCH System Event C"))
        else Stop(Terminated)
      else if ended then Stop(Broken("ITCH record follows System Event C"))
      else if HEADER_SIZE + 2 + len > MAX_PACKET_BYTES
          then Stop(Broken("ITCH message is too large for a MoldUDP packet"))
      else if pos + 2 + len > |input| then Stop(Broken("truncated ITCH message payload"))
      else Judge(input[pos + 2..pos + 2 + len], saw)
  }

  /** Everything the file holds from `pos` on, and how it ends. */
  function ReadFrom(input: seq<byte>, pos: nat, saw: bool, ended: bool, policy: CompletionPolicy): (r: Reading)
    requires pos <= |input|
    ensures AllMessages(r.messages)
    decreases |input| - pos
  {
    match StepAt(input, pos, saw, ended, policy)
    case Stop(ending) => Reading([], ending)
    case Take(m) =>
      var rest := ReadFrom(input, pos + 2 + |m|, true, IsEvent(m, 'C'), policy);
      Reading([m] + rest.messages, rest.ending)
  }

  function ReadFile(input: seq<byte>, policy: CompletionPolicy): Reading {
    ReadFrom(input, 0, false, false, policy)
  }

  // ----- Well-formed files --------------------------------------------------------------

  /** A day of records: it starts with System Event O, ends with its only System Event C, and
      every system event has stock locate zero. */
  ghost predicate WellFormedDay(ms: seq<Message>) {
    && AllMessages(ms) && ms != [] && IsEvent(ms[0], 'O')
    && (forall i :: 0 <= i < |ms| ==> (IsEvent(ms[i], 'C') <==> i == |ms| - 1))
    && (forall i :: 0 <= i < |ms| && ms[i][0] == 'S' as int ==> ms[i][1] == 0 && ms[i][2] == 0)
  }

  function Trailer(ending: Ending): seq<byte> {
    if ending == Terminated then [0, 0] else []
  }

  /** What may follow a record: the same as a day, but for its start. */
  ghost predicate WellFormedTail(ms: seq<Message>, saw: bool, ended: bool) {
    && AllMessages(ms) && (ended <==> ms == []) && (!saw && ms != [] ==> IsEvent(ms[0], 'O'))
    && (forall i :: 0 <= i < |ms| ==> (IsEvent(ms[i], 'C') <==> i == |ms| - 1))
    && (forall i :: 0 <= i < |ms| && ms[i][0] == 'S' as int ==> ms[i][1] == 0 && ms[i][2] == 0)
  }

  /** Reading ends well exactly on a well-formed rest followed by the trailer the policy asks for. */
  lemma {:induction false} ReadIsInverse(input: seq<byte>, pos: nat, saw: bool, ended: bool, policy: CompletionPolicy,
                                         ms: seq<Message>, ending: Ending)
    requires pos <= |input| && !ending.Broken?
    ensures ReadFrom(input, pos, saw, ended, policy) == Reading(ms, ending) <==>
              WellFormedTail(ms, saw, ended) && input[pos..] == Blocks(ms) + Trailer(ending) &&
              (ending == LegacyEnd ==> policy == AllowEofAfterEndOfMessages)
    decreases |input| - pos
  {
    hide ReadU16, ExpectedLength, ReadFrom, StepAt, WellFormedTail, Blocks;
    if ms == [] {
      EmptyTail(input, pos, saw, ended, policy, ending);
    } else {
      FirstRecord(input, pos, saw, ended, policy, ms, ending);
      if StepAt(input, pos, saw, ended, policy) == Take(ms[0]) {
        var next := pos + 2 + |ms[0]|;
        ReadIsInverse(input, next, true, IsEvent(ms[0], 'C'), policy, ms[1..], ending);
        LaterRecords(input, pos, saw, ended, policy, ms, ending);
      }
    }
  }

  lemma EmptyTail(input: seq<byte>, pos: nat, saw: bool, ended: bool, policy: CompletionPolicy, ending: Ending)
    requires pos <= |input| && !ending.Broken?
    ensures ReadFrom(input, pos, saw, ended, policy) == Reading([], ending) <==>
              WellFormedTail([], saw, ended) && input[pos..] == Blocks([]) + Trailer(ending) &&
              (ending == LegacyEnd ==> policy == AllowEofAfterEndOfMessages)
  {
    hide StepAt, ReadU16;
    StopsWell(input, pos, saw, ended, policy);
    assert Blocks([]) == [];
    var tail := input[pos..];
    if |tail| == 2 {
      ZeroLength(input, pos);
      assert tail == [tail[0], tail[1]];
    }
  }

  /** The two good endings. */
  lemma StopsWell(input: seq<byte>, pos: nat, saw: bool, ended: bool, policy: CompletionPolicy)
    requires pos <= |input|
    ensures var step := StepAt(input, pos, saw, ended, policy);
            && (step == Stop(Terminated) <==> pos + 2 == |input| && ended && ReadU16(input, pos) == 0)
            && (step == Stop(LegacyEnd) <==> pos == |input| && ended && policy == AllowEofAfterEndOfMessages)
  {
    hide Judge, ReadU16;
  }

  lemma ZeroLength(input: seq<byte>, pos: nat)
    requires pos + 2 <= |input|
    ensures ReadU16(input, pos) == 0 <==> input[pos] == 0 && input[pos + 1] == 0
  {
    assert ReadBE(input, pos, 1) == input[pos];
  }

  /** Both sides of ReadIsInverse put the same record first. */
  lemma FirstRecord(input: seq<byte>, pos: nat, saw: bool, ended: bool, policy: CompletionPolicy, ms: seq<Message>,
                    ending: Ending)
    requires pos <= |input| && ms != []
    ensures ReadFrom(input, pos, saw, ended, policy) == Reading(ms, ending) ==>
              StepAt(input, pos, saw, ended, policy) == Take(ms[0])
    ensures WellFormedTail(ms, saw, ended) && input[pos..] == Blocks(ms) + Trailer(ending) ==>
              StepAt(input, pos, saw, ended, policy) == Take(ms[0])
  {
    hide ReadU16, ExpectedLength, StepAt, Block, Blocks;
    if WellFormedTail(ms, saw, ended) && input[pos..] == Blocks(ms) + Trailer(ending) {
      BytesFirst(input, pos, ms, Trailer(ending));
      BlockAt(input, pos, ms[0]);
      StepTakes(input, pos, saw, policy, ms[0]);
    }
  }

  lemma StepTakes(input: seq<byte>, pos: nat, saw: bool, policy: CompletionPolicy, m: Message)
    requires pos + 2 + |m| <= |input| && ReadU16(input, pos) == |m| <= 50 && input[pos + 2..pos + 2 + |m|] == m
    requires IsMessage(m) && (!saw ==> IsEvent(m, 'O')) && (m[0] == 'S' as int ==> m[1] == 0 && m[2] == 0)
    ensures StepAt(input, pos, saw, false, policy) == Take(m)
  {
    hide ReadU16, ExpectedLength;
  }

  lemma BytesFirst(input: seq<byte>, pos: nat, ms: seq<Message>, trailer: seq<byte>)
    requires pos <= |input| && ms != [] && AllMessages(ms) && input[pos..] == Blocks(ms) + trailer
    ensures pos + 2 + |ms[0]| <= |input| && |ms[0]| <= 50
    ensures input[pos..pos + 2 + |ms[0]|] == Block(ms[0])
    ensures input[pos + 2 + |ms[0]|..] == Blocks(ms[1..]) + trailer
  {
    hide Block, Blocks, ExpectedLength;
    assert IsMessage(ms[0]);
    var tail, n := input[pos..], 2 + |ms[0]|;
    BlocksHead(ms);
    Associate(Block(ms[0]), Blocks(ms[1..]), trailer);
    SplitAt(tail, Block(ms[0]), Blocks(ms[1..]) + trailer);
    SliceTail(input, pos, n);
  }

  lemma SplitAt(s: seq<byte>, a: seq<byte>, b: seq<byte>)
    requires s == a + b
    ensures |a| <= |s| && s[..|a|] == a && s[|a|..] == b
  {
  }

  lemma SliceTail(s: seq<byte>, i: nat, n: nat)
    requires i + n <= |s|
    ensures s[i..][..n] == s[i..i + n] && s[i..][n..] == s[i + n..]
  {
  }

  lemma BytesJoin(input: seq<byte>, pos: nat, ms: seq<Message>, trailer: seq<byte>)
    requires ms != [] && AllMessages(ms) && pos + 2 + |ms[0]| <= |input| && |ms[0]| < 0x1_0000
    requires input[pos..pos + 2 + |ms[0]|] == Block(ms[0]) && input[pos + 2 + |ms[0]|..] == Blocks(ms[1..]) + trailer
    ensures input[pos..] == Blocks(ms) + trailer
  {
    hide Block, Blocks, ExpectedLength;
    BlocksHead(ms);
    Rejoin(input, pos, pos + 2 + |ms[0]|);
    Associate(Block(ms[0]), Blocks(ms[1..]), trailer);
  }

  lemma BlocksHead(ms: seq<Message>)
    requires ms != [] && AllMessages(ms) && |ms[0]| < 0x1_0000
    ensures Blocks(ms) == Block(ms[0]) + Blocks(ms[1..])
  {
  }

  lemma Rejoin(b: seq<byte>, i: nat, j: nat)
    requires i <= j <= |b|
    ensures b[i..] == b[i..j] + b[j..]
  {
  }

  lemma Associate(a: seq<byte>, b: seq<byte>, c: seq<byte>)
    ensures a + b + c == a + (b + c)
  {
  }

  lemma TailShift(ms: seq<Message>, saw: bool)
    requires ms != [] && IsMessage(ms[0]) && (!saw ==> IsEvent(ms[0], 'O'))
    requires ms[0][0] == 'S' as int ==> ms[0][1] == 0 && ms[0][2] == 0
    ensures WellFormedTail(ms, saw, false) <==> WellFormedTail(ms[1..], true, IsEvent(ms[0], 'C'))
  {
    hide ExpectedLength;
    var rest := ms[1..];
    assert forall i :: 0 <= i < |rest| ==> rest[i] == ms[i + 1];
    if WellFormedTail(rest, true, IsEvent(ms[0], 'C')) {
      forall i | 0 <= i < |ms| ensures IsMessage(ms[i]) && (IsEvent(ms[i], 'C') <==> i == |ms| - 1) {
        if i > 0 { assert ms[i] == rest[i - 1]; }
      }
    }
  }

  /** What a taken record looks like. */
  lemma TakenRecord(input: seq<byte>, pos: nat, saw: bool, ended: bool, policy: CompletionPolicy)
    requires pos <= |input| && StepAt(input, pos, saw, ended, policy).Take?
    ensures var m := StepAt(input, pos, saw, ended, policy).m;
            && !ended && IsMessage(m) && (!saw ==> IsEvent(m, 'O')) && (m[0] == 'S' as int ==> m[1] == 0 && m[2] == 0)
            && pos + 2 + |m| <= |input| && |m| <= 50 && input[pos..pos + 2 + |m|] == Block(m)
  {
    hide ReadU16, ExpectedLength;
    BlockAt(input, pos, StepAt(input, pos, saw, ended, policy).m);
  }

  /** Behind the first record both sides of ReadIsInverse talk about the same rest. */
  lemma LaterRecords(input: seq<byte>, pos: nat, saw: bool, ended: bool, policy: CompletionPolicy, ms: seq<Message>,
                     ending: Ending)
    requires pos <= |input| && ms != [] && StepAt(input, pos, saw, ended, policy) == Take(ms[0])
    ensures var next := pos + 2 + |ms[0]|; var end := IsEvent(ms[0], 'C');
            && (ReadFrom(input, pos, saw, ended, policy) == Reading(ms, ending) <==>
                ReadFrom(input, next, true, end, policy) == Reading(ms[1..], ending))
            && (WellFormedTail(ms, saw, ended) && input[pos..] == Blocks(ms) + Trailer(ending) <==>
                WellFormedTail(ms[1..], true, end) && input[next..] == Blocks(ms[1..]) + Trailer(ending))
  {
    hide ReadU16, ExpectedLength, StepAt, Block, Blocks, ReadFrom, WellFormedTail;
    TakenRecord(input, pos, saw, ended, policy);
    ReadLater(input, pos, saw, ended, policy, ms, ending);
    BytesLater(input, pos, saw, ms, Trailer(ending));
  }

  lemma ReadLater(input: seq<byte>, pos: nat, saw: bool, ended: bool, policy: CompletionPolicy, ms: seq<Message>,
                  ending: Ending)
    requires pos <= |input| && ms != [] && StepAt(input, pos, saw, ended, policy) == Take(ms[0])
    ensures ReadFrom(input, pos, saw, ended, policy) == Reading(ms, ending) <==>
              ReadFrom(input, pos + 2 + |ms[0]|, true, IsEvent(ms[0], 'C'), policy) == Reading(ms[1..], ending)
  {
    hide StepAt, IsEvent;
    assert ms == [ms[0]] + ms[1..];
  }

  lemma BytesLater(input: seq<byte>, pos: nat, saw: bool, ms: seq<Message>, trailer: seq<byte>)
    requires ms != [] && IsMessage(ms[0]) && pos + 2 + |ms[0]| <= |input| && |ms[0]| <= 50
    requires input[pos..pos + 2 + |ms[0]|] == Block(ms[0])
    requires !saw ==> IsEvent(ms[0], 'O')
    requires ms[0][0] == 'S' as int ==> ms[0][1] == 0 && ms[0][2] == 0
    ensures var next := pos + 2 + |ms[0]|; var end := IsEvent(ms[0], 'C');
            WellFormedTail(ms, saw, false) && input[pos..] == Blocks(ms) + trailer <==>
            WellFormedTail(ms[1..], true, end) && input[next..] == Blocks(ms[1..]) + trailer
  {
    hide ExpectedLength, Block, Blocks, IsEvent;
    TailShift(ms, saw);
    if WellFormedTail(ms, saw, false) {
      if input[pos..] == Blocks(ms) + trailer { BytesFirst(input, pos, ms, trailer); }
      if input[pos + 2 + |ms[0]|..] == Blocks(ms[1..]) + trailer { BytesJoin(input, pos, ms, trailer); }
    }
  }

  /** A file is read to a good end exactly when it is a well-formed day and its trailer. */
  lemma CompletesIffWellFormed(input: seq<byte>, policy: CompletionPolicy, ms: seq<Message>, ending: Ending)
    requires !ending.Broken?
    ensures ReadFile(input, policy) == Reading(ms, ending) <==>
              WellFormedDay(ms) && input == Blocks(ms) + Trailer(ending) &&
              (ending == LegacyEnd ==> policy == AllowEofAfterEndOfMessages)
  {
    hide ReadFrom, Blocks;
    ReadIsInverse(input, 0, false, false, policy, ms, ending);
    assert input[0..] == input;
  }

  // ----- Blocks at the end --------------------------------------------------------------

  lemma {:induction false} BlocksSnoc(ms: seq<Message>, m: Message)
    requires AllMessages(ms) && IsMessage(m)
    ensures AllMessages(ms + [m]) && Blocks(ms + [m]) == Blocks(ms) + Block(m)
  {
    hide Block, ExpectedLength;
    if ms == [] {
      assert [m][1..] == [];
    } else {
      BlocksSnoc(ms[1..], m);
      assert (ms + [m])[1..] == ms[1..] + [m];
    }
  }

  // ----- The source ---------------------------------------------------------------------

  /** The whole reading when `emitted` has been taken and `rest` is still to come. */
  function Then(emitted: seq<Message>, rest: Reading): Reading { Reading(emitted + rest.messages, rest.ending) }

  datatype Turn = Stopped | Flushed | Taken(boundary: bool)

  predicate Ends(emitted: seq<Message>) { emitted != [] && IsEvent(emitted[|emitted| - 1], 'C') }

  function Padded(session: seq<byte>): (r: seq<byte>)
    ensures |r| == SESSION_SIZE && (|session| <= SESSION_SIZE ==> session <= r)
  {
    if |session| >= SESSION_SIZE then session[..SESSION_SIZE]
        else session + seq(SESSION_SIZE - |session|, _ => ' ' as int)
  }

  function ConfigError(session: seq<byte>, messagesPerPacket: u16): string {
    if |session| > SESSION_SIZE then "MoldUDP64 session must not exceed 10 bytes"
    else if messagesPerPacket == 0 then "msgs_per_packet must be greater than zero"
    else ""
  }

  /** What is wrong with a complete record, if anything. */
  method CheckRecord(m: Message, saw: bool) returns (problem: string)
    requires |m| > 0
    ensures problem == "" <==>
              IsMessage(m) && (m[0] == 'S' as int ==> m[1] == 0 && m[2] == 0) &&
              (saw || IsEvent(m, 'O'))
    ensures Judge(m, saw) == if problem == "" then Take(m) else Stop(Broken(problem))
  {
    hide ExpectedLength;
    if ExpectedLength(m[0]) == 0 {
      return "unsupported ITCH message type";
    }
    if |m| != ExpectedLength(m[0]) {
      return "invalid ITCH message length";
    }
    if m[0] == 'S' as int && (m[1] != 0 || m[2] != 0) {
      return "System Event stock locate is not zero";
    }
    if !saw && !IsEvent(m, 'O') {
      return "first ITCH record is not System Event O";
    }
    return "";
  }

  class ItchMoldUdpSource {
    const input: seq<byte>
    const session: seq<byte>
    const policy: CompletionPolicy
    const configError: string
    const packetBuf: array<byte>
    var pos: nat
    var messagesPerPacket: u16
    var nextSeq: u64
    var lastError: string
    var eof: bool
    var completed: bool
    var ending: Ending
    var sawMessage: bool
    var lastMessageWasEnd: bool
    // Every message put into a packet so far.
    ghost var emitted: seq<Message>

    /** A source that was set up wrongly is at its end with that error; any other one Reads(). */
    ghost predicate Valid()
      reads this
    {
      && packetBuf.Length == MAX_PACKET_BYTES && |session| == SESSION_SIZE
      && pos <= |input| <= U64_MAX && AllMessages(emitted) && 14 * |emitted| <= pos
      && nextSeq == 1 + |emitted| && sawMessage == (emitted != []) && lastMessageWasEnd == Ends(emitted)
      && (configError != "" ==> eof && emitted == [] && !completed && lastError == configError)
      && (configError == "" ==> Reads())
    }

    /** The packets so far hold what the file holds before `pos`, and the file's end decided
        between completion and an error. */
    ghost predicate Reads()
      requires pos <= |input|
      reads this
    {
      && (if eof then ReadFile(input, policy) == Reading(emitted, ending)
          else ReadFile(input, policy) == Then(emitted, ReadFrom(input, pos, sawMessage, lastMessageWasEnd, policy)))
      && (eof ==> (completed <==> !ending.Broken?) && lastError == (if ending.Broken? then ending.error else ""))
      && (!eof ==> !completed && lastError == "" && messagesPerPacket > 0)
    }

    /** A source with an unusable session or packet size emits nothing and is in error. */
    constructor (input: seq<byte>, session: seq<byte>, messagesPerPacket: u16, policy: CompletionPolicy)
      requires |input| <= U64_MAX
      ensures Valid() && emitted == [] && fresh(packetBuf)
      ensures this.input == input && this.session == Padded(session) && this.policy == policy
      ensures lastError == ConfigError(session, messagesPerPacket) && eof == (lastError != "") && !completed
    {
      this.input, this.session, this.policy, this.messagesPerPacket := input, Padded(session), policy,
          messagesPerPacket;
      packetBuf := new byte[MAX_PACKET_BYTES](_ => 0);
      pos, nextSeq, emitted := 0, 1, [];
      configError := ConfigError(session, messagesPerPacket);
      lastError := ConfigError(session, messagesPerPacket);
      eof := ConfigError(session, messagesPerPacket) != "";
      completed, ending, sawMessage, lastMessageWasEnd := false, LegacyEnd, false, false;
    }

    method SetMessagesPerPacket(n: u16) returns (ok: bool)
      requires Valid()
      modifies this`messagesPerPacket
      ensures Valid() && ok == (n != 0) && messagesPerPacket == if ok then n else old(messagesPerPacket)
    {
      if n == 0 {
        return false;
      }
      messagesPerPacket := n;
      return true;
    }

    /** Copies bytes into the packet buffer. */
    method Put(offset: nat, b: seq<byte>)
      requires packetBuf.Length == MAX_PACKET_BYTES && offset + |b| <= MAX_PACKET_BYTES
      modifies packetBuf
      ensures packetBuf[..] == old(packetBuf[..offset]) + b + old(packetBuf[offset + |b|..])
    {
      for i := 0 to |b|
        invariant packetBuf[..offset] == old(packetBuf[..offset]) && packetBuf[offset..offset + i] == b[..i]
        invariant packetBuf[offset + |b|..] == old(packetBuf[offset + |b|..])
      {
        packetBuf[offset + i] := b[i];
        assert packetBuf[offset..offset + i + 1] == packetBuf[offset..offset + i] + [b[i]];
      }
      assert packetBuf[..] == packetBuf[..offset] + packetBuf[offset..offset + |b|] + packetBuf[offset + |b|..];
    }

    /** Ends the input. */
    method Finish(ending: Ending)
      requires Valid() && !eof
      requires StepAt(input, pos, sawMessage, lastMessageWasEnd, policy) == Stop(ending)
      modifies this
      ensures Valid() && eof && emitted == old(emitted) && pos == old(pos) &&
              messagesPerPacket == old(messagesPerPacket)
    {
      assert emitted + [] == emitted;
      eof := true;
      this.ending := ending;
      completed := !ending.Broken?;
      lastError := if ending.Broken? then ending.error else "";
    }

    /** Reads the length prefix of the next record; no length when it ends the input. */
    method ReadLength() returns (length: u16)
      requires Valid() && !eof
      modifies this
      ensures Valid() && emitted == old(emitted) && pos == old(pos) && messagesPerPacket == old(messagesPerPacket)
      ensures eof <==> length == 0
      ensures length != 0 ==> pos + 2 <= |input| && length == ReadU16(input, pos) && !lastMessageWasEnd
    {
      hide ReadFrom, ReadU16, Judge, Valid;
      CanRead();
      if pos == |input| {
        if policy == AllowEofAfterEndOfMessages && lastMessageWasEnd {
          Finish(LegacyEnd);
        } else {
          Finish(Broken("physical EOF before zero-length BinaryFILE terminator"));
        }
        return 0;
      }
      if pos + 2 > |input| {
        Finish(Broken("truncated ITCH message-length prefix"));
        return 0;
      }
      length := ReadU16(input, pos);
      if length == 0 {
        if pos + 2 != |input| {
          Finish(Broken("data follows zero-length BinaryFILE terminator"));
        } else if !lastMessageWasEnd {
          Finish(Broken("BinaryFILE terminator before ITCH System Event C"));
        } else {
          Finish(Terminated);
        }
      } else if lastMessageWasEnd {
        Finish(Broken("ITCH record follows System Event C"));
        length := 0;
      }
    }

    lemma CanRead()
      requires Valid()
      ensures pos <= |input|
    {
    }

    /** Copies a record into the packet and accepts it or ends the input. */
    method TakeRecord(offset: nat, length: u16) returns (turn: Turn)
      requires Valid() && !eof && !lastMessageWasEnd && pos + 2 <= |input| && length == ReadU16(input, pos) != 0
      requires HEADER_SIZE <= offset && offset + 2 + length <= MAX_PACKET_BYTES
      modifies this, packetBuf
      ensures Valid() && !turn.Flushed? && messagesPerPacket == old(messagesPerPacket)
      ensures turn.Stopped? ==> eof && emitted == old(emitted) && packetBuf[..offset] == old(packetBuf[..offset])
      ensures turn.Taken? ==> !eof && TookOne(old(emitted), emitted, old(packetBuf[..offset]),
              packetBuf[..offset + 2 + length])
      ensures turn.Taken? ==> pos > old(pos) && turn.boundary == IsBoundary(emitted[|emitted| - 1])
    {
      hide ReadFrom, ReadU16, ExpectedLength, Block, Judge;
      if pos + 2 + length > |input| {
        Finish(Broken("truncated ITCH message payload"));
        return Stopped;
      }
      var m := input[pos + 2..pos + 2 + length];
      ghost var was := packetBuf[..];
      Put(offset, input[pos..pos + 2 + length]);
      assert packetBuf[..offset] == was[..offset];
      var problem := CheckRecord(m, sawMessage);
      if problem != "" {
        Finish(Broken(problem));
        return Stopped;
      }
      BlockAt(input, pos, m);
      assert packetBuf[..offset + 2 + length] == was[..offset] + Block(m);
      Accept(m);
      return Taken(IsBoundary(m));
    }

    /** Counts an accepted record in. */
    method Accept(m: Message)
      requires Valid() && !eof && StepAt(input, pos, sawMessage, lastMessageWasEnd, policy) == Take(m)
      modifies this
      ensures Valid() && !eof && emitted == old(emitted) + [m] && pos > old(pos)
      ensures messagesPerPacket == old(messagesPerPacket)
    {
      hide StepAt, ExpectedLength;
      assert IsMessage(m) by { TakenRecord(input, pos, sawMessage, lastMessageWasEnd, policy); }
      ghost var rest := ReadFrom(input, pos + 2 + |m|, true, IsEvent(m, 'C'), policy);
      assert emitted + ([m] + rest.messages) == emitted + [m] + rest.messages;
      AtLeastTwelve(m);
      sawMessage := true;
      lastMessageWasEnd := IsEvent(m, 'C');
      pos := pos + 2 + |m|;
      nextSeq := nextSeq + 1;
      emitted := emitted + [m];
    }

    /** One record: it ends the input, belongs into the next packet, or is put into this one. */
    method ReadOne(count: nat, offset: nat) returns (turn: Turn, offset': nat)
      requires Valid() && !eof && HEADER_SIZE <= offset <= MAX_PACKET_BYTES && (count == 0 ==> offset == HEADER_SIZE)
      modifies this, packetBuf
      ensures Valid() && HEADER_SIZE <= offset' <= MAX_PACKET_BYTES && messagesPerPacket == old(messagesPerPacket)
      ensures !turn.Taken? ==> (eof <==> turn.Stopped?) && (turn.Flushed? ==> count > 0) && emitted == old(emitted)
      ensures !turn.Taken? ==> offset' == offset && packetBuf[..offset] == old(packetBuf[..offset])
      ensures turn.Taken? ==> !eof && TookOne(old(emitted), emitted, old(packetBuf[..offset]), packetBuf[..offset'])
      ensures turn.Taken? ==>
                pos > old(pos) && !Ends(old(emitted)) &&
                turn.boundary == IsBoundary(emitted[|emitted| - 1])
      ensures turn.Flushed? ==> pos + 2 <= |input| && offset + 2 + ReadU16(input, pos) > MAX_PACKET_BYTES
    {
      hide ReadFrom, ReadU16, Judge, TookOne;
      var length := ReadLength();
      if length == 0 {
        return Stopped, offset;
      }
      if offset + 2 + length > MAX_PACKET_BYTES {
        if count == 0 {
          Finish(Broken("ITCH message is too large for a MoldUDP packet"));
          return Stopped, offset;
        }
        return Flushed, offset;
      }
      turn := TakeRecord(offset, length);
      return turn, if turn.Taken? then offset + 2 + length else offset;
    }

    /** Stamps the header over the first bytes of the packet. */
    method Stamp(first: u64, count: u16)
      requires Valid()
      modifies packetBuf
      ensures packetBuf[..] == Header(session, first, count) + old(packetBuf[HEADER_SIZE..])
    {
      hide ReadFrom, WriteBE, ReadFile, Ends;
      PowersOf256();
      ghost var was := packetBuf[..];
      Put(0, session);
      Put(SESSION_SIZE, WriteBE(first, 8));
      Put(SESSION_SIZE + 8, WriteBE(count, 2));
      assert packetBuf[..SESSION_SIZE] == session;
      assert packetBuf[SESSION_SIZE..SESSION_SIZE + 8] == WriteBE(first, 8);
      assert packetBuf[SESSION_SIZE + 8..HEADER_SIZE] == WriteBE(count, 2);
      assert packetBuf[HEADER_SIZE..] == was[HEADER_SIZE..];
      assert packetBuf[..] == packetBuf[..SESSION_SIZE] + packetBuf[SESSION_SIZE..SESSION_SIZE + 8] +
                              packetBuf[SESSION_SIZE + 8..HEADER_SIZE] + packetBuf[HEADER_SIZE..];
    }

    /** The next record does not fit behind `offset` bytes of packet. */
    predicate MoreThanFits(offset: nat)
      reads this
    {
      pos + 2 <= |input| && offset + 2 + ReadU16(input, pos) > MAX_PACKET_BYTES
    }

    /** Fills the packet body; ends at the packet size, at a full packet, behind a timing boundary
        and at the end of the input. */
    method Fill() returns (count: nat, offset: nat, ghost ms: seq<Message>)
      requires Valid() && !eof
      modifies this, packetBuf
      ensures Valid() && emitted == old(emitted) + ms && count == |ms| && AllMessages(ms) && (count == 0 ==> eof)
      ensures PacketBody(ms, old(messagesPerPacket)) && HEADER_SIZE <= offset <= MAX_PACKET_BYTES
      ensures packetBuf[HEADER_SIZE..offset] == Blocks(ms)
      ensures eof || count == old(messagesPerPacket) || (ms != [] && IsBoundary(ms[|ms| - 1])) || MoreThanFits(offset)
    {
      hide Valid, TookOne, IsBoundary, Blocks, Ends, PacketBody, ReadU16;
      count, offset, ms := 0, HEADER_SIZE, [];
      EmptyBody(messagesPerPacket);
      StateFacts();
      while count < messagesPerPacket || lastMessageWasEnd
        invariant Valid() && !eof && emitted == old(emitted) + ms && count == |ms| && AllMessages(ms)
        invariant HEADER_SIZE <= offset <= MAX_PACKET_BYTES == packetBuf.Length &&
                  (count == 0 ==> offset == HEADER_SIZE)
        invariant packetBuf[HEADER_SIZE..offset] == Blocks(ms) && messagesPerPacket == old(messagesPerPacket)
        invariant PacketBody(ms, messagesPerPacket) && forall i :: 0 <= i < |ms| ==> !IsBoundary(ms[i])
        invariant lastMessageWasEnd == Ends(emitted) && pos <= |input|
        invariant 0 < messagesPerPacket && count <= messagesPerPacket
        decreases |input| - pos
      {
        ghost var was := packetBuf[..offset];
        var turn, offset' := ReadOne(count, offset);
        StateFacts();
        if !turn.Taken? {
          assert packetBuf[HEADER_SIZE..offset] == packetBuf[..offset][HEADER_SIZE..];
          break;
        }
        BodyGrows(old(emitted), ms, emitted, was, packetBuf[..offset'], messagesPerPacket);
        assert packetBuf[HEADER_SIZE..offset'] == packetBuf[..offset'][HEADER_SIZE..];
        ms := ms + [emitted[|emitted| - 1]];
        count, offset := count + 1, offset';
        if turn.boundary {
          break;
        }
      }
    }

    lemma StateFacts()
      requires Valid()
      ensures lastMessageWasEnd == Ends(emitted) && pos <= |input| && packetBuf.Length == MAX_PACKET_BYTES
      ensures (!eof ==> messagesPerPacket > 0 && configError == "") && |session| == SESSION_SIZE &&
              nextSeq == 1 + |emitted| && AllMessages(emitted)
    {
    }

    lemma Bounds()
      requires Valid()
      ensures 14 * |emitted| <= |input| <= U64_MAX && nextSeq == 1 + |emitted| && |session| == SESSION_SIZE
    {
    }

    lemma EndFacts()
      requires Valid() && eof && configError == ""
      ensures ReadFile(input, policy) == Reading(emitted, ending) && (completed <==> !ending.Broken?)
    {
    }

    /** The next datagram: the records that follow, under a header with the next sequence number. */
    method Next() returns (packet: Option<seq<byte>>, ghost ms: seq<Message>)
      requires Valid()
      modifies this, packetBuf
      ensures Valid() && emitted == old(emitted) + ms && |session| == SESSION_SIZE && (packet.None? ==> eof && ms == [])
      ensures packet.Some? ==>
                && 0 < |ms| <= 103 && AllMessages(ms) && PacketBody(ms, old(messagesPerPacket))
                && packet.value == Datagram(session, old(nextSeq), ms) && |packet.value| <= 1472
                && (eof || |ms| == old(messagesPerPacket) || Pauses(ms[|ms| - 1]) || MoreThanFits(|packet.value|))
                && forall i :: 0 <= i < |ms| - 1 ==> !Pauses(ms[i])
    {
      hide Valid, Blocks, Header, ReadU16;
      StateFacts();
      if eof {
        return None, [];
      }
      var first := nextSeq;
      var count, offset;
      count, offset, ms := Fill();
      if count == 0 {
        return None, [];
      }
      BodySize(ms, old(messagesPerPacket));
      StateFacts();
      ghost var body := packetBuf[HEADER_SIZE..];
      Stamp(first, count);
      assert packetBuf[..offset] == Header(session, first, count) + body[..offset - HEADER_SIZE];
      return Some(packetBuf[..offset]), ms;
    }
  }

  /** The start of system hours or of market hours. */
  predicate Pauses(m: Message) { |m| == 12 && m[0] == 'S' as int && (m[11] == 'S' as int || m[11] == 'Q' as int) }

  predicate IsBoundary(m: Message) { IsEvent(m, 'S') || IsEvent(m, 'Q') }

  /** Messages that may share a packet: nothing follows a timing boundary. */
  ghost predicate PacketBody(ms: seq<Message>, messagesPerPacket: u16) {
    && AllMessages(ms) && |ms| <= messagesPerPacket
    && forall i :: 0 <= i < |ms| - 1 ==> !IsBoundary(ms[i])
  }

  lemma EmptyBody(messagesPerPacket: u16)
    ensures PacketBody([], messagesPerPacket) && Blocks([]) == []
  {
  }

  lemma BodySize(ms: seq<Message>, messagesPerPacket: u16)
    requires PacketBody(ms, messagesPerPacket)
    ensures AllMessages(ms) && 14 * |ms| <= |Blocks(ms)|
  {
  }

  lemma BodyGrows(emitted: seq<Message>, ms: seq<Message>, emitted': seq<Message>, b: seq<byte>, b': seq<byte>,
                  messagesPerPacket: u16)
    requires PacketBody(ms, messagesPerPacket) && |ms| < messagesPerPacket && |b| >= HEADER_SIZE
    requires TookOne(emitted + ms, emitted', b, b') && b[HEADER_SIZE..] == Blocks(ms)
    requires forall i :: 0 <= i < |ms| ==> !IsBoundary(ms[i])
    ensures emitted' != [] && var ms' := ms + [emitted'[|emitted'| - 1]];
            emitted' == emitted + ms' && AllMessages(ms') && PacketBody(ms', messagesPerPacket) &&
                |b'| >= HEADER_SIZE && b'[HEADER_SIZE..] == Blocks(ms')
  {
    hide IsMessage, Block, Blocks;
    var m := emitted'[|emitted'| - 1];
    BlocksSnoc(ms, m);
    assert b'[HEADER_SIZE..] == b[HEADER_SIZE..] + Block(m);
    assert emitted' == emitted'[..|emitted'| - 1] + [m];
  }

  lemma AtLeastTwelve(m: Message)
    requires IsMessage(m)
    ensures 12 <= |m| <= 50
  {
  }

  /** One message was taken and its block appended. */
  ghost predicate TookOne(emitted: seq<Message>, emitted': seq<Message>, b: seq<byte>, b': seq<byte>) {
    && emitted' != [] && emitted'[..|emitted'| - 1] == emitted
    && var m := emitted'[|emitted'| - 1];
       IsMessage(m) && |m| < 0x1_0000 && b' == b + Block(m)
  }
}
