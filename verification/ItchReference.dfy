/** What a day of ITCH messages means: the lifecycle, the directory and the live orders as values.
    A step is refused exactly when the feed is malformed or inconsistent, or an order finds no
    room. */
module ItchReference {
  import opened Types
  import opened BookTypes
  import opened ReferenceBook
  import opened FiniteSets
  import OT = OrderTable
  import opened ItchWire
  import SD = StockDirectory

  datatype Phase =
    | WaitingStartOfMessages
    | StartupDirectorySpin
    | StartupAdminSpin
    | SystemHours
    | MarketHours
    | PostMarketHours
    | PostSystemHours
    | EndOfMessages

  const NANOSECONDS_PER_DAY: nat := 86_400_000_000_000

  /** `events` are the daily system events accepted so far. */
  datatype Day = Day(phase: Phase, booksPrepared: bool, names: map<u16, SD.Ticker>, books: Books, events: string)

  const START_OF_DAY: Day := Day(WaitingStartOfMessages, false, map[], NO_BOOKS, "")

  /** The day after a message, and whether the message was accepted.  A refusal by the books comes
      with their result. */
  datatype Verdict = Accept(day: Day) | Refuse(day: Day, why: Option<MutationResult>)

  function TypeOf(m: Message): char requires |m| > 0 { m[0] as char }
  function LocateOf(m: Message): u16 requires |m| >= 3 { ReadU16(m, 1) }
  function TimestampOf(m: Message): u64 requires |m| >= 11 { ReadU48(m, 5) }
  function EventCode(m: Message): char requires |m| >= 12 { m[11] as char }

  /** Text with trailing blanks and NULs cut off. */
  function FixedText(m: Message, off: nat, len: nat): (r: SD.Ticker)
    requires off + len <= |m|
    ensures |r| <= len && r == m[off..off + |r|]
  {
    if len > 0 && (m[off + len - 1] == ' ' as int || m[off + len - 1] == 0) then FixedText(m, off, len - 1)
    else m[off..off + len]
  }

  /** The blank-padded wire form of a registered ticker is what the message carries. */
  predicate WireStockMatches(ticker: SD.Ticker, m: Message, off: nat)
    requires off + 8 <= |m|
  {
    forall i :: off <= i < off + 8 ==> m[i] == if i - off < |ticker| then ticker[i - off] else ' ' as int
  }

  // ----- Lifecycle ----------------------------------------------------------------------

  /** The phase a daily system event leads to. */
  function EventPhase(code: char): Option<Phase> {
    match code
    case 'O' => Some(StartupDirectorySpin)
    case 'S' => Some(SystemHours)
    case 'Q' => Some(MarketHours)
    case 'M' => Some(PostMarketHours)
    case 'E' => Some(PostSystemHours)
    case 'C' => Some(EndOfMessages)
    case _ => None
  }

  predicate MayAdvance(from: Phase, to: Phase) {
    match to
    case StartupDirectorySpin => from == WaitingStartOfMessages
    case SystemHours => from == StartupDirectorySpin || from == StartupAdminSpin
    case MarketHours => from == SystemHours
    case PostMarketHours => from == MarketHours
    case PostSystemHours => from == PostMarketHours
    case EndOfMessages => from == PostSystemHours
    case _ => false
  }

  /** Which messages the phase lets through. */
  predicate Permitted(phase: Phase, m: Message)
    requires IsMessage(m)
  {
    && (TypeOf(m) == 'S' ==> LocateOf(m) == 0)
    && (phase == WaitingStartOfMessages ==> TypeOf(m) == 'S' && EventCode(m) == 'O')
    && phase != EndOfMessages
    && (phase == PostSystemHours ==>
         TypeOf(m) == 'X' || TypeOf(m) == 'D' || TypeOf(m) == 'B' || (TypeOf(m) == 'S' && EventCode(m) == 'C'))
  }

  function SystemEvent(d: Day, code: char): Verdict {
    if code == 'A' || code == 'R' || code == 'B' then Accept(d)
    else match EventPhase(code)
      case None => Refuse(d, None)
      case Some(to) =>
        if code == 'C' && d.books.live != map[] then Refuse(d, None)
        else if !MayAdvance(d.phase, to) then Refuse(d, None)
        else Accept(d.(phase := to, events := d.events + [code], booksPrepared := d.booksPrepared || code == 'S'))
  }

  // ----- Directory ----------------------------------------------------------------------

  /** The ticker field a directory message registers. */
  function TickerField(text: SD.Ticker): (t: seq<byte>)
    requires |text| <= 8
    ensures |t| == 9
  {
    text + seq(9 - |text|, _ => 0)
  }

  function Directory(d: Day, m: Message): Verdict
    requires |m| == 39
  {
    var locate := LocateOf(m);
    var text := FixedText(m, 11, 8);
    var ticker := SD.TickerView(TickerField(text));
    if text == [] || locate == 0 then Refuse(d, None)
    else if locate in d.names && d.names[locate] != text then Refuse(d, None)
    else if exists l :: l in d.names && d.names[l] == text && l != locate then Refuse(d, None)
    else if ticker == [] then Refuse(d, None)
    else if locate in d.names && d.names[locate] != ticker then Refuse(d, None)
    else if locate !in d.names && exists l :: l in d.names && d.names[l] == ticker then Refuse(d, None)
    else Accept(d.(names := d.names[locate := ticker]))
  }

  // ----- Orders -------------------------------------------------------------------------

  /** A book exists for the locate. */
  predicate HasBook(d: Day, locate: u16) { d.booksPrepared && locate in d.names }

  function Mutated(d: Day, locate: u16, o: Outcome): Verdict {
    if !HasBook(d, locate) then Refuse(d, Some(BookNotPrepared))
    else if o.result == Applied then Accept(d.(books := o.books))
    else Refuse(d.(books := o.books), Some(o.result))
  }

  ghost function AddMessage(z: Sizes, d: Day, m: Message): Outcome
    requires z.Valid() && |m| >= 36
  {
    AddRef(z, d.books, LocateOf(m), ReadU64(m, 11), ReadU32(m, 32), ReadU32(m, 20), m[19] as char)
  }

  function ExecuteMessage(d: Day, m: Message): Outcome
    requires |m| >= 23
  {
    ExecuteRef(d.books, LocateOf(m), ReadU64(m, 11), ReadU32(m, 19))
  }

  function CancelMessage(d: Day, m: Message): Outcome
    requires |m| >= 23
  {
    CancelRef(d.books, LocateOf(m), ReadU64(m, 11), ReadU32(m, 19))
  }

  function DeleteMessage(d: Day, m: Message): Outcome
    requires |m| >= 19
  {
    DeleteRef(d.books, LocateOf(m), ReadU64(m, 11))
  }

  ghost function ReplaceMessage(z: Sizes, d: Day, m: Message): Outcome
    requires z.Valid() && |m| >= 35
  {
    ReplaceRef(z, d.books, LocateOf(m), ReadU64(m, 11), ReadU64(m, 19), ReadU32(m, 31), ReadU32(m, 27))
  }

  ghost function OrderMessage(z: Sizes, d: Day, m: Message): Verdict
    requires z.Valid() && IsMessage(m) && TypeOf(m) in {'A', 'F', 'E', 'C', 'X', 'D', 'U'}
  {
    var l := LocateOf(m);
    match TypeOf(m)
    case 'E' => Mutated(d, l, ExecuteMessage(d, m))
    case 'C' => if ReadU32(m, 32) > MAX_ITCH_PRICE4 then Refuse(d, None) else Mutated(d, l, ExecuteMessage(d, m))
    case 'X' => Mutated(d, l, CancelMessage(d, m))
    case 'D' => Mutated(d, l, DeleteMessage(d, m))
    case 'U' =>
      if ReadU64(m, 19) == ReadU64(m, 11) then Refuse(d, None) else Mutated(d, l, ReplaceMessage(z, d, m))
    case _ =>
      if l !in d.names || !WireStockMatches(d.names[l], m, 24) then Refuse(d, None)
      else Mutated(d, l, AddMessage(z, d, m))
  }

  // ----- The step -----------------------------------------------------------------------

  /** One message, with `z` telling how much room the books have. */
  ghost function Step(z: Sizes, d: Day, m: Message): Verdict
    requires z.Valid() && IsMessage(m)
  {
    if TimestampOf(m) >= NANOSECONDS_PER_DAY || !Permitted(d.phase, m) then Refuse(d, None)
    else match TypeOf(m)
      case 'A' => OrderMessage(z, d, m)
      case 'F' => OrderMessage(z, d, m)
      case 'E' => OrderMessage(z, d, m)
      case 'C' => OrderMessage(z, d, m)
      case 'X' => OrderMessage(z, d, m)
      case 'D' => OrderMessage(z, d, m)
      case 'U' => OrderMessage(z, d, m)
      case 'R' => Directory(d, m)
      case 'S' => SystemEvent(d, EventCode(m))
      case t =>
        if t in "HYLVWKJh" && d.phase == StartupDirectorySpin then Accept(d.(phase := StartupAdminSpin)) else Accept(d)
  }

  /** A whole feed, if every message of it is accepted. */
  ghost function Replay(z: Sizes, d: Day, ms: seq<Message>): Option<Day>
    requires z.Valid() && AllMessages(ms)
  {
    if ms == [] then Some(d)
    else match Replay(z, d, ms[..|ms| - 1])
      case None => None
      case Some(e) =>
        match Step(z, e, ms[|ms| - 1])
        case Accept(day) => Some(day)
        case Refuse(_, _) => None
  }

  // ----- Properties of every accepted feed ----------------------------------------------

  const DAILY_EVENTS: string := "OSQMEC"

  /** The phase tells exactly which daily events have been accepted, in their one order. */
  ghost predicate LifecycleOk(d: Day) {
    && d.events <= DAILY_EVENTS
    && (match d.phase
        case WaitingStartOfMessages => |d.events| == 0
        case StartupDirectorySpin => |d.events| == 1
        case StartupAdminSpin => |d.events| == 1
        case SystemHours => |d.events| == 2
        case MarketHours => |d.events| == 3
        case PostMarketHours => |d.events| == 4
        case PostSystemHours => |d.events| == 5
        case EndOfMessages => |d.events| == 6)
    && (d.booksPrepared <==> |d.events| >= 2)
  }

  /** Every live order belongs to a registered locate, no ticker has two locates, and after the
      last event no order is left. */
  ghost predicate DayOk(d: Day) {
    && LifecycleOk(d)
    && 0 !in d.names
    && (forall l :: l in d.names ==> d.names[l] != [])
    && (forall l, k :: l in d.names && k in d.names && d.names[l] == d.names[k] ==> l == k)
    && (forall r :: r in d.books.live ==> d.books.live[r].locate in d.names)
    && d.books.live.Keys <= d.books.seen
    && (d.books.live != map[] ==> d.booksPrepared)
    && (d.phase == EndOfMessages ==> d.books.live == map[])
  }

  lemma EventKeeps(d: Day, code: char)
    requires DayOk(d)
    ensures DayOk(SystemEvent(d, code).day)
  {
    var d' := SystemEvent(d, code).day;
    if d' != d {
      var n := |d.events|;
      assert d.events == DAILY_EVENTS[..n];
      assert d'.events == DAILY_EVENTS[..n] + [code];
      assert code == DAILY_EVENTS[n];
      assert DAILY_EVENTS[..n] + [DAILY_EVENTS[n]] == DAILY_EVENTS[..n + 1];
    }
  }

  /** A mutation of book `l`: every order is one of that book or was there before. */
  ghost predicate Local(b: Books, b': Books, l: u16) {
    && b'.live.Keys <= b'.seen
    && forall r :: r in b'.live ==> b'.live[r].locate == l || (r in b.live && b'.live[r].locate == b.live[r].locate)
  }

  lemma CutsAreLocal(b: Books, l: u16, id: u64, qty: u32)
    requires b.live.Keys <= b.seen
    ensures Local(b, CancelRef(b, l, id, qty).books, l) && Local(b, DeleteRef(b, l, id).books, l)
    ensures Local(b, ExecuteRef(b, l, id, qty).books, l)
  {
  }

  lemma AddIsLocal(z: Sizes, b: Books, l: u16, id: u64, price: u64, qty: u32, side: char)
    requires z.Valid() && b.live.Keys <= b.seen
    ensures Local(b, AddRef(z, b, l, id, price, qty, side).books, l)
  {
    hide OT.NoSeat, OT.SeatsWith, PageFull, LevelFull;
  }

  lemma ReplaceIsLocal(z: Sizes, b: Books, l: u16, id: u64, newId: u64, price: u64, qty: u32)
    requires z.Valid() && b.live.Keys <= b.seen
    ensures Local(b, ReplaceRef(z, b, l, id, newId, price, qty).books, l)
  {
    hide OT.NoSeat, OT.SeatsWith, PageFull, Crowded;
  }

  lemma MutatedKeeps(d: Day, l: u16, o: Outcome)
    requires DayOk(d) && d.phase != EndOfMessages && Local(d.books, o.books, l)
    ensures DayOk(Mutated(d, l, o).day)
  {
  }

  lemma OrderKeeps(z: Sizes, d: Day, m: Message)
    requires z.Valid() && DayOk(d) && IsMessage(m) && TypeOf(m) in {'A', 'F', 'E', 'C', 'X', 'D', 'U'}
    requires d.phase != EndOfMessages
    ensures DayOk(OrderMessage(z, d, m).day)
  {
    hide ReadU16, ReadU32, ReadU64, WireStockMatches, AddRef, ReplaceRef, CancelRef, DeleteRef, ExecuteRef, Mutated;
    hide Local;
    var b, l, id := d.books, LocateOf(m), ReadU64(m, 11);
    forall o: Outcome | Local(b, o.books, l) ensures DayOk(Mutated(d, l, o).day) { MutatedKeeps(d, l, o); }
    if TypeOf(m) == 'A' || TypeOf(m) == 'F' {
      AddIsLocal(z, b, l, id, ReadU32(m, 32), ReadU32(m, 20), m[19] as char);
    } else if TypeOf(m) == 'U' {
      ReplaceIsLocal(z, b, l, id, ReadU64(m, 19), ReadU32(m, 31), ReadU32(m, 27));
    } else {
      CutsAreLocal(b, l, id, if TypeOf(m) == 'D' then 0 else ReadU32(m, 19));
    }
  }

  lemma RefusalKeepsPhase(z: Sizes, d: Day, m: Message)
    requires z.Valid() && IsMessage(m) && Step(z, d, m).Refuse?
    ensures Step(z, d, m).day.phase == d.phase
  {
    hide ReadU16, ReadU32, ReadU48, ReadU64, WireStockMatches, FixedText, SD.TickerView, Permitted;
    hide AddMessage, ReplaceMessage, ExecuteMessage, CancelMessage, DeleteMessage;
  }

  /** Every message, accepted or refused, keeps what holds of a day. */
  lemma StepKeeps(z: Sizes, d: Day, m: Message)
    requires z.Valid() && DayOk(d) && IsMessage(m)
    ensures DayOk(Step(z, d, m).day)
  {
    hide ReadU16, ReadU32, ReadU48, ReadU64, ReadBE, WireStockMatches, FixedText, SD.TickerView, OrderMessage;
    hide SystemEvent;
    match TypeOf(m)
    case 'S' => EventKeeps(d, EventCode(m));
    case _ =>
      if TypeOf(m) in {'A', 'F', 'E', 'C', 'X', 'D', 'U'} && Permitted(d.phase, m) { OrderKeeps(z, d, m); }
  }

  /** What holds after every accepted feed. */
  lemma {:induction false} ReplayKeeps(z: Sizes, ms: seq<Message>)
    requires z.Valid() && AllMessages(ms) && Replay(z, START_OF_DAY, ms).Some?
    ensures DayOk(Replay(z, START_OF_DAY, ms).value)
  {
    hide Step;
    if ms != [] {
      ReplayKeeps(z, ms[..|ms| - 1]);
      StepKeeps(z, Replay(z, START_OF_DAY, ms[..|ms| - 1]).value, ms[|ms| - 1]);
    }
  }

  /** A feed that reached the end of messages carried the six daily events, each once and in
      order, and left no order alive. */
  lemma EndOfDay(z: Sizes, ms: seq<Message>)
    requires z.Valid() && AllMessages(ms)
    requires Replay(z, START_OF_DAY, ms).Some? && Replay(z, START_OF_DAY, ms).value.phase == EndOfMessages
    ensures Replay(z, START_OF_DAY, ms).value.events == "OSQMEC"
    ensures Replay(z, START_OF_DAY, ms).value.books.live == map[]
  {
    ReplayKeeps(z, ms);
  }

  /** Every prefix of an accepted feed is accepted, and the end of messages comes last. */
  lemma {:induction false} NothingAfterEnd(z: Sizes, d: Day, ms: seq<Message>, j: nat)
    requires z.Valid() && AllMessages(ms) && j < |ms| && Replay(z, d, ms).Some?
    ensures Replay(z, d, ms[..j]).Some? && Replay(z, d, ms[..j]).value.phase != EndOfMessages
  {
    hide ReadU16, ReadU48, OrderMessage, Directory, SystemEvent;
    var n := |ms| - 1;
    if j < n {
      NothingAfterEnd(z, d, ms[..n], j);
      assert ms[..n][..j] == ms[..j];
    }
  }

  lemma ReplayOne(z: Sizes, d: Day, ms: seq<Message>, m: Message)
    requires z.Valid() && AllMessages(ms) && IsMessage(m) && Replay(z, d, ms).Some?
    ensures AllMessages(ms + [m])
    ensures Replay(z, d, ms + [m]) ==
            match Step(z, Replay(z, d, ms).value, m) case Accept(day) => Some(day) case Refuse(_, _) => None
  {
    hide Step, IsMessage;
    assert (ms + [m])[..|ms|] == ms;
  }

  // ----- Enough room --------------------------------------------------------------------

  /** The reference a message would bring in. */
  function Introduces(m: Message): Option<u64>
    requires IsMessage(m)
  {
    if TypeOf(m) == 'A' || TypeOf(m) == 'F' then Some(ReadU64(m, 11))
    else if TypeOf(m) == 'U' then Some(ReadU64(m, 19))
    else None
  }

  /** Sizes that a feed of `n` messages cannot exhaust. */
  ghost predicate Ample(z: Sizes, ms: seq<Message>, n: nat)
    requires AllMessages(ms)
  {
    && z.Valid() && n <= z.pages && n <= U32_MAX
    && forall i :: 0 <= i < |ms| && Introduces(ms[i]).Some? ==> Introduces(ms[i]).value < z.table.directSlots
  }

  /** After `k` messages at most `k` pages, `k` orders and no fallback slot are in use. */
  ghost predicate Light(b: Books, k: nat) {
    |b.pages| <= k && |b.live| <= k && b.slots == {}
  }

  /** The same outcome whatever the sizes, never for want of room, with a load that stays light. */
  ghost predicate Roomy(o: Outcome, o': Outcome, k: nat) {
    o == o' && o.result !in CAPACITY_RESULTS && Light(o.books, k)
  }

  lemma LightLevels(b: Books, k: nat)
    requires Light(b, k) && k < U32_MAX
    ensures forall key: Key :: !LevelFull(b.live, key)
  {
    hide CountAt;
    forall key: Key ensures !LevelFull(b.live, key) { CountBelow(b.live, key); }
  }

  lemma CountBelow(live: Live, k: Key)
    ensures CountAt(live, k) <= |live|
  {
    SubsetSize(OrdersAt(live, k), live.Keys);
  }

  lemma LightPlace(z: Sizes, z': Sizes, b: Books, id: u64, o: Order, k: nat)
    requires z.Valid() && z'.Valid() && Light(b, k) && k < z.pages && k < z'.pages && k < U32_MAX
    requires id < z.table.directSlots && id < z'.table.directSlots
    ensures Roomy(PlaceRef(z, b, id, o), PlaceRef(z', b, id, o), k + 1)
  {
    hide LevelFull, PageAt, KeyOf, OT.Candidates;
    LightLevels(b, k);
    SizeWith(b.live, id, o);
  }

  lemma LightSwap(z: Sizes, z': Sizes, b: Books, oldId: u64, newId: u64, o: Order, k: nat)
    requires z.Valid() && z'.Valid() && Light(b, k) && k < z.pages && k < z'.pages && k < U32_MAX
    requires newId < z.table.directSlots && newId < z'.table.directSlots && oldId in b.live
    ensures Roomy(SwapRef(z, b, oldId, newId, o), SwapRef(z', b, oldId, newId, o), k + 1)
  {
    hide LevelFull, PageAt, OT.Candidates;
    LightLevels(b, k);
    SizeWithout(b.live, oldId);
    SizeWith(b.live - {oldId}, newId, o);
  }

  lemma SizeWith(live: Live, id: u64, o: Order)
    ensures |live[id := o]| <= |live| + 1
  {
    assert live[id := o].Keys == live.Keys + {id};
  }

  lemma SizeWithout(live: Live, id: u64)
    requires id in live
    ensures |live - {id}| == |live| - 1
  {
    assert (live - {id}).Keys == live.Keys - {id};
  }

  /** Cancels, deletes and executions need no room. */
  lemma LightCut(b: Books, locate: u16, id: u64, qty: u32, k: nat)
    requires Light(b, k)
    ensures Roomy(CancelRef(b, locate, id, qty), CancelRef(b, locate, id, qty), k + 1)
    ensures Roomy(DeleteRef(b, locate, id), DeleteRef(b, locate, id), k + 1)
    ensures Roomy(ExecuteRef(b, locate, id, qty), ExecuteRef(b, locate, id, qty), k + 1)
  {
    if id in b.live {
      SizeWithout(b.live, id);
      if qty <= b.live[id].qty { SizeWith(b.live, id, b.live[id].(qty := b.live[id].qty - qty)); }
    }
  }

  lemma LightAdd(z: Sizes, z': Sizes, d: Day, m: Message, k: nat)
    requires z.Valid() && z'.Valid() && |m| >= 36 && Light(d.books, k) && k < z.pages && k < z'.pages && k < U32_MAX
    requires ReadU64(m, 11) < z.table.directSlots && ReadU64(m, 11) < z'.table.directSlots
    ensures Roomy(AddMessage(z, d, m), AddMessage(z', d, m), k + 1)
  {
    hide ReadU16, ReadU32, ReadU64, PlaceRef;
    var side := DecodeSide(m[19] as char);
    if side != NoSide {
      LightPlace(z, z', d.books, ReadU64(m, 11), Order(LocateOf(m), side, ReadU32(m, 32), ReadU32(m, 20)), k);
    }
  }

  lemma LightReplace(z: Sizes, z': Sizes, d: Day, m: Message, k: nat)
    requires z.Valid() && z'.Valid() && |m| >= 35 && Light(d.books, k) && k < z.pages && k < z'.pages && k < U32_MAX
    requires ReadU64(m, 19) < z.table.directSlots && ReadU64(m, 19) < z'.table.directSlots
    ensures Roomy(ReplaceMessage(z, d, m), ReplaceMessage(z', d, m), k + 1)
  {
    hide ReadU16, ReadU32, ReadU64, SwapRef;
    var id := ReadU64(m, 11);
    if id in d.books.live {
      var o := Order(LocateOf(m), d.books.live[id].side, ReadU32(m, 31), ReadU32(m, 27));
      LightSwap(z, z', d.books, id, ReadU64(m, 19), o, k);
    }
  }

  /** A verdict that owes nothing to the sizes. */
  ghost predicate Unhindered(v: Verdict, v': Verdict, k: nat) {
    && v == v' && Light(v.day.books, k)
    && (v.Refuse? && v.why.Some? ==> v.why.value !in CAPACITY_RESULTS)
  }

  lemma RoomyVerdict(d: Day, k: nat)
    requires Light(d.books, k)
    ensures Unhindered(Refuse(d, None), Refuse(d, None), k + 1)
    ensures forall l: u16, o: Outcome, o': Outcome :: Roomy(o, o', k + 1) ==>
              Unhindered(Mutated(d, l, o), Mutated(d, l, o'), k + 1)
  {
  }

  lemma LightOrder(z: Sizes, z': Sizes, d: Day, m: Message, k: nat)
    requires z.Valid() && z'.Valid() && IsMessage(m) && Light(d.books, k) && k < z.pages && k < z'.pages && k < U32_MAX
    requires Introduces(m).Some? ==>
               Introduces(m).value < z.table.directSlots &&
               Introduces(m).value < z'.table.directSlots
    requires TypeOf(m) in {'A', 'F', 'E', 'C', 'X', 'D', 'U'}
    ensures Unhindered(OrderMessage(z, d, m), OrderMessage(z', d, m), k + 1)
  {
    hide ReadU16, ReadU32, ReadU64, WireStockMatches, AddRef, ReplaceRef, CancelRef, DeleteRef, ExecuteRef;
    hide AddMessage, ReplaceMessage, Mutated, Roomy, Unhindered, Light;
    RoomyVerdict(d, k);
    if TypeOf(m) == 'A' || TypeOf(m) == 'F' {
      LightAdd(z, z', d, m, k);
    } else if TypeOf(m) == 'U' {
      LightReplace(z, z', d, m, k);
    } else {
      LightCut(d.books, LocateOf(m), ReadU64(m, 11), if TypeOf(m) == 'D' then 0 else ReadU32(m, 19), k);
    }
  }

  /** With a light load a message that brings in a small reference finds room, so the sizes do not
      matter to it. */
  lemma LightStep(z: Sizes, z': Sizes, d: Day, m: Message, k: nat)
    requires z.Valid() && z'.Valid() && IsMessage(m) && Light(d.books, k) && k < z.pages && k < z'.pages && k < U32_MAX
    requires Introduces(m).Some? ==>
               Introduces(m).value < z.table.directSlots &&
               Introduces(m).value < z'.table.directSlots
    ensures Step(z, d, m) == Step(z', d, m) && Light(Step(z, d, m).day.books, k + 1)
    ensures Step(z, d, m).Refuse? && Step(z, d, m).why.Some? ==> Step(z, d, m).why.value !in CAPACITY_RESULTS
  {
    hide ReadU16, ReadU48, ReadU64, OrderMessage, SystemEvent, Directory, Permitted, TimestampOf, Introduces;
    if TypeOf(m) in {'A', 'F', 'E', 'C', 'X', 'D', 'U'} { LightOrder(z, z', d, m, k); }
    LightOther(d, m);
  }

  lemma LightOther(d: Day, m: Message)
    requires IsMessage(m)
    ensures |m| == 39 ==>
              Directory(d, m).day.books == d.books &&
              (Directory(d, m).Refuse? ==> Directory(d, m).why.None?)
    ensures forall code :: SystemEvent(d, code).day.books == d.books
    ensures forall code :: SystemEvent(d, code).Refuse? ==> SystemEvent(d, code).why.None?
  {
    hide ReadU16, FixedText, SD.TickerView;
  }

  /** For a feed whose references have direct slots of their own, and with as many pages as messages,
      the sizes do not matter at all. */
  lemma {:induction false} AmpleRoom(z: Sizes, z': Sizes, ms: seq<Message>)
    requires AllMessages(ms) && Ample(z, ms, |ms|) && Ample(z', ms, |ms|)
    ensures Replay(z, START_OF_DAY, ms) == Replay(z', START_OF_DAY, ms)
    ensures Replay(z, START_OF_DAY, ms).Some? ==> Light(Replay(z, START_OF_DAY, ms).value.books, |ms|)
  {
    hide Step, Light, Introduces;
    if ms == [] {
      LightStart();
    } else {
      var n := |ms| - 1;
      AmpleRoom(z, z', ms[..n]);
      if Replay(z, START_OF_DAY, ms[..n]).Some? {
        LightStep(z, z', Replay(z, START_OF_DAY, ms[..n]).value, ms[n], n);
      }
    }
  }

  /** With such sizes no message that follows an accepted part of the feed is refused for want of
      room. */
  lemma NeverForRoom(z: Sizes, ms: seq<Message>, n: nat)
    requires AllMessages(ms) && Ample(z, ms, |ms|) && n < |ms| && Replay(z, START_OF_DAY, ms[..n]).Some?
    ensures var v := Step(z, Replay(z, START_OF_DAY, ms[..n]).value, ms[n]);
            v.Refuse? && v.why.Some? ==> v.why.value !in CAPACITY_RESULTS
  {
    hide Step, Light, Introduces, Replay;
    AmpleRoom(z, z, ms[..n]);
    LightStep(z, z, Replay(z, START_OF_DAY, ms[..n]).value, ms[n], n);
  }

  lemma LightStart()
    ensures Light(START_OF_DAY.books, 0)
  {
  }
}
