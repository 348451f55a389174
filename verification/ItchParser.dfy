/** The ITCH parser: gates messages by the phase of the day and applies them to the directory and
    the books.  Proved against ItchReference. */
module ItchParser {
  import opened Types
  import opened BookTypes
  import opened ReferenceBook
  import opened ItchWire
  import opened ItchReference
  import SD = StockDirectory
  import BM = BookManager
  import OB = OrderBook
  import ST = Stores
  import OT = OrderTable

  datatype ParseError = NoError | Wire(text: string) | Book(operation: string, result: MutationResult)

  /** The parser's answer against the expected verdict: the same day, an error exactly on a
      refusal, and a book's result exactly when a book refused. */
  ghost predicate Handled(expected: Verdict, d': Day, e: ParseError) {
    && d' == expected.day
    && match expected
       case Accept(_) => e == NoError
       case Refuse(_, None) => e.Wire?
       case Refuse(_, Some(r)) => e.Book? && e.result == r
  }

  class ItchParser {
    const symbols: SD.StockDirectory
    const books: BM.BookManager
    var phase: Phase
    var booksPrepared: bool
    var lastError: ParseError
    var lastMessageSkipped: bool
    ghost var events: string

    /** Directory, books and parser are each in order and share no object. */
    ghost predicate PartsOk()
      reads symbols, symbols.entries, symbols.index, books, books.repr, books.Roots()
    {
      && books.Roots() <= books.repr
      && this as object !in books.repr && symbols as object !in books.repr
      && symbols.entries as object !in books.repr && symbols.index as object !in books.repr
      && books.books.Length == SD.LOCATES && books.Valid() && symbols.Valid() && Room().Valid()
    }

    /** From the start of system hours on, exactly the registered locates have a book. */
    ghost predicate Valid()
      reads this, symbols, symbols.entries, symbols.index, books, books.repr, books.Roots()
    {
      && PartsOk()
      && forall l: u16 :: books.books[l] != null <==> booksPrepared && l in symbols.names
    }

    ghost function Room(): Sizes { books.Room() }

    ghost function Now(): Day
      reads this, symbols, books.stores
    {
      Day.Day(phase, booksPrepared, symbols.names, books.Books(), events)
    }

    constructor (symbols: SD.StockDirectory, books: BM.BookManager)
      requires symbols.Valid() && books.Valid() && symbols.names == map[]
      requires books.books.Length == SD.LOCATES && books.Roots() <= books.repr && symbols as object !in books.repr
      requires symbols.entries as object !in books.repr && symbols.index as object !in books.repr
      requires books.Books() == NO_BOOKS && forall l: u16 :: books.books[l] == null
      ensures Ready() && Now() == START_OF_DAY && lastError == NoError
      ensures this.symbols == symbols && this.books == books
    {
      hide SD.StockDirectory.Valid, BM.BookManager.Valid, OB.BooksOf;
      assert books.Room().Valid() by { books.RoomIsValid(); }
      this.symbols := symbols;
      this.books := books;
      phase, booksPrepared, lastError, lastMessageSkipped := WaitingStartOfMessages, false, NoError, false;
      events := "";
    }

    method Fail(text: string)
      requires Valid()
      modifies this`lastError, this`lastMessageSkipped
      ensures Valid() && Now() == old(Now()) && lastError == Wire(text) && lastMessageSkipped
    {
      hide OB.BooksOf, SD.StockDirectory.Valid, BM.BookManager.Valid;
      lastMessageSkipped := true;
      lastError := Wire(text);
    }

    method ApplyBookResult(result: MutationResult, operation: string)
      modifies this`lastError, this`lastMessageSkipped
      ensures if result == Applied then lastError == old(lastError) && lastMessageSkipped == old(lastMessageSkipped)
              else lastError == Book(operation, result) && lastMessageSkipped
    {
      if result != Applied {
        lastMessageSkipped := true;
        lastError := Book(operation, result);
      }
    }

    method HandleDelete(m: Message)
      requires Valid() && |m| >= 19 && lastError == NoError
      modifies this, books.repr
      ensures Valid() && books.repr == old(books.repr)
      ensures lastError == NoError ==>
                books.books[LocateOf(m)] != null && books.books[LocateOf(m)].latestTimestamp == TimestampOf(m)
      ensures Handled(Mutated(old(Now()), LocateOf(m), DeleteMessage(old(Now()), m)), Now(), lastError)
    {
      hide ReadU16, ReadU32, ReadU48, ReadU64, OB.BooksOf, SD.StockDirectory.Valid, BM.BookManager.Valid, OB.Refines;
      hide DeleteRef;
      ghost var w := books.stores.world;
      ghost var d := Now();
      var result := books.DeleteOrder(LocateOf(m), ReadU64(m, 11), TimestampOf(m));
      ApplyBookResult(result, "order delete");
      MutationHandled(d, Now(), LocateOf(m), DeleteMessage(d, m), result, w, books.stores.world, lastError,
          "order delete");
    }

    method HandleCancel(m: Message)
      requires Valid() && |m| >= 23 && lastError == NoError
      modifies this, books.repr
      ensures Valid() && books.repr == old(books.repr)
      ensures lastError == NoError ==>
                books.books[LocateOf(m)] != null && books.books[LocateOf(m)].latestTimestamp == TimestampOf(m)
      ensures Handled(Mutated(old(Now()), LocateOf(m), CancelMessage(old(Now()), m)), Now(), lastError)
    {
      hide ReadU16, ReadU32, ReadU48, ReadU64, OB.BooksOf, SD.StockDirectory.Valid, BM.BookManager.Valid, OB.Refines;
      hide CancelRef;
      ghost var w := books.stores.world;
      ghost var d := Now();
      var result := books.CancelShares(LocateOf(m), ReadU64(m, 11), ReadU32(m, 19), TimestampOf(m));
      ApplyBookResult(result, "order cancel");
      MutationHandled(d, Now(), LocateOf(m), CancelMessage(d, m), result, w, books.stores.world, lastError,
          "order cancel");
    }

    method ApplyExecution(m: Message)
      requires Valid() && |m| >= 23 && lastError == NoError
      modifies this, books.repr
      ensures Valid() && books.repr == old(books.repr)
      ensures lastError == NoError ==>
                books.books[LocateOf(m)] != null && books.books[LocateOf(m)].latestTimestamp == TimestampOf(m)
      ensures Handled(Mutated(old(Now()), LocateOf(m), ExecuteMessage(old(Now()), m)), Now(), lastError)
    {
      hide ReadU16, ReadU32, ReadU48, ReadU64, OB.BooksOf, SD.StockDirectory.Valid, BM.BookManager.Valid, OB.Refines;
      hide ExecuteRef;
      ghost var w := books.stores.world;
      ghost var d := Now();
      var result := books.ExecuteOrder(LocateOf(m), ReadU64(m, 11), ReadU32(m, 19), TimestampOf(m));
      ApplyBookResult(result, "order execution");
      MutationHandled(d, Now(), LocateOf(m), ExecuteMessage(d, m), result, w, books.stores.world, lastError,
          "order execution");
    }

    method ApplyReplace(m: Message)
      requires Valid() && |m| >= 35 && lastError == NoError
      modifies this, books.repr
      ensures Valid() && books.repr == old(books.repr)
      ensures lastError == NoError ==>
                books.books[LocateOf(m)] != null && books.books[LocateOf(m)].latestTimestamp == TimestampOf(m)
      ensures Handled(Mutated(old(Now()), LocateOf(m), ReplaceMessage(Room(), old(Now()), m)), Now(), lastError)
    {
      hide ReadU16, ReadU32, ReadU48, ReadU64, OB.BooksOf, SD.StockDirectory.Valid, BM.BookManager.Valid, OB.Refines;
      hide ReplaceRef;
      ghost var w := books.stores.world;
      ghost var d := Now();
      var result := books.ReplaceOrder(LocateOf(m), ReadU64(m, 11), ReadU64(m, 19), ReadU32(m, 31), ReadU32(m, 27),
          TimestampOf(m));
      ApplyBookResult(result, "order replace");
      MutationHandled(d, Now(), LocateOf(m), ReplaceMessage(Room(), d, m), result, w, books.stores.world, lastError,
          "order replace");
    }

    method ApplyAdd(m: Message)
      requires Valid() && |m| >= 36 && lastError == NoError
      modifies this, books.repr
      ensures Valid() && books.repr == old(books.repr)
      ensures lastError == NoError ==>
                books.books[LocateOf(m)] != null && books.books[LocateOf(m)].latestTimestamp == TimestampOf(m)
      ensures Handled(Mutated(old(Now()), LocateOf(m), AddMessage(Room(), old(Now()), m)), Now(), lastError)
    {
      hide ReadU16, ReadU32, ReadU48, ReadU64, OB.BooksOf, SD.StockDirectory.Valid, BM.BookManager.Valid, OB.Refines;
      hide AddRef;
      ghost var w := books.stores.world;
      ghost var d := Now();
      var result := books.AddOrder(LocateOf(m), ReadU64(m, 11), ReadU32(m, 32), ReadU32(m, 20), m[19] as char,
          TimestampOf(m));
      ApplyBookResult(result, "add order");
      MutationHandled(d, Now(), LocateOf(m), AddMessage(Room(), d, m), result, w, books.stores.world, lastError,
          "add order");
    }

    /** Why an add order must be refused before it reaches the books, if it must. */
    method CheckAdd(m: Message) returns (problem: Option<string>)
      requires symbols.Valid() && |m| >= 36
      ensures problem.None? <==> LocateOf(m) in symbols.names && WireStockMatches(symbols.names[LocateOf(m)], m, 24)
    {
      hide ReadU16, SD.StockDirectory.Valid, WireStockMatches, SD.TickerView;
      var entry := symbols.Get(LocateOf(m));
      if entry.None? {
        return Some("add order uses unregistered stock locate");
      }
      if !WireStockMatches(SD.TickerView(entry.value.ticker), m, 24) {
        return Some("add order stock does not match registered ticker");
      }
      return None;
    }

    method HandleAdd(m: Message)
      requires Valid() && IsMessage(m) && TypeOf(m) in {'A', 'F'} && lastError == NoError
      modifies this, books.repr
      ensures Valid() && books.repr == old(books.repr)
      ensures lastError == NoError ==>
                books.books[LocateOf(m)] != null && books.books[LocateOf(m)].latestTimestamp == TimestampOf(m)
      ensures Handled(OrderMessage(Room(), old(Now()), m), Now(), lastError)
      ensures lastError == NoError ==> Booked(old(Now()).books.live, Now().books.live, m)
    {
      hide ReadU16, ReadU32, ReadU48, ReadU64, OB.BooksOf, SD.StockDirectory.Valid, BM.BookManager.Valid, AddMessage;
      hide Mutated, WireStockMatches, OrderMessage, Handled, Booked;
      ghost var d := Now();
      AddCase(Room(), d, m);
      var problem := CheckAdd(m);
      if problem.Some? {
        FailureHandled(d, problem.value);
        Fail(problem.value);
        return;
      }
      ApplyAdd(m);
      AddBooked(Room(), d, m, Now(), lastError);
    }

    method HandleOrderExecutedWithPrice(m: Message)
      requires Valid() && IsMessage(m) && TypeOf(m) == 'C' && lastError == NoError
      modifies this, books.repr
      ensures Valid() && books.repr == old(books.repr)
      ensures lastError == NoError ==>
                books.books[LocateOf(m)] != null && books.books[LocateOf(m)].latestTimestamp == TimestampOf(m)
      ensures Handled(OrderMessage(Room(), old(Now()), m), Now(), lastError)
    {
      hide ReadU16, ReadU32, ReadU48, ReadU64, OB.BooksOf, SD.StockDirectory.Valid, BM.BookManager.Valid;
      hide ExecuteMessage, Mutated, OrderMessage, Handled;
      ghost var d := Now();
      OtherOrderCases(Room(), d, m);
      FailureHandled(d, "order execution with price: price out of range");
      if ReadU32(m, 32) > MAX_ITCH_PRICE4 {
        Fail("order execution with price: price out of range");
        return;
      }
      ApplyExecution(m);
    }

    method HandleReplace(m: Message)
      requires Valid() && IsMessage(m) && TypeOf(m) == 'U' && lastError == NoError
      modifies this, books.repr
      ensures Valid() && books.repr == old(books.repr)
      ensures lastError == NoError ==>
                books.books[LocateOf(m)] != null && books.books[LocateOf(m)].latestTimestamp == TimestampOf(m)
      ensures Handled(OrderMessage(Room(), old(Now()), m), Now(), lastError)
      ensures lastError == NoError ==> Swapped(old(Now()).books.live, Now().books.live, m)
    {
      hide ReadU16, ReadU32, ReadU48, ReadU64, OB.BooksOf, SD.StockDirectory.Valid, BM.BookManager.Valid;
      hide ReplaceMessage, Mutated, OrderMessage, Handled, Swapped;
      ghost var d := Now();
      OtherOrderCases(Room(), d, m);
      FailureHandled(d, "replacement order reference is not new");
      if ReadU64(m, 19) == ReadU64(m, 11) {
        Fail("replacement order reference is not new");
        return;
      }
      ApplyReplace(m);
      ReplaceBooked(Room(), d, m, Now(), lastError);
    }

    /** Creates the book of a registered locate. */
    method CreateRegisteredBook(locate: u16) returns (ok: bool)
      requires PartsOk()
      modifies this, books.repr
      ensures PartsOk() && fresh(books.repr - old(books.repr)) && ok == (locate in symbols.names)
      ensures forall l: u16 :: books.books[l] != null <==> old(books.books[l]) != null || (l == locate && ok)
      ensures Now() == old(Now()) && lastError == old(lastError)
    {
      hide OB.BooksOf, SD.StockDirectory.Valid, BM.BookManager.Valid;
      var registered := symbols.IsRegistered(locate);
      if locate == 0 || !registered {
        RegisteredNonZero();
        return false;
      }
      var book := books.GetOrCreate(locate);
      return book != null;
    }

    /** Creates a book for every registered locate. */
    method CreateRegisteredBooks() returns (success: bool)
      requires PartsOk() && forall l: u16 :: books.books[l] == null
      modifies this, books.repr
      ensures PartsOk() && fresh(books.repr - old(books.repr)) && success
      ensures forall l: u16 :: books.books[l] != null <==> l in symbols.names
      ensures Now() == old(Now()) && lastError == old(lastError)
    {
      hide OB.BooksOf, SD.StockDirectory.Valid, BM.BookManager.Valid;
      success := true;
      RegisteredNonZero();
      for slot := 1 to SD.LOCATES
        invariant PartsOk() && fresh(books.repr - old(books.repr)) && success
        invariant forall l: u16 :: books.books[l] != null <==> l < slot && l in symbols.names
        invariant Now() == old(Now()) && lastError == old(lastError)
      {
        var registered := symbols.IsRegistered(slot);
        if registered {
          var ok := CreateRegisteredBook(slot);
          success := ok && success;
        }
      }
    }

    method AdvancePhase(next: Phase, ghost code: char) returns (ok: bool)
      requires Valid()
      modifies this`phase, this`lastError, this`lastMessageSkipped, this`events
      ensures Valid() && ok == MayAdvance(old(phase), next)
      ensures ok ==> Now() == old(Now()).(phase := next, events := old(events) + [code]) && lastError == old(lastError)
      ensures !ok ==> Now() == old(Now()) && lastError == Wire("out-of-order or duplicate system event")
    {
      hide OB.BooksOf, SD.StockDirectory.Valid, BM.BookManager.Valid;
      if !MayAdvance(phase, next) {
        Fail("out-of-order or duplicate system event");
        return false;
      }
      phase := next;
      events := events + [code];
      return true;
    }

    method HandleSystemHoursStart()
      requires Valid() && lastError == NoError && (booksPrepared ==> phase !in {StartupDirectorySpin, StartupAdminSpin})
      modifies this, books.repr
      ensures Valid() && fresh(books.repr - old(books.repr))
      ensures Handled(SystemEvent(old(Now()), 'S'), Now(), lastError)
    {
      hide OB.BooksOf, SD.StockDirectory.Valid, BM.BookManager.Valid;
      var ok := AdvancePhase(SystemHours, 'S');
      if !ok {
        return;
      }
      booksPrepared := true;
      var success := CreateRegisteredBooks();
      if !success {
        assert false;
      }
    }

    method NoLiveOrders() returns (clean: bool)
      requires Valid()
      ensures Valid() && clean == (Now().books.live == map[]) && Now() == old(Now())
    {
      hide OB.BooksOf, SD.StockDirectory.Valid, BM.BookManager.Valid;
      var live := books.TotalLiveOrderCount();
      EmptyIsEmpty(Now().books.live);
      return live == 0;
    }

    /** Moves the lifecycle on at one of the six daily events other than the start of system hours. */
    method HandleDailyEvent(code: char)
      requires Valid() && lastError == NoError && code != 'S' && EventPhase(code).Some?
      modifies this
      ensures Valid() && Handled(SystemEvent(old(Now()), code), Now(), lastError)
    {
      hide OB.BooksOf, Valid, Handled, SystemEvent, MayAdvance, EventPhase;
      ghost var d := Now();
      DailyEventCases(d, code);
      if code == 'C' {
        var clean := NoLiveOrders();
        if !clean {
          Fail("end of messages with live orders");
          return;
        }
      }
      var _ := AdvancePhase(EventPhase(code).value, code);
    }

    method HandleSystemEvent(code: char)
      requires Valid() && lastError == NoError && DayOk(Now())
      modifies this, books.repr
      ensures Valid() && fresh(books.repr - old(books.repr))
      ensures Handled(SystemEvent(old(Now()), code), Now(), lastError)
    {
      hide OB.BooksOf, SD.StockDirectory.Valid, BM.BookManager.Valid, Handled;
      ghost var d := Now();
      EventCases(d, code);
      if code == 'S' {
        HandleSystemHoursStart();
      } else if EventPhase(code).Some? {
        HandleDailyEvent(code);
      } else if code != 'A' && code != 'R' && code != 'B' {
        Fail("unsupported system event code");
      }
    }

    /** Why a directory message must be refused before it reaches the directory, if it must. */
    method CheckIdentity(locate: u16, text: SD.Ticker) returns (problem: Option<string>)
      requires symbols.Valid()
      ensures problem.Some? <==>
                text == [] || locate == 0 || (locate in symbols.names && symbols.names[locate] != text) ||
                exists l :: l in symbols.names && symbols.names[l] == text && l != locate
    {
      hide SD.Indexed, SD.TickerView;
      if text == [] || locate == 0 {
        return Some("invalid stock-directory identity");
      }
      SD.OneLocatePerTicker(symbols.index[..], symbols.entries[..], symbols.names, symbols.slotOf,
          symbols.NaturalSlots());
      var existing := symbols.Get(locate);
      if existing.Some? && SD.TickerView(existing.value.ticker) != text {
        return Some("conflicting ticker for stock locate");
      }
      var other := symbols.LocateForTicker(text);
      if other != SD.INVALID_LOCATE && other != locate {
        return Some("ticker is already registered to another stock locate");
      }
      return None;
    }

    method HandleStockDirectory(m: Message)
      requires Valid() && |m| == 39 && lastError == NoError && phase != WaitingStartOfMessages
      modifies this, symbols, symbols.entries, symbols.index, books.repr
      ensures Valid() && fresh(books.repr - old(books.repr))
      ensures Handled(Directory(old(Now()), m), Now(), lastError)
      ensures lastError == NoError ==>
                var entry := symbols.entries[LocateOf(m)];
                && entry.marketCategory == m[19] && entry.finStatus == m[20] && entry.roundLotSize == ReadU32(m, 21)
                && (entry.roundLotsOnly <==> m[25] == 'Y' as int) && entry.issueClassification == m[26]
                && (entry.isTest <==> m[29] == 'T' as int) && entry.locate == LocateOf(m)
    {
      hide ReadU16, ReadU32, OB.BooksOf, SD.StockDirectory.Valid, BM.BookManager.Valid, FixedText, SD.TickerView;
      hide TickerField, Handled, Directory;
      ghost var d := Now();
      var locate := LocateOf(m);
      var text := FixedText(m, 11, 8);
      DirectoryCases(d, m);
      var problem := CheckIdentity(locate, text);
      if problem.Some? {
        FailureHandled(d, problem.value);
        Fail(problem.value);
        return;
      }
      RegisterEntry(locate, SD.Entry(ReadU32(m, 21), locate, TickerField(text), m[19], m[20],
                                     m[29] == 'T' as int, m[25] == 'Y' as int, m[26]));
    }

    /** Stores a directory entry and, once books exist, creates the book of a new locate. */
    method RegisterEntry(locate: u16, entry: SD.Entry)
      requires Valid() && lastError == NoError && |entry.ticker| == 9
      modifies this, symbols, symbols.entries, symbols.index, books.repr
      ensures Valid() && fresh(books.repr - old(books.repr))
      ensures var d := old(Now()); var ticker := SD.TickerView(entry.ticker);
              Handled(if SD.SetAccepts(d.names, locate, ticker) then Accept(d.(names := d.names[locate := ticker]))
                      else Refuse(d, None), Now(), lastError)
      ensures symbols.entries.Length == SD.LOCATES
      ensures lastError == NoError ==>
                symbols.entries[locate] == SD.Canonical(locate, entry)
    {
      hide OB.BooksOf, SD.StockDirectory.Valid, BM.BookManager.Valid, SD.TickerView, Handled, SD.SetAccepts;
      ghost var d := Now();
      var ok := symbols.Set(locate, entry);
      if !ok {
        FailureHandled(d, "unable to register stock-directory identity");
        Fail("unable to register stock-directory identity");
        return;
      }
      CoverRegistered(locate);
      SuccessHandled(Now());
    }

    /** Once books exist, gives a registered locate its book. */
    method CoverRegistered(locate: u16)
      requires PartsOk() && locate in symbols.names && (books.books[locate] != null ==> booksPrepared)
      requires forall l: u16 :: l != locate ==> (books.books[l] != null <==> booksPrepared && l in symbols.names)
      modifies this, books.repr
      ensures Valid() && fresh(books.repr - old(books.repr)) && Now() == old(Now()) && lastError == old(lastError)
    {
      hide OB.BooksOf, SD.StockDirectory.Valid, BM.BookManager.Valid;
      if booksPrepared {
        var created := CreateRegisteredBook(locate);
        if !created {
          assert false;
        }
      }
    }

    method MarkStartupAdminMessage()
      modifies this`phase
      ensures phase == if old(phase) == StartupDirectorySpin then StartupAdminSpin else old(phase)
    {
      if phase == StartupDirectorySpin {
        phase := StartupAdminSpin;
      }
    }

    /** Routes an order message of one of the seven book-changing types. */
    method DispatchOrder(m: Message)
      requires Valid() && IsMessage(m) && TypeOf(m) in {'A', 'F', 'E', 'C', 'X', 'D', 'U'} && lastError == NoError
      modifies this, books.repr
      ensures Valid() && books.repr == old(books.repr)
      ensures lastError == NoError ==>
                books.books[LocateOf(m)] != null && books.books[LocateOf(m)].latestTimestamp == TimestampOf(m)
      ensures Handled(OrderMessage(Room(), old(Now()), m), Now(), lastError)
    {
      hide ReadU16, ReadU32, ReadU64, OB.BooksOf, SD.StockDirectory.Valid, BM.BookManager.Valid, Handled, OrderMessage;
      hide Mutated;
      OtherOrderCases(Room(), Now(), m);
      match TypeOf(m)
      case 'E' => ApplyExecution(m);
      case 'C' => HandleOrderExecutedWithPrice(m);
      case 'X' => HandleCancel(m);
      case 'D' => HandleDelete(m);
      case 'U' => HandleReplace(m);
      case _ => HandleAdd(m);
    }

    method Dispatch(m: Message)
      requires Valid() && IsMessage(m) && lastError == NoError && DayOk(Now())
      modifies this, symbols, symbols.entries, symbols.index, books.repr
      ensures Valid() && fresh(books.repr - old(books.repr))
      ensures lastError == NoError && IsMessage(m) && TypeOf(m) in {'A', 'F', 'E', 'C', 'X', 'D', 'U'} ==>
                books.books[LocateOf(m)] != null && books.books[LocateOf(m)].latestTimestamp == TimestampOf(m)
      ensures Handled(Step(Room(), old(Now()), m), Now(), lastError)
    {
      hide ReadU16, ReadU32, ReadU48, ReadU64, OB.BooksOf, SD.StockDirectory.Valid, BM.BookManager.Valid, Handled;
      hide OrderMessage, SystemEvent, Directory, DayOk, Permitted;
      ghost var d := Now();
      var t := TypeOf(m);
      var problem := Gate(phase, m);
      if problem.Some? {
        FailureHandled(d, problem.value);
        Fail(problem.value);
        return;
      }
      if t in {'A', 'F', 'E', 'C', 'X', 'D', 'U'} {
        DispatchOrder(m);
      } else if t == 'R' {
        PermittedNotWaiting(phase, m);
        HandleStockDirectory(m);
      } else if t == 'S' {
        HandleSystemEvent(EventCode(m));
      } else {
        if t in "HYLVWKJh" {
          MarkStartupAdminMessage();
        } else {
          lastMessageSkipped := true;
        }
        SuccessHandled(Now());
      }
    }

    /** The decoder's entry: the packet prepass has already checked type and length. */
    method HandlePrevalidatedMessage(m: Message)
      requires Ready() && IsMessage(m)
      modifies this, symbols, symbols.entries, symbols.index, books.repr
      ensures Ready() && fresh(books.repr - old(books.repr))
      ensures lastError == NoError && IsMessage(m) && TypeOf(m) in {'A', 'F', 'E', 'C', 'X', 'D', 'U'} ==>
                books.books[LocateOf(m)] != null && books.books[LocateOf(m)].latestTimestamp == TimestampOf(m)
      ensures Handled(Step(Room(), old(Now()), m), Now(), lastError)
    {
      hide OB.BooksOf, SD.StockDirectory.Valid, BM.BookManager.Valid, Step, DayOk;
      ghost var d := Now();
      lastError, lastMessageSkipped := NoError, false;
      Dispatch(m);
      HandledKeeps(Room(), d, m, Now(), lastError);
    }

    /** The public entry: any bytes; a malformed message is refused without effect. */
    method HandleMessage(m: Message)
      requires Ready()
      modifies this, symbols, symbols.entries, symbols.index, books.repr
      ensures Ready() && fresh(books.repr - old(books.repr))
      ensures lastError == NoError && IsMessage(m) && TypeOf(m) in {'A', 'F', 'E', 'C', 'X', 'D', 'U'} ==>
                books.books[LocateOf(m)] != null && books.books[LocateOf(m)].latestTimestamp == TimestampOf(m)
      ensures Handled(if IsMessage(m) then Step(Room(), old(Now()), m) else Refuse(old(Now()), None), Now(), lastError)
    {
      hide OB.BooksOf, SD.StockDirectory.Valid, BM.BookManager.Valid, Step, DayOk;
      if m == [] {
        Fail("empty ITCH message");
        return;
      }
      if ExpectedLength(m[0]) == 0 {
        Fail("unsupported ITCH message type");
        return;
      }
      if |m| != ExpectedLength(m[0]) {
        Fail("invalid ITCH message length");
        return;
      }
      HandlePrevalidatedMessage(m);
    }

    /** In order, and in a state some accepted feed leads to. */
    ghost predicate Ready()
      reads this, symbols, symbols.entries, symbols.index, books, books.repr, books.Roots()
    {
      Valid() && DayOk(Now())
    }

    /** From the start of system hours on the directory audit is clean after every message. */
    method Audit() returns (audit: BM.Audit)
      requires Ready()
      ensures booksPrepared || symbols.names == map[] ==> audit.Clean()
      ensures audit.Clean() <==> (booksPrepared || symbols.names == map[])
    {
      hide OB.BooksOf, DayOk, SD.Indexed;
      RegisteredNonZero();
      audit := books.AuditDirectory(symbols);
      if symbols.names != map[] {
        var l: u16 :| l in symbols.names;
        assert booksPrepared <==> books.books[l] != null;
      }
    }

    lemma RoomIsValid()
      requires Ready()
      ensures Room().Valid()
    {
      hide SD.StockDirectory.Valid, BM.BookManager.Valid, OB.BooksOf, DayOk;
    }

    lemma NoOrdersLeft()
      requires Ready() && Now().books.live == map[]
      ensures books.AllEmpty()
    {
      hide SD.StockDirectory.Valid, BM.BookManager.Valid, OB.BooksOf, DayOk, BM.BookManager.AllEmpty;
      books.NoOrdersLeft();
    }

    lemma RegisteredNonZero()
      requires symbols.Valid()
      ensures 0 !in symbols.names
    {
      SD.NotZero(symbols.index[..], symbols.entries[..], symbols.names, symbols.slotOf, symbols.NaturalSlots());
    }
  }

  /** Why the time of day or the phase shuts a message out, if it does. */
  function Gate(phase: Phase, m: Message): (problem: Option<string>)
    requires IsMessage(m)
    ensures problem.None? <==> TimestampOf(m) < NANOSECONDS_PER_DAY && Permitted(phase, m)
  {
    hide ReadU16, ReadU48;
    if TimestampOf(m) >= NANOSECONDS_PER_DAY then Some("ITCH timestamp is outside trading day")
    else if TypeOf(m) == 'S' && LocateOf(m) != 0 then Some("System Event stock locate is not zero")
    else if phase == WaitingStartOfMessages && (TypeOf(m) != 'S' || EventCode(m) != 'O') then
      Some("first ITCH message is not System Event O")
    else if phase == EndOfMessages then Some("ITCH message after end of messages")
    else if phase == PostSystemHours && TypeOf(m) != 'X' && TypeOf(m) != 'D' && TypeOf(m) != 'B' &&
            !(TypeOf(m) == 'S' && EventCode(m) == 'C') then
      Some("ITCH message is not permitted after System Event E")
    else None
  }

  /** A routed mutation that refines its reference outcome is handled as expected. */
  lemma MutationHandled(d: Day, d': Day, l: u16, ref: Outcome, r: MutationResult, w: ST.World, w': ST.World,
                        e: ParseError, op: string)
    requires d.books == OB.BooksOf(w) && d'.books == OB.BooksOf(w') && d' == d.(books := d'.books)
    requires OB.Refines(BM.Routed(HasBook(d, l), OB.BooksOf(w), ref), r, w, w', l)
    requires e == if r == Applied then NoError else Book(op, r)
    ensures Handled(Mutated(d, l, ref), d', e)
  {
    hide OB.BooksOf;
  }

  lemma FailureHandled(d: Day, text: string)
    ensures Handled(Refuse(d, None), d, Wire(text))
  {
  }

  /** An order with the reference, side, price and shares of the message is live. */
  ghost predicate Booked(live: Live, live': Live, m: Message) {
    && |m| >= 36 && (m[19] == 'B' as int || m[19] == 'S' as int)
    && live' == live[ReadU64(m, 11) :=
         Order(LocateOf(m), if m[19] == 'B' as int then Buy else Sell, ReadU32(m, 32), ReadU32(m, 20))]
  }

  /** The order with the new reference, price and shares of the message is live in the place of the
      old one, on its side. */
  ghost predicate Swapped(live: Live, live': Live, m: Message) {
    |m| >= 35 &&
    var ref := ReadU64(m, 11);
    && ref in live && live[ref].locate == LocateOf(m)
    && live' == (live - {ref})[ReadU64(m, 19) := Order(LocateOf(m), live[ref].side, ReadU32(m, 31), ReadU32(m, 27))]
  }

  lemma AddBooked(z: Sizes, d: Day, m: Message, d': Day, e: ParseError)
    requires z.Valid() && |m| >= 36 && Handled(Mutated(d, LocateOf(m), AddMessage(z, d, m)), d', e)
    ensures e == NoError ==> Booked(d.books.live, d'.books.live, m)
  {
    hide ReadU16, ReadU32, ReadU64, OT.NoSeat, OT.SeatsWith, PageFull, LevelFull;
  }

  lemma ReplaceBooked(z: Sizes, d: Day, m: Message, d': Day, e: ParseError)
    requires z.Valid() && |m| >= 35 && Handled(Mutated(d, LocateOf(m), ReplaceMessage(z, d, m)), d', e)
    ensures e == NoError ==> Swapped(d.books.live, d'.books.live, m)
  {
    hide ReadU16, ReadU32, ReadU64, OT.NoSeat, OT.SeatsWith, PageFull, Crowded;
  }

  lemma AddCase(z: Sizes, d: Day, m: Message)
    requires z.Valid() && IsMessage(m) && TypeOf(m) in {'A', 'F'}
    ensures OrderMessage(z, d, m) ==
              if LocateOf(m) !in d.names || !WireStockMatches(d.names[LocateOf(m)], m, 24) then Refuse(d, None)
              else Mutated(d, LocateOf(m), AddMessage(z, d, m))
  {
    hide ReadU16, Mutated, AddMessage, WireStockMatches;
  }

  lemma OtherOrderCases(z: Sizes, d: Day, m: Message)
    requires z.Valid() && IsMessage(m)
    ensures TypeOf(m) == 'C' ==>
              OrderMessage(z, d, m) == if ReadU32(m, 32) > MAX_ITCH_PRICE4 then Refuse(d, None)
                                       else Mutated(d, LocateOf(m), ExecuteMessage(d, m))
    ensures TypeOf(m) == 'U' ==>
              OrderMessage(z, d, m) == if ReadU64(m, 19) == ReadU64(m, 11) then Refuse(d, None)
                                       else Mutated(d, LocateOf(m), ReplaceMessage(z, d, m))
    ensures TypeOf(m) == 'E' ==> OrderMessage(z, d, m) == Mutated(d, LocateOf(m), ExecuteMessage(d, m))
    ensures TypeOf(m) == 'X' ==> OrderMessage(z, d, m) == Mutated(d, LocateOf(m), CancelMessage(d, m))
    ensures TypeOf(m) == 'D' ==> OrderMessage(z, d, m) == Mutated(d, LocateOf(m), DeleteMessage(d, m))
  {
    hide ReadU16, ReadU32, ReadU64, Mutated, ExecuteMessage, CancelMessage, DeleteMessage, ReplaceMessage;
  }

  lemma EmptyIsEmpty(live: Live)
    ensures |live| == 0 <==> live == map[]
  {
  }

  lemma EventCases(d: Day, code: char)
    ensures code in {'A', 'R', 'B'} ==> Handled(SystemEvent(d, code), d, NoError)
    ensures EventPhase(code).None? && code !in {'A', 'R', 'B'} ==>
              Handled(SystemEvent(d, code), d, Wire("unsupported system event code"))
  {
  }

  lemma DailyEventCases(d: Day, code: char)
    requires code != 'S' && EventPhase(code).Some?
    ensures code == 'C' && d.books.live != map[] ==>
              Handled(SystemEvent(d, code), d, Wire("end of messages with live orders"))
    ensures (code == 'C' ==> d.books.live == map[]) ==>
              var to := EventPhase(code).value;
              if MayAdvance(d.phase, to) then Handled(SystemEvent(d, code),
                  d.(phase := to, events := d.events + [code]), NoError)
              else Handled(SystemEvent(d, code), d, Wire("out-of-order or duplicate system event"))
  {
  }

  lemma SuccessHandled(d': Day)
    ensures Handled(Accept(d'), d', NoError)
  {
  }

  lemma DirectoryCases(d: Day, m: Message)
    requires |m| == 39
    ensures var locate := LocateOf(m); var text := FixedText(m, 11, 8); var ticker := SD.TickerView(TickerField(text));
            Directory(d, m) ==
              if text == [] || locate == 0 || (locate in d.names && d.names[locate] != text) ||
                 (exists l :: l in d.names && d.names[l] == text && l != locate) ||
                 !SD.SetAccepts(d.names, locate, ticker)
              then Refuse(d, None)
              else Accept(d.(names := d.names[locate := ticker]))
  {
    hide ReadU16, FixedText, SD.TickerView, TickerField;
  }

  lemma PermittedNotWaiting(phase: Phase, m: Message)
    requires IsMessage(m) && Permitted(phase, m) && TypeOf(m) != 'S'
    ensures phase != WaitingStartOfMessages
  {
  }

  /** Acceptance and rejection both keep what every accepted feed keeps. */
  lemma HandledKeeps(z: Sizes, d: Day, m: Message, d': Day, e: ParseError)
    requires z.Valid() && DayOk(d) && IsMessage(m) && Handled(Step(z, d, m), d', e)
    ensures DayOk(d')
  {
    hide Step, DayOk;
    StepKeeps(z, d, m);
  }
}
