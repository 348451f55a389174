/** What each printed message does to the day, in terms of its own fields. */
module ItchLaws {
  import opened Types
  import opened BookTypes
  import opened PriceIndex
  import opened ReferenceBook
  import opened BookLaws
  import opened ItchWire
  import opened ItchPrinter
  import IR = ItchReference
  import SD = StockDirectory
  import OT = OrderTable

  /** Within the day and between the start of messages and the end of system hours. */
  predicate InHours(d: IR.Day, h: Head) {
    && h.time < 86_400_000_000_000
    && d.phase != IR.WaitingStartOfMessages && d.phase != IR.PostSystemHours && d.phase != IR.EndOfMessages
  }

  /** Within the day and between the start and the end of messages. */
  predicate InMessages(d: IR.Day, h: Head) {
    h.time < 86_400_000_000_000 && d.phase != IR.WaitingStartOfMessages && d.phase != IR.EndOfMessages
  }

  /** The stock has its book. */
  predicate Trades(d: IR.Day, locate: u16) { d.booksPrepared && locate in d.names }

  /** The eight-byte field of a ticker: padded with blanks on the right. */
  function Padded(t: SD.Ticker): (stock: seq<byte>)
    ensures |stock| == 8
  {
    seq(8, i requires 0 <= i < 8 => if i < |t| then t[i] else ' ' as int)
  }

  /** The head of a printed message as the reference reads it. */
  lemma HeadFields(m: Itch)
    requires m.Printable()
    ensures var b := Print(m);
            && IsMessage(b) && IR.TypeOf(b) == m.Letter() && IR.LocateOf(b) == m.head.locate
            && IR.TimestampOf(b) == m.head.time
  {
    hide B2, B4, B6, B8, ReadBE, ReadU16, Print;
    Layout(m);
    Field2(Print(m), 1, m.head.locate);
    Field6(Print(m), 5, m.head.time);
  }

  /** An 'A' or 'F' message enters an order with its reference, side, price and shares, for a
      registered stock that it names, and touches nothing else. */
  lemma AddDoes(z: Sizes, d: IR.Day, m: Itch)
    requires z.Valid() && IR.DayOk(d) && m.Add? && m.Printable()
    ensures IsMessage(Print(m))
    ensures var v := IR.Step(z, d, Print(m)); var side := if m.side == 'B' as int then Buy else Sell;
            && (v.Accept? <==>
                 && InHours(d, m.head) && Trades(d, m.head.locate) && m.stock == Padded(d.names[m.head.locate])
                 && (m.side == 'B' as int || m.side == 'S' as int) && m.shares > 0 && m.price <= 2_000_000_000
                 && m.ref !in d.books.seen && !OT.NoSeat(z.table, d.books.slots, m.ref)
                 && !PageFull(z, d.books, Page(m.head.locate, PageOf(m.price)))
                 && CountAt(d.books.live, Key(m.head.locate, side, m.price)) != U32_MAX)
            && (v.Accept? ==>
                 && v.day == d.(books := v.day.books)
                 && v.day.books.live == d.books.live[m.ref := Order(m.head.locate, side, m.price, m.shares)])
            && (v.Refuse? ==> v.day == d)
  {
    hide ReadBE, ReadU16, ReadU32, ReadU48, ReadU64, Print, OT.NoSeat, OT.SeatsWith, PageFull, CountAt, AddRef;
    HeadFields(m);
    AddFields(m);
    AddTaken(z, d.books, m.head.locate, m.ref, m.price, m.shares, m.side as char);
    AddMeans(z, d.books, m.head.locate, m.ref, m.price, m.shares, m.side as char);
    if m.head.locate in d.names { StockField(d.names[m.head.locate], m); }
  }

  lemma AddFields(m: Itch)
    requires m.Add? && m.Printable()
    ensures var b := Print(m);
            && |b| >= 36 && ReadU64(b, 11) == m.ref && b[19] == m.side && ReadU32(b, 20) == m.shares
            && b[24..32] == m.stock && ReadU32(b, 32) == m.price
  {
    hide B2, B4, B6, B8, ReadBE, ReadU32, ReadU64, Print;
    Layout(m);
    Field8(Print(m), 11, m.ref);
    Field4(Print(m), 20, m.shares);
    Field4(Print(m), 32, m.price);
  }

  lemma StockField(t: SD.Ticker, m: Itch)
    requires m.Add? && m.Printable()
    ensures |Print(m)| >= 36 && (IR.WireStockMatches(t, Print(m), 24) <==> m.stock == Padded(t))
  {
    hide ReadU32, ReadU64, Print;
    AddFields(m);
    var b := Print(m);
    forall i | 24 <= i < 32 ensures b[i] == m.stock[i - 24] { assert b[24..32][i - 24] == b[i]; }
    if IR.WireStockMatches(t, b, 24) {
      forall i | 0 <= i < 8 ensures m.stock[i] == Padded(t)[i] { assert b[24 + i] == m.stock[i]; }
    }
  }

  /** The order after `shares` of it are gone. */
  function Less(live: Live, ref: u64, shares: u32): Live
    requires ref in live && shares <= live[ref].qty
  {
    if shares == live[ref].qty then live - {ref}
    else live[ref := live[ref].(qty := live[ref].qty - shares)]
  }

  /** An 'E' message takes its shares from the order it names, and a fully executed order is gone. */
  lemma ExecutedDoes(z: Sizes, d: IR.Day, m: Itch)
    requires z.Valid() && (m.Executed? || m.ExecutedAt?)
    ensures IsMessage(Print(m))
    ensures var v := IR.Step(z, d, Print(m)); var live := d.books.live;
            && (v.Accept? <==>
                 && InHours(d, m.head) && Trades(d, m.head.locate) && (m.ExecutedAt? ==> m.price <= 2_000_000_000)
                 && m.ref in live && live[m.ref].locate == m.head.locate && 0 < m.shares <= live[m.ref].qty)
            && (v.Accept? ==> v.day == d.(books := d.books.(live := Less(live, m.ref, m.shares))))
            && (v.Refuse? ==> v.day == d)
  {
    hide ReadBE, ReadU16, ReadU32, ReadU48, ReadU64, Print, ExecuteRef, OnlyLevel;
    HeadFields(m);
    SharesFields(m);
    ExecuteMeans(d.books, m.head.locate, m.ref, m.shares);
  }

  lemma SharesFields(m: Itch)
    requires m.Executed? || m.ExecutedAt? || m.Cancel?
    ensures var b := Print(m);
            && |b| >= 23 && ReadU64(b, 11) == m.ref && ReadU32(b, 19) == m.shares
            && (m.ExecutedAt? ==> |b| == 36 && ReadU32(b, 32) == m.price)
  {
    hide B2, B4, B6, B8, ReadBE, ReadU32, ReadU64, Print;
    Layout(m);
    Field8(Print(m), 11, m.ref);
    Field4(Print(m), 19, m.shares);
    if m.ExecutedAt? { Field4(Print(m), 32, m.price); }
  }

  /** An 'X' message takes its shares from an order that keeps some; it is still taken after the end
      of system hours. */
  lemma CancelDoes(z: Sizes, d: IR.Day, m: Itch)
    requires z.Valid() && m.Cancel?
    ensures IsMessage(Print(m))
    ensures var v := IR.Step(z, d, Print(m)); var live := d.books.live;
            && (v.Accept? <==>
                 && InMessages(d, m.head) && Trades(d, m.head.locate)
                 && m.ref in live && live[m.ref].locate == m.head.locate && 0 < m.shares < live[m.ref].qty)
            && (v.Accept? ==> v.day == d.(books := d.books.(live := Less(live, m.ref, m.shares))))
            && (v.Refuse? ==> v.day == d)
  {
    hide ReadBE, ReadU16, ReadU32, ReadU48, ReadU64, Print, CancelRef, OnlyLevel;
    HeadFields(m);
    SharesFields(m);
    CancelMeans(d.books, m.head.locate, m.ref, m.shares);
  }

  /** A 'D' message takes the order it names away, also after the end of system hours. */
  lemma DeleteDoes(z: Sizes, d: IR.Day, m: Itch)
    requires z.Valid() && m.Delete?
    ensures IsMessage(Print(m))
    ensures var v := IR.Step(z, d, Print(m)); var live := d.books.live;
            && (v.Accept? <==>
                 && InMessages(d, m.head) && Trades(d, m.head.locate)
                 && m.ref in live && live[m.ref].locate == m.head.locate)
            && (v.Accept? ==> v.day == d.(books := d.books.(live := live - {m.ref})))
            && (v.Refuse? ==> v.day == d)
  {
    hide B2, B4, B6, B8, ReadBE, ReadU16, ReadU32, ReadU48, ReadU64, Print, DeleteRef, OnlyLevel;
    HeadFields(m);
    Layout(m);
    Field8(Print(m), 11, m.ref);
    DeleteMeans(d.books, m.head.locate, m.ref);
  }

  /** A 'U' message puts an order with the new reference, price and shares in the place of the old
      one, on the same side of the same book; a refused one changes no order. */
  lemma ReplaceDoes(z: Sizes, d: IR.Day, m: Itch)
    requires z.Valid() && IR.DayOk(d) && m.Replace?
    ensures IsMessage(Print(m))
    ensures var v := IR.Step(z, d, Print(m)); var live := d.books.live;
            && (v.Accept? <==>
                 && InHours(d, m.head) && Trades(d, m.head.locate) && m.newRef !in d.books.seen
                 && m.ref in live && live[m.ref].locate == m.head.locate && m.shares > 0 && m.price <= 2_000_000_000
                 && !OT.NoSeat(z.table, d.books.slots, m.newRef)
                 && !PageFull(z, d.books, Page(m.head.locate, PageOf(m.price))) && !Crowded(live, m.ref, m.price))
            && (v.Accept? ==>
                 && v.day == d.(books := v.day.books)
                 && v.day.books.live ==
                      (live - {m.ref})[m.newRef := Order(m.head.locate, live[m.ref].side, m.price, m.shares)])
            && (v.Refuse? ==> v.day == d.(books := v.day.books) && v.day.books.live == live)
  {
    hide ReadBE, ReadU16, ReadU32, ReadU48, ReadU64, Print, OT.NoSeat, OT.SeatsWith, PageFull, Crowded;
    HeadFields(m);
    ReplaceFields(m);
  }

  lemma ReplaceFields(m: Itch)
    requires m.Replace?
    ensures var b := Print(m);
            && |b| == 35 && ReadU64(b, 11) == m.ref && ReadU64(b, 19) == m.newRef && ReadU32(b, 27) == m.shares
            && ReadU32(b, 31) == m.price
  {
    hide B2, B4, B6, B8, ReadBE, ReadU32, ReadU64, Print;
    Layout(m);
    Field8(Print(m), 11, m.ref);
    Field8(Print(m), 19, m.newRef);
    Field4(Print(m), 27, m.shares);
    Field4(Print(m), 31, m.price);
  }

  // ----- Directory, events and the rest -------------------------------------------------

  /** The text without trailing blanks and NULs. */
  function Trimmed(s: seq<byte>): (r: seq<byte>)
    ensures |r| <= |s|
  {
    if s != [] && (s[|s| - 1] == ' ' as int || s[|s| - 1] == 0) then Trimmed(s[..|s| - 1]) else s
  }

  /** The text up to its first NUL. */
  function BeforeNul(s: seq<byte>): (r: seq<byte>)
    ensures r <= s && (forall i :: 0 <= i < |r| ==> r[i] != 0) && (|r| < |s| ==> s[|r|] == 0)
  {
    if s == [] || s[0] == 0 then [] else [s[0]] + BeforeNul(s[1..])
  }

  lemma {:induction false} TextIs(b: seq<byte>, off: nat, n: nat)
    requires off + n <= |b|
    ensures IR.FixedText(b, off, n) == Trimmed(b[off..off + n])
  {
    if n > 0 {
      assert b[off..off + n][..n - 1] == b[off..off + n - 1];
      TextIs(b, off, n - 1);
    }
  }

  lemma TickerIs(text: SD.Ticker)
    requires |text| <= 8
    ensures SD.TickerView(IR.TickerField(text)) == BeforeNul(text)
  {
    hide SD.TickerView, BeforeNul;
    var t := IR.TickerField(text);
    var r, u := SD.TickerView(t), BeforeNul(text);
    assert r == t[..|r|] && text <= t;
    FirstNul(t, r, u);
  }

  lemma FirstNul(t: seq<byte>, r: seq<byte>, u: seq<byte>)
    requires r <= t && u <= t && |r| < |t| && |u| < |t| && t[|r|] == t[|u|] == 0
    requires (forall i :: 0 <= i < |r| ==> r[i] != 0) && (forall i :: 0 <= i < |u| ==> u[i] != 0)
    ensures r == u
  {
    assert |r| == |u|;
  }

  /** An 'R' message gives its locate the trimmed ticker, once and for one locate only, and touches
      nothing else. */
  lemma DirectoryDoes(z: Sizes, d: IR.Day, m: Itch)
    requires z.Valid() && m.Directory? && m.Printable()
    ensures IsMessage(Print(m))
    ensures var v := IR.Step(z, d, Print(m)); var l := m.head.locate;
            var text := Trimmed(m.stock); var ticker := BeforeNul(text);
            && (v.Accept? <==>
                 && InHours(d, m.head) && l != 0 && ticker != []
                 && (if l in d.names then d.names[l] == ticker == text
                     else forall k :: k in d.names ==> d.names[k] != ticker)
                 && forall k :: k in d.names && d.names[k] == text ==> k == l)
            && (v.Accept? ==> v.day == d.(names := d.names[l := ticker]))
            && (v.Refuse? ==> v.day == d)
  {
    hide B2, B4, B6, B8, ReadBE, ReadU16, ReadU48, Print, IR.FixedText, SD.TickerView, Trimmed, BeforeNul;
    hide IR.TickerField;
    HeadFields(m);
    Layout(m);
    TextIs(Print(m), 11, 8);
    TickerIs(Trimmed(m.stock));
  }

  /** An 'S' message is taken as the next of the six daily events, the last one only without live
      orders, or as one of the three emergency codes without effect. */
  lemma EventDoes(z: Sizes, d: IR.Day, m: Itch)
    requires z.Valid() && IR.DayOk(d) && m.Event?
    ensures IsMessage(Print(m))
    ensures var v := IR.Step(z, d, Print(m)); var code := m.code as char;
            && (v.Accept? <==>
                 && m.head.time < 86_400_000_000_000 && m.head.locate == 0
                 && ((code in "ARB" && InHours(d, m.head)) ||
                     (d.events + [code] <= "OSQMEC" && (code == 'C' ==> d.books.live == map[]))))
            && (v.Accept? && code in "ARB" ==> v.day == d)
            && (v.Accept? && code !in "ARB" ==>
                 && v.day.events == d.events + [code] && v.day.names == d.names && v.day.books == d.books
                 && (v.day.booksPrepared <==> d.booksPrepared || code == 'S'))
            && (v.Refuse? ==> v.day == d)
  {
    hide B2, B4, B6, B8, ReadBE, ReadU16, ReadU48, Print;
    HeadFields(m);
    Layout(m);
    NextEvent(d, m.code as char);
  }

  /** Which event comes next, by phase. */
  lemma NextEvent(d: IR.Day, code: char)
    requires IR.DayOk(d)
    ensures d.events + [code] <= "OSQMEC" <==>
              match d.phase
              case WaitingStartOfMessages => code == 'O'
              case StartupDirectorySpin => code == 'S'
              case StartupAdminSpin => code == 'S'
              case SystemHours => code == 'Q'
              case MarketHours => code == 'M'
              case PostMarketHours => code == 'E'
              case PostSystemHours => code == 'C'
              case EndOfMessages => false
  {
    var all, n := IR.DAILY_EVENTS, |d.events|;
    assert d.events == all[..n];
    if n < 6 {
      assert all[..n + 1] == all[..n] + [all[n]];
      assert (d.events + [code])[n] == code;
    }
  }

  /** A message of any other type is taken within the hours, a broken trade until the end of
      messages, and changes neither directory nor books nor the daily events. */
  lemma OtherDoes(z: Sizes, d: IR.Day, b: Message)
    requires z.Valid() && IsMessage(b) && IR.TypeOf(b) !in LETTERS
    ensures var v := IR.Step(z, d, b);
            && (v.Accept? <==>
                 && IR.TimestampOf(b) < 86_400_000_000_000
                 && d.phase != IR.WaitingStartOfMessages && d.phase != IR.EndOfMessages
                 && (d.phase == IR.PostSystemHours ==> IR.TypeOf(b) == 'B'))
            && (v.Accept? ==> v.day == d.(phase := v.day.phase) &&
                              (v.day.phase != d.phase ==> d.phase == IR.StartupDirectorySpin &&
                                                          v.day.phase == IR.StartupAdminSpin &&
                                                          IR.TypeOf(b) in "HYLVWKJh"))
            && (v.Refuse? ==> v.day == d)
  {
    hide ReadBE, ReadU16, ReadU48;
  }
}
