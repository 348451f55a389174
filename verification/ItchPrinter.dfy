/** The ITCH 5.0 messages that move the day, as records: their layout on the wire, and what a
    printed message does. */
module ItchPrinter {
  import opened Types
  import opened BookTypes
  import opened PriceIndex
  import opened ReferenceBook
  import opened BookLaws
  import opened ItchWire
  import IR = ItchReference
  import SD = StockDirectory
  import OT = OrderTable

  type u48 = x: int | 0 <= x < 0x1_0000_0000_0000

  /** The part all messages share. */
  datatype Head = Head(locate: u16, tracking: u16, time: u48)

  /** `attribution` is empty in an 'A' message and four bytes long in an 'F' message. */
  datatype Itch =
    | Event(head: Head, code: byte)
    | Directory(head: Head, stock: seq<byte>, details: seq<byte>)
    | Add(head: Head, ref: u64, side: byte, shares: u32, stock: seq<byte>, price: u32, attribution: seq<byte>)
    | Executed(head: Head, ref: u64, shares: u32, matchNumber: u64)
    | ExecutedAt(head: Head, ref: u64, shares: u32, matchNumber: u64, printable: byte, price: u32)
    | Cancel(head: Head, ref: u64, shares: u32)
    | Delete(head: Head, ref: u64)
    | Replace(head: Head, ref: u64, newRef: u64, shares: u32, price: u32)
  {
    predicate Printable() {
      && (Directory? ==> |stock| == 8 && |details| == 20)
      && (Add? ==> |stock| == 8 && (|attribution| == 0 || |attribution| == 4))
    }

    function Letter(): char {
      match this
      case Event(_, _) => 'S'
      case Directory(_, _, _) => 'R'
      case Add(_, _, _, _, _, _, attribution) => if attribution == [] then 'A' else 'F'
      case Executed(_, _, _, _) => 'E'
      case ExecutedAt(_, _, _, _, _, _) => 'C'
      case Cancel(_, _, _) => 'X'
      case Delete(_, _) => 'D'
      case Replace(_, _, _, _, _) => 'U'
    }
  }

  // ----- Printing -----------------------------------------------------------------------

  function B2(v: u16): (b: seq<byte>) ensures |b| == 2 { PowersOf256(); WriteBE(v, 2) }
  function B4(v: u32): (b: seq<byte>) ensures |b| == 4 { PowersOf256(); WriteBE(v, 4) }
  function B6(v: u48): (b: seq<byte>) ensures |b| == 6 { PowersOf256(); WriteBE(v, 6) }
  function B8(v: u64): (b: seq<byte>) ensures |b| == 8 { PowersOf256(); WriteBE(v, 8) }

  function PrintHead(letter: char, h: Head): (b: seq<byte>)
    requires letter as int < 0x100
    ensures |b| == 11
  {
    [letter as int] + B2(h.locate) + B2(h.tracking) + B6(h.time)
  }

  /** The fields behind the head, in the order of the ITCH 5.0 layout. */
  function Body(m: Itch): seq<byte>
    requires m.Printable()
  {
    match m
    case Event(_, code) => [code]
    case Directory(_, stock, details) => stock + details
    case Add(_, ref, side, shares, stock, price, attribution) =>
      B8(ref) + [side] + B4(shares) + stock + B4(price) + attribution
    case Executed(_, ref, shares, matchNumber) => B8(ref) + B4(shares) + B8(matchNumber)
    case ExecutedAt(_, ref, shares, matchNumber, printable, price) =>
      B8(ref) + B4(shares) + B8(matchNumber) + [printable] + B4(price)
    case Cancel(_, ref, shares) => B8(ref) + B4(shares)
    case Delete(_, ref) => B8(ref)
    case Replace(_, ref, newRef, shares, price) => B8(ref) + B8(newRef) + B4(shares) + B4(price)
  }

  function Print(m: Itch): (b: Message)
    requires m.Printable()
  {
    PrintHead(m.Letter(), m.head) + Body(m)
  }

  /** Where each field lies, and that the length is the one the type demands. */
  lemma Layout(m: Itch)
    requires m.Printable()
    ensures var b := Print(m);
            && IsMessage(b) && b[0] == m.Letter() as int
            && b[1..3] == B2(m.head.locate) && b[3..5] == B2(m.head.tracking) && b[5..11] == B6(m.head.time)
            && (m.Event? ==> b[11] == m.code)
            && (m.Directory? ==> b[11..19] == m.stock && b[19..39] == m.details)
            && (m.Add? ==> b[11..19] == B8(m.ref) && b[19] == m.side && b[20..24] == B4(m.shares) &&
                           b[24..32] == m.stock && b[32..36] == B4(m.price) && b[36..] == m.attribution)
            && (m.Executed? || m.ExecutedAt? || m.Cancel? ==> b[11..19] == B8(m.ref) && b[19..23] == B4(m.shares))
            && (m.Executed? || m.ExecutedAt? ==> b[23..31] == B8(m.matchNumber))
            && (m.ExecutedAt? ==> b[31] == m.printable && b[32..36] == B4(m.price))
            && (m.Delete? ==> b[11..19] == B8(m.ref))
            && (m.Replace? ==> b[11..19] == B8(m.ref) && b[19..27] == B8(m.newRef) && b[27..31] == B4(m.shares) &&
                               b[31..35] == B4(m.price))
  {
    hide B2, B4, B6, B8, PrintHead, Body;
    HeadLayout(m.Letter(), m.head, Body(m));
    BodyLayout(m);
    var h, body := PrintHead(m.Letter(), m.head), Body(m);
    forall i, j | 11 <= i <= j <= |Print(m)| ensures Print(m)[i..j] == body[i - 11..j - 11] { Behind(h, body, i, j); }
  }

  lemma Behind(h: seq<byte>, body: seq<byte>, i: nat, j: nat)
    requires |h| <= i <= j <= |h| + |body|
    ensures (h + body)[i..j] == body[i - |h|..j - |h|]
  {
  }

  lemma HeadLayout(letter: char, h: Head, body: seq<byte>)
    requires letter as int < 0x100
    ensures var b := PrintHead(letter, h) + body;
            b[0] == letter as int && b[1..3] == B2(h.locate) && b[3..5] == B2(h.tracking) && b[5..11] == B6(h.time)
  {
    hide B2, B6;
  }

  lemma BodyLayout(m: Itch)
    requires m.Printable()
    ensures var c := Body(m);
            && 11 + |c| == ExpectedLength(m.Letter() as int)
            && (m.Event? ==> c[0] == m.code)
            && (m.Directory? ==> c[..8] == m.stock && c[8..28] == m.details)
            && (m.Add? ==> c[..8] == B8(m.ref) && c[8] == m.side && c[9..13] == B4(m.shares) &&
                           c[13..21] == m.stock && c[21..25] == B4(m.price) && c[25..] == m.attribution)
            && (m.Executed? || m.ExecutedAt? || m.Cancel? ==> c[..8] == B8(m.ref) && c[8..12] == B4(m.shares))
            && (m.Executed? || m.ExecutedAt? ==> c[12..20] == B8(m.matchNumber))
            && (m.ExecutedAt? ==> c[20] == m.printable && c[21..25] == B4(m.price))
            && (m.Delete? ==> c[..8] == B8(m.ref))
            && (m.Replace? ==> c[..8] == B8(m.ref) && c[8..16] == B8(m.newRef) && c[16..20] == B4(m.shares) &&
                               c[20..24] == B4(m.price))
  {
    hide B2, B4, B6, B8;
  }

  // ----- Reading ------------------------------------------------------------------------

  /** The types the records cover. */
  const LETTERS: set<char> := {'S', 'R', 'A', 'F', 'E', 'C', 'X', 'D', 'U'}

  function ParseHead(b: Message): Head
    requires |b| >= 11
  {
    PowersOf256();
    Head(ReadU16(b, 1), ReadU16(b, 3), ReadBE(b, 5, 6))
  }

  function Parse(b: Message): (m: Itch)
    requires IsMessage(b) && IR.TypeOf(b) in LETTERS
    ensures m.Printable()
  {
    var h := ParseHead(b);
    match IR.TypeOf(b)
    case 'S' => Event(h, b[11])
    case 'R' => Directory(h, b[11..19], b[19..39])
    case 'E' => Executed(h, ReadU64(b, 11), ReadU32(b, 19), ReadU64(b, 23))
    case 'C' => ExecutedAt(h, ReadU64(b, 11), ReadU32(b, 19), ReadU64(b, 23), b[31], ReadU32(b, 32))
    case 'X' => Cancel(h, ReadU64(b, 11), ReadU32(b, 19))
    case 'D' => Delete(h, ReadU64(b, 11))
    case 'U' => Replace(h, ReadU64(b, 11), ReadU64(b, 19), ReadU32(b, 27), ReadU32(b, 31))
    case _ => Add(h, ReadU64(b, 11), b[19], ReadU32(b, 20), b[24..32], ReadU32(b, 32), b[36..])
  }

  /** A field reads as `v` exactly when it holds the bytes of `v`. */
  lemma Field2(b: seq<byte>, off: nat, v: u16)
    requires off + 2 <= |b|
    ensures ReadU16(b, off) == v <==> b[off..off + 2] == B2(v)
  {
    PowersOf256();
    ReadWrite(b, off, v, 2);
  }

  lemma Field4(b: seq<byte>, off: nat, v: u32)
    requires off + 4 <= |b|
    ensures ReadU32(b, off) == v <==> b[off..off + 4] == B4(v)
  {
    PowersOf256();
    ReadWrite(b, off, v, 4);
  }

  lemma Field6(b: seq<byte>, off: nat, v: u48)
    requires off + 6 <= |b|
    ensures ReadU48(b, off) == ReadBE(b, off, 6) && (ReadU48(b, off) == v <==> b[off..off + 6] == B6(v))
  {
    PowersOf256();
    ReadWrite(b, off, v, 6);
  }

  lemma Field8(b: seq<byte>, off: nat, v: u64)
    requires off + 8 <= |b|
    ensures ReadU64(b, off) == v <==> b[off..off + 8] == B8(v)
  {
    PowersOf256();
    ReadWrite(b, off, v, 8);
  }

  lemma HeadReadBack(b: seq<byte>, h: Head)
    requires |b| >= 11
    ensures ParseHead(b) == h <==> b[1..3] == B2(h.locate) && b[3..5] == B2(h.tracking) && b[5..11] == B6(h.time)
  {
    hide B2, B4, B6, B8, ReadBE, ReadU16;
    Field2(b, 1, h.locate);
    Field2(b, 3, h.tracking);
    Field6(b, 5, h.time);
  }

  /** Reading undoes printing. */
  lemma ParsePrint(m: Itch)
    requires m.Printable()
    ensures IsMessage(Print(m)) && IR.TypeOf(Print(m)) in LETTERS && Parse(Print(m)) == m
  {
    hide B2, B4, B6, B8, ReadBE, ReadU16, ReadU32, ReadU64, Print, ParseHead;
    Layout(m);
    var b := Print(m);
    HeadReadBack(b, m.head);
    match m
    case Event(_, _) =>
    case Directory(_, _, _) =>
    case Add(_, ref, _, shares, _, price, _) =>
      Field8(b, 11, ref);
      Field4(b, 20, shares);
      Field4(b, 32, price);
    case Executed(_, ref, shares, matchNumber) =>
      Field8(b, 11, ref);
      Field4(b, 19, shares);
      Field8(b, 23, matchNumber);
    case ExecutedAt(_, ref, shares, matchNumber, _, price) =>
      Field8(b, 11, ref);
      Field4(b, 19, shares);
      Field8(b, 23, matchNumber);
      Field4(b, 32, price);
    case Cancel(_, ref, shares) =>
      Field8(b, 11, ref);
      Field4(b, 19, shares);
    case Delete(_, ref) => Field8(b, 11, ref);
    case Replace(_, ref, newRef, shares, price) =>
      Field8(b, 11, ref);
      Field8(b, 19, newRef);
      Field4(b, 27, shares);
      Field4(b, 31, price);
  }

  /** Every message of these types is a printed record, so nothing on the wire is left out. */
  lemma PrintParse(b: Message)
    requires IsMessage(b) && IR.TypeOf(b) in LETTERS
    ensures Print(Parse(b)) == b
  {
    hide B2, B4, B6, B8, ReadBE, ReadU16, ReadU32, ReadU64, ParseHead;
    var m := Parse(b);
    HeadReadBack(b, m.head);
    assert b[..11] == PrintHead(m.Letter(), m.head);
    BodyReadBack(b, m);
    assert b == b[..11] + b[11..];
  }

  /** What follows the head. */
  lemma BodyReadBack(b: Message, m: Itch)
    requires IsMessage(b) && IR.TypeOf(b) in LETTERS && m == Parse(b)
    ensures b[11..] == Body(m)
  {
    hide Parse, Body;
    match m
    case Event(_, _) => PlainReadBack(b, m);
    case Directory(_, _, _) => PlainReadBack(b, m);
    case Delete(_, _) => PlainReadBack(b, m);
    case Add(_, _, _, _, _, _, _) => AddReadBack(b, m);
    case Replace(_, _, _, _, _) => ReplaceReadBack(b, m);
    case _ => SharesReadBack(b, m);
  }

  lemma PlainReadBack(b: Message, m: Itch)
    requires IsMessage(b) && IR.TypeOf(b) in LETTERS && m == Parse(b) && (m.Event? || m.Directory? || m.Delete?)
    ensures b[11..] == Body(m)
  {
    hide B2, B4, B6, B8, ReadBE, ReadU16, ReadU32, ReadU64, ParseHead;
    if m.Directory? { assert b[11..] == b[11..19] + b[19..39]; }
    if m.Delete? {
      Field8(b, 11, m.ref);
      assert b[11..] == b[11..19];
    }
  }

  lemma AddReadBack(b: Message, m: Itch)
    requires IsMessage(b) && IR.TypeOf(b) in LETTERS && m == Parse(b) && m.Add?
    ensures b[11..] == Body(m)
  {
    hide B2, B4, B6, B8, ReadBE, ReadU16, ReadU32, ReadU64, ParseHead;
    AddSlices(b);
    Field8(b, 11, m.ref);
    Field4(b, 20, m.shares);
    Field4(b, 32, m.price);
  }

  lemma SharesReadBack(b: Message, m: Itch)
    requires IsMessage(b) && IR.TypeOf(b) in LETTERS && m == Parse(b) && (m.Executed? || m.ExecutedAt? || m.Cancel?)
    ensures b[11..] == Body(m)
  {
    hide B2, B4, B6, B8, ReadBE, ReadU16, ReadU32, ReadU64, ParseHead;
    ExecutionSlices(b);
    Field8(b, 11, m.ref);
    Field4(b, 19, m.shares);
    if !m.Cancel? { Field8(b, 23, m.matchNumber); }
    if m.ExecutedAt? { Field4(b, 32, m.price); }
  }

  lemma ReplaceReadBack(b: Message, m: Itch)
    requires IsMessage(b) && IR.TypeOf(b) in LETTERS && m == Parse(b) && m.Replace?
    ensures b[11..] == Body(m)
  {
    hide B2, B4, B6, B8, ReadBE, ReadU16, ReadU32, ReadU64, ParseHead;
    ReplaceSlices(b);
    Field8(b, 11, m.ref);
    Field8(b, 19, m.newRef);
    Field4(b, 27, m.shares);
    Field4(b, 31, m.price);
  }

  lemma AddSlices(b: seq<byte>)
    requires |b| >= 36
    ensures b[11..] == b[11..19] + [b[19]] + b[20..24] + b[24..32] + b[32..36] + b[36..]
  {
  }

  lemma ExecutionSlices(b: seq<byte>)
    ensures |b| == 23 ==> b[11..] == b[11..19] + b[19..23]
    ensures |b| == 31 ==> b[11..] == b[11..19] + b[19..23] + b[23..31]
    ensures |b| == 36 ==> b[11..] == b[11..19] + b[19..23] + b[23..31] + [b[31]] + b[32..36]
  {
  }

  lemma ReplaceSlices(b: seq<byte>)
    requires |b| == 35
    ensures b[11..] == b[11..19] + b[19..27] + b[27..31] + b[31..35]
  {
  }
}
