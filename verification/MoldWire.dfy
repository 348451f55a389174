/** MoldUDP64 datagrams: the header fields and the length-prefixed message blocks. */
module MoldWire {
  import opened Types
  import opened ItchWire

  const SESSION_SIZE: nat := 10
  const HEADER_SIZE: nat := 20
  const END_OF_SESSION: u16 := 0xFFFF

  datatype DecodeStatus =
    | Ok
    | PacketTooSmall
    | InvalidSize
    | EndOfStream
    | InvalidSequence
    | InvalidSession
    | RedundantFeedMismatch
    | InvalidItchMessage
    | IncompleteSession

  function SessionOf(d: seq<byte>): seq<byte> requires |d| >= HEADER_SIZE { d[..SESSION_SIZE] }
  function FirstSequence(d: seq<byte>): u64 requires |d| >= HEADER_SIZE { ReadU64(d, 10) }
  function MessageCount(d: seq<byte>): u16 requires |d| >= HEADER_SIZE { ReadU16(d, 18) }

  /** A header; the three fields can be read back (HeaderFields). */
  function Header(session: seq<byte>, first: u64, count: u16): (h: seq<byte>)
    requires |session| == SESSION_SIZE
    ensures |h| == HEADER_SIZE
  {
    PowersOf256();
    session + WriteBE(first, 8) + WriteBE(count, 2)
  }

  lemma HeaderFields(session: seq<byte>, first: u64, count: u16, body: seq<byte>)
    requires |session| == SESSION_SIZE
    ensures var d := Header(session, first, count) + body;
            SessionOf(d) == session && FirstSequence(d) == first && MessageCount(d) == count
  {
    hide WriteBE, ReadBE;
    PowersOf256();
    var d := Header(session, first, count) + body;
    assert d[..10] == session;
    assert d[10..18] == WriteBE(first, 8);
    assert d[18..20] == WriteBE(count, 2);
    ReadWrite(d, 10, first, 8);
    ReadWrite(d, 18, count, 2);
  }

  /** The header on the wire: ten session bytes, eight bytes of sequence number and two of count,
      each with the most significant byte first. */
  lemma HeaderBytes(session: seq<byte>, first: u64, count: u16, i: nat)
    requires |session| == SESSION_SIZE && i < 8
    ensures var h := Header(session, first, count);
            h[..10] == session && h[10 + i] == first / Pow256(7 - i) % 256 && h[18] == count / 256 &&
                h[19] == count % 256
  {
    hide WriteBE, ReadBE, Pow256;
    PowersOf256();
    WrittenDigits(first, 8, i);
    var h := Header(session, first, count);
    assert h[..10] == session;
    assert h[10 + i] == WriteBE(first, 8)[i];
    CountBytes(count);
    assert h[18] == WriteBE(count, 2)[0] && h[19] == WriteBE(count, 2)[1];
  }

  lemma CountBytes(count: u16)
    ensures count < Pow256(2) && WriteBE(count, 2) == [count / 256, count % 256]
  {
    WrittenDigits(count, 2, 0);
    WrittenDigits(count, 2, 1);
    assert Pow256(1) == 256 && Pow256(0) == 1;
  }

  /** How a header is read, byte by byte. */
  lemma HeaderValues(d: seq<byte>)
    requires |d| >= 20
    ensures SessionOf(d) == d[..10]
    ensures FirstSequence(d) == ReadU32(d, 10) * 0x1_0000_0000 + ReadU32(d, 14)
    ensures MessageCount(d) == d[18] as int * 0x100 + d[19]
  {
    hide ReadU16, ReadU32, ReadU64;
    FieldValues(d, 10);
    FieldValues(d, 18);
  }

  // ----- Blocks -------------------------------------------------------------------------

  /** One block: a two-byte length and the message. */
  function Block(m: Message): (b: seq<byte>)
    requires |m| < 0x1_0000
    ensures |b| == 2 + |m|
  {
    PowersOf256();
    WriteBE(|m|, 2) + m
  }

  /** The payload that carries `ms`. */
  function Blocks(ms: seq<Message>): (b: seq<byte>)
    requires AllMessages(ms)
    ensures |b| >= 14 * |ms|
  {
    if ms == [] then [] else Block(ms[0]) + Blocks(ms[1..])
  }

  datatype Framing = Framed(messages: seq<Message>) | Malformed(status: DecodeStatus)

  /** Reads `n` blocks from `off` to the very end. */
  function Unframe(d: seq<byte>, off: nat, n: nat): (f: Framing)
    requires off <= |d|
    ensures f.Malformed? ==> f.status == InvalidSize || f.status == InvalidItchMessage
    decreases n
  {
    if n == 0 then
      if off == |d| then Framed([]) else Malformed(InvalidSize)
    else if off + 2 > |d| then Malformed(InvalidSize)
    else
      var len := ReadU16(d, off);
      if len == 0 || len > |d| - (off + 2) then Malformed(InvalidSize)
      else
        var m := d[off + 2..off + 2 + len];
        if !IsMessage(m) then Malformed(InvalidItchMessage)
        else match Unframe(d, off + 2 + len, n - 1)
          case Framed(ms) => Framed([m] + ms)
          case Malformed(status) => Malformed(status)
  }

  /** Reading blocks is the exact inverse of writing them: it succeeds with `ms` precisely on the
      bytes that carry `ms`. */
  lemma {:induction false} UnframeIsInverse(d: seq<byte>, off: nat, n: nat, ms: seq<Message>)
    requires off <= |d|
    ensures Unframe(d, off, n) == Framed(ms) <==> |ms| == n && AllMessages(ms) && d[off..] == Blocks(ms)
    decreases n
  {
    hide WriteBE, ReadBE, ExpectedLength;
    if n == 0 {
      assert off == |d| <==> d[off..] == [];
    } else {
      if Unframe(d, off, n) == Framed(ms) {
        UnframedStep(d, off, n, ms);
      }
      if |ms| == n && AllMessages(ms) && d[off..] == Blocks(ms) {
        FramedStep(d, off, n, ms);
      }
    }
  }

  /** A non-empty block starts at `off` and holds `m`, exactly when its length and bytes do. */
  lemma BlockAt(d: seq<byte>, off: nat, m: Message)
    requires off + 2 + |m| <= |d| && |m| < 0x1_0000
    ensures d[off..off + 2 + |m|] == Block(m) <==> ReadU16(d, off) == |m| && d[off + 2..off + 2 + |m|] == m
  {
    hide WriteBE, ReadBE;
    PowersOf256();
    var b := d[off..off + 2 + |m|];
    ReadWrite(d, off, |m|, 2);
    assert b == d[off..off + 2] + d[off + 2..off + 2 + |m|];
    assert Block(m)[..2] == WriteBE(|m|, 2) && Block(m)[2..] == m;
    assert b[..2] == d[off..off + 2] && b[2..] == d[off + 2..off + 2 + |m|];
  }

  /** The first block of a valid rest. */
  lemma FirstBlock(d: seq<byte>, offset: nat, n: nat, ms: seq<Message>)
    requires offset <= |d| && n > 0 && Unframe(d, offset, n) == Framed(ms)
    ensures offset + 2 <= |d| && var length := ReadU16(d, offset);
            && 0 < length <= |d| - (offset + 2) && |ms| > 0
            && ms[0] == d[offset + 2..offset + 2 + length] && IsMessage(ms[0])
            && Unframe(d, offset + 2 + length, n - 1) == Framed(ms[1..])
  {
    hide ReadU16, ExpectedLength;
  }

  lemma UnframedStep(d: seq<byte>, off: nat, n: nat, ms: seq<Message>)
    requires off <= |d| && n > 0 && Unframe(d, off, n) == Framed(ms)
    ensures |ms| == n && AllMessages(ms) && d[off..] == Blocks(ms)
    decreases n, 0
  {
    hide ReadU16, ExpectedLength, Unframe, Block;
    FirstBlock(d, off, n, ms);
    var m, end := ms[0], off + 2 + ReadU16(d, off);
    UnframeIsInverse(d, end, n - 1, ms[1..]);
    BlockAt(d, off, m);
    assert ms == [m] + ms[1..];
    assert d[off..] == d[off..end] + d[end..];
  }

  lemma UnframeFirst(d: seq<byte>, off: nat, n: nat, m: Message, rest: seq<Message>)
    requires n > 0 && off + 2 + |m| <= |d| && IsMessage(m)
    requires ReadU16(d, off) == |m| && d[off + 2..off + 2 + |m|] == m
    requires Unframe(d, off + 2 + |m|, n - 1) == Framed(rest)
    ensures Unframe(d, off, n) == Framed([m] + rest)
  {
    hide ReadU16, ExpectedLength;
  }

  lemma FramedStep(d: seq<byte>, off: nat, n: nat, ms: seq<Message>)
    requires off <= |d| && n > 0 && |ms| == n && AllMessages(ms) && d[off..] == Blocks(ms)
    ensures Unframe(d, off, n) == Framed(ms)
    decreases n, 0
  {
    hide WriteBE, ReadBE, ExpectedLength, Unframe, Block, ReadU16;
    var m := ms[0];
    var end := off + 2 + |m|;
    var tail := d[off..];
    assert tail == Block(m) + Blocks(ms[1..]);
    assert d[off..end] == tail[..2 + |m|] && d[end..] == tail[2 + |m|..];
    BlockAt(d, off, m);
    UnframeIsInverse(d, end, n - 1, ms[1..]);
    UnframeFirst(d, off, n, m, ms[1..]);
    assert ms == [m] + ms[1..];
  }

  /** The status of a malformed packet is that of the first defect behind the complete messages `ms`:
      a missing, empty or overlong block or bytes left over is a wrong size, a block that is no
      message a wrong message. */
  lemma {:induction false} FirstDefect(d: seq<byte>, off: nat, n: nat, ms: seq<Message>, rest: seq<byte>)
    requires off <= |d| && AllMessages(ms) && d[off..] == Blocks(ms) + rest && |ms| <= n
    ensures |ms| == n && rest != [] ==> Unframe(d, off, n) == Malformed(InvalidSize)
    ensures |ms| < n && (|rest| < 2 || ReadU16(rest, 0) == 0 || ReadU16(rest, 0) > |rest| - 2) ==>
              Unframe(d, off, n) == Malformed(InvalidSize)
    ensures |ms| < n && |rest| >= 2 && 0 < ReadU16(rest, 0) <= |rest| - 2 &&
            !IsMessage(rest[2..2 + ReadU16(rest, 0)]) ==>
              Unframe(d, off, n) == Malformed(InvalidItchMessage)
    decreases |ms|
  {
    hide ReadU16, ExpectedLength, Block, WriteBE, Unframe, IsMessage;
    if ms == [] {
      assert d[off..] == rest;
      DefectHere(d, off, n, rest);
    } else {
      var m, tail := ms[0], d[off..];
      var end := off + 2 + |m|;
      assert IsMessage(m);
      ShortMessage(m);
      assert tail == Block(m) + (Blocks(ms[1..]) + rest);
      assert d[off..end] == tail[..2 + |m|] && d[end..] == tail[2 + |m|..];
      BlockAt(d, off, m);
      FirstDefect(d, end, n - 1, ms[1..], rest);
      if Unframe(d, end, n - 1).Malformed? { DefectBehind(d, off, n, m); }
    }
  }

  lemma ShortMessage(m: Message)
    requires IsMessage(m)
    ensures 12 <= |m| <= 50
  {
  }

  lemma DefectHere(d: seq<byte>, off: nat, n: nat, rest: seq<byte>)
    requires off <= |d| && d[off..] == rest
    ensures n == 0 && rest != [] ==> Unframe(d, off, n) == Malformed(InvalidSize)
    ensures n > 0 && (|rest| < 2 || ReadU16(rest, 0) == 0 || ReadU16(rest, 0) > |rest| - 2) ==>
              Unframe(d, off, n) == Malformed(InvalidSize)
    ensures n > 0 && |rest| >= 2 && 0 < ReadU16(rest, 0) <= |rest| - 2 && !IsMessage(rest[2..2 + ReadU16(rest, 0)]) ==>
              Unframe(d, off, n) == Malformed(InvalidItchMessage)
  {
    hide ReadU16, ExpectedLength;
    if |rest| >= 2 {
      SameField(d, off, rest);
      if ReadU16(rest, 0) <= |rest| - 2 {
        SameSlice(d, off, rest, ReadU16(rest, 0));
      }
    }
  }

  /** A defect behind a complete message is the defect of the whole. */
  lemma DefectBehind(d: seq<byte>, off: nat, n: nat, m: Message)
    requires n > 0 && off + 2 + |m| <= |d| && IsMessage(m)
    requires ReadU16(d, off) == |m| && d[off + 2..off + 2 + |m|] == m
    requires Unframe(d, off + 2 + |m|, n - 1).Malformed?
    ensures Unframe(d, off, n) == Unframe(d, off + 2 + |m|, n - 1)
  {
    hide ReadU16, ExpectedLength;
  }

  lemma SameSlice(d: seq<byte>, off: nat, rest: seq<byte>, len: nat)
    requires off <= |d| && d[off..] == rest && 2 + len <= |rest|
    ensures d[off + 2..off + 2 + len] == rest[2..2 + len]
  {
    assert d[off..][2..2 + len] == d[off + 2..off + 2 + len];
  }

  lemma SameField(d: seq<byte>, off: nat, rest: seq<byte>)
    requires off <= |d| && d[off..] == rest && |rest| >= 2
    ensures ReadU16(d, off) == ReadU16(rest, 0)
  {
    assert d[off] == rest[0] && d[off + 1] == rest[1];
    FieldValues(d, off);
    FieldValues(rest, 0);
  }

  // ----- Whole packets ------------------------------------------------------------------

  /** The messages of a sequenced packet, or why it is refused. */
  function Contents(d: seq<byte>): Framing
    requires |d| >= HEADER_SIZE
  {
    Unframe(d, HEADER_SIZE, MessageCount(d))
  }

  /** No message is shorter than 12 bytes, so a packet of at most 2048 bytes carries at most 144. */
  lemma FewMessages(d: seq<byte>, n: nat)
    requires HEADER_SIZE <= |d| && Unframe(d, HEADER_SIZE, n).Framed?
    ensures |Unframe(d, HEADER_SIZE, n).messages| == n && HEADER_SIZE + 14 * n <= |d|
  {
    hide Unframe, Blocks;
    UnframeIsInverse(d, HEADER_SIZE, n, Unframe(d, HEADER_SIZE, n).messages);
  }

  /** The datagram of `ms` under a header. */
  function Datagram(session: seq<byte>, first: u64, ms: seq<Message>): (d: seq<byte>)
    requires |session| == SESSION_SIZE && |ms| < 0x1_0000 && AllMessages(ms)
    ensures |d| >= HEADER_SIZE
  {
    Header(session, first, |ms|) + Blocks(ms)
  }

  /** What is put into a datagram is what is read from it. */
  lemma DatagramRoundTrip(session: seq<byte>, first: u64, ms: seq<Message>)
    requires |session| == SESSION_SIZE && |ms| < 0x1_0000 && AllMessages(ms)
    ensures var d := Datagram(session, first, ms);
            SessionOf(d) == session && FirstSequence(d) == first && MessageCount(d) == |ms| && Contents(d) == Framed(ms)
  {
    hide Unframe, Blocks, Header;
    var d := Datagram(session, first, ms);
    HeaderFields(session, first, |ms|, Blocks(ms));
    assert d[HEADER_SIZE..] == Blocks(ms);
    UnframeIsInverse(d, HEADER_SIZE, |ms|, ms);
  }
}
