/** Bytes on the wire: big-endian fields and the fixed ITCH 5.0 message lengths. */
module ItchWire {
  import opened Types

  type Message = seq<byte>

  /** The big-endian value of `n` bytes at `off`. */
  function ReadBE(b: seq<byte>, off: nat, n: nat): (v: nat)
    requires off + n <= |b|
    ensures v < Pow256(n)
  {
    if n == 0 then 0 else ReadBE(b, off, n - 1) * 256 + b[off + n - 1]
  }

  /** 256 to the power n. */
  function Pow256(n: nat): (r: nat)
    ensures r > 0
  {
    if n == 0 then 1 else 256 * Pow256(n - 1)
  }

  function ReadU16(b: seq<byte>, off: nat): (v: u16)
    requires off + 2 <= |b|
  {
    assert Pow256(2) == 0x1_0000;
    ReadBE(b, off, 2)
  }

  function ReadU32(b: seq<byte>, off: nat): (v: u32)
    requires off + 4 <= |b|
  {
    PowersOf256();
    ReadBE(b, off, 4)
  }

  function ReadU48(b: seq<byte>, off: nat): (v: u64)
    requires off + 6 <= |b|
  {
    PowersOf256();
    ReadBE(b, off, 6)
  }

  function ReadU64(b: seq<byte>, off: nat): (v: u64)
    requires off + 8 <= |b|
  {
    PowersOf256();
    ReadBE(b, off, 8)
  }

  lemma PowersOf256()
    ensures Pow256(2) == 0x1_0000 && Pow256(4) == 0x1_0000_0000
    ensures Pow256(6) == 0x1_0000_0000_0000 && Pow256(8) == 0x1_0000_0000_0000_0000
  {
    assert Pow256(2) == 0x1_0000;
    assert Pow256(4) == 0x1_0000_0000;
    assert Pow256(6) == 0x1_0000_0000_0000;
  }

  /** The `n` big-endian bytes of a value. */
  function WriteBE(v: nat, n: nat): (b: seq<byte>)
    requires v < Pow256(n)
    ensures |b| == n
  {
    if n == 0 then [] else WriteBE(v / 256, n - 1) + [v % 256]
  }

  /** A field holds a value exactly when it holds the bytes written for it. */
  lemma {:induction false} ReadWrite(b: seq<byte>, off: nat, v: nat, n: nat)
    requires off + n <= |b| && v < Pow256(n)
    ensures ReadBE(b, off, n) == v <==> b[off..off + n] == WriteBE(v, n)
  {
    if n > 0 {
      ReadWrite(b, off, v / 256, n - 1);
      SliceLast(b, off, n);
      SameSnoc(b[off..off + n - 1], b[off + n - 1], WriteBE(v / 256, n - 1), v % 256);
    }
  }

  lemma SliceLast(b: seq<byte>, off: nat, n: nat)
    requires 0 < n && off + n <= |b|
    ensures b[off..off + n] == b[off..off + n - 1] + [b[off + n - 1]]
  {
  }

  lemma SameSnoc(a: seq<byte>, x: byte, b: seq<byte>, y: byte)
    ensures a + [x] == b + [y] <==> a == b && x == y
  {
    if a + [x] == b + [y] {
      assert (a + [x])[..|a|] == a && (b + [y])[..|b|] == b;
      assert (a + [x])[|a|] == x && (b + [y])[|b|] == y;
    }
  }

  /** The first byte on the wire is the most significant one. */
  lemma {:induction false} MostSignificantFirst(b: seq<byte>, off: nat, n: nat)
    requires 0 < n && off + n <= |b|
    ensures ReadBE(b, off, n) == b[off] * Pow256(n - 1) + ReadBE(b, off + 1, n - 1)
  {
    if n > 1 {
      MostSignificantFirst(b, off, n - 1);
      Scaled(b[off], Pow256(n - 2), ReadBE(b, off + 1, n - 2));
    }
  }

  lemma Scaled(x: nat, p: nat, y: nat)
    ensures (x * p + y) * 256 == x * (256 * p) + y * 256
  {
  }

  /** Byte `i` of a written field is the digit of weight 256^(n-1-i). */
  lemma {:induction false} WrittenDigits(v: nat, n: nat, i: nat)
    requires i < n && v < Pow256(n)
    ensures WriteBE(v, n)[i] == v / Pow256(n - 1 - i) % 256
  {
    if i < n - 1 {
      WrittenDigits(v / 256, n - 1, i);
      QuotientTwice(v, Pow256(n - 2 - i));
    }
  }

  lemma QuotientTwice(v: nat, p: nat)
    requires p > 0
    ensures v / 256 / p == v / (256 * p)
  {
    var q := v / (256 * p);
    var r := v % (256 * p);
    assert v == 256 * (q * p) + r && r < 256 * p;
    assert v / 256 == q * p + r / 256;
    assert r / 256 < p;
    DivUnique(v / 256, p, q, r / 256);
  }

  lemma DivUnique(x: nat, p: nat, q: nat, r: nat)
    requires r < p && x == q * p + r
    ensures x / p == q
  {
    assert (x / p - q) * p == r - x % p;
    SmallMultiple(x / p - q, p);
  }

  lemma SmallMultiple(k: int, p: int)
    requires -p < k * p < p
    ensures k == 0
  {
  }

  /** The fields of two, four, six and eight bytes, byte by byte. */
  lemma FieldValues(b: seq<byte>, off: nat)
    ensures off + 2 <= |b| ==> ReadU16(b, off) == b[off] as int * 0x100 + b[off + 1]
    ensures off + 4 <= |b| ==>
              ReadU32(b, off) ==
              b[off] as int * 0x100_0000 + b[off + 1] as int * 0x1_0000 + b[off + 2] as int * 0x100 + b[off + 3]
    ensures off + 6 <= |b| ==> ReadU48(b, off) == ReadU16(b, off) * 0x1_0000_0000 + ReadU32(b, off + 2)
    ensures off + 8 <= |b| ==> ReadU64(b, off) == ReadU32(b, off) * 0x1_0000_0000 + ReadU32(b, off + 4)
  {
    PowersOf256();
    if off + 2 <= |b| { TwoBytes(b, off); }
    if off + 4 <= |b| { FourBytes(b, off); }
    if off + 6 <= |b| {
      TwoBytes(b, off);
      FourBytes(b, off + 2);
      SplitField(b, off, 2, 4);
    }
    if off + 8 <= |b| {
      FourBytes(b, off);
      FourBytes(b, off + 4);
      SplitField(b, off, 4, 4);
    }
  }

  lemma TwoBytes(b: seq<byte>, off: nat)
    requires off + 2 <= |b|
    ensures ReadBE(b, off, 2) == b[off] as int * 0x100 + b[off + 1]
  {
    assert ReadBE(b, off, 1) == b[off];
  }

  lemma FourBytes(b: seq<byte>, off: nat)
    requires off + 4 <= |b|
    ensures ReadBE(b, off, 4) ==
              b[off] as int * 0x100_0000 + b[off + 1] as int * 0x1_0000 + b[off + 2] as int * 0x100 + b[off + 3]
  {
    TwoBytes(b, off);
    assert ReadBE(b, off, 3) == ReadBE(b, off, 2) * 256 + b[off + 2];
  }

  /** A field is its upper part followed by its lower part. */
  lemma {:induction false} SplitField(b: seq<byte>, off: nat, m: nat, n: nat)
    requires off + m + n <= |b|
    ensures ReadBE(b, off, m + n) == ReadBE(b, off, m) * Pow256(n) + ReadBE(b, off + m, n)
  {
    if n > 0 {
      SplitField(b, off, m, n - 1);
      Scaled(ReadBE(b, off, m), Pow256(n - 1), ReadBE(b, off + m, n - 1));
    }
  }

  /** The exact length of each ITCH 5.0 message type; 0 for a type that does not exist. */
  function ExpectedLength(t: byte): (n: byte)
    ensures n == 0 || 12 <= n <= 50
  {
    match t as char
    case 'S' => 12
    case 'R' => 39
    case 'H' => 25
    case 'Y' => 20
    case 'L' => 26
    case 'V' => 35
    case 'W' => 12
    case 'K' => 28
    case 'J' => 35
    case 'h' => 21
    case 'A' => 36
    case 'F' => 40
    case 'E' => 31
    case 'C' => 36
    case 'X' => 23
    case 'D' => 19
    case 'U' => 35
    case 'P' => 44
    case 'Q' => 40
    case 'B' => 19
    case 'I' => 50
    case 'N' => 20
    case 'O' => 48
    case _ => 0
  }

  /** A complete ITCH message: its length is the one its type demands. */
  predicate IsMessage(m: Message) {
    |m| > 0 && |m| == ExpectedLength(m[0])
  }

  predicate AllMessages(ms: seq<Message>) {
    forall i :: 0 <= i < |ms| ==> IsMessage(ms[i])
  }
}
