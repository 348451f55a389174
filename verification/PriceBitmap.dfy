/** The three-level occupancy bitmap over 65,536 indices.
    A 64-bit word is modelled by its 64 bits, so the shifts, masks and bit scans of the
    source are written out on bits and no machine arithmetic is hidden in the model. */
module PriceBitmap {

  // ----- 64-bit words ------------------------------------------------------------------

  type Word = w: seq<bool> | |w| == 64 witness seq(64, _ => false)

  function Zero(): (w: Word) ensures forall i :: 0 <= i < 64 ==> !w[i] { seq(64, _ => false) }
  function Ones(): (w: Word) ensures forall i :: 0 <= i < 64 ==> w[i] { seq(64, _ => true) }

  function And(a: Word, b: Word): (r: Word)
    ensures forall i :: 0 <= i < 64 ==> r[i] == (a[i] && b[i])
  {
    seq(64, i requires 0 <= i < 64 => a[i] && b[i])
  }

  function Or(a: Word, b: Word): (r: Word)
    ensures forall i :: 0 <= i < 64 ==> r[i] == (a[i] || b[i])
  {
    seq(64, i requires 0 <= i < 64 => a[i] || b[i])
  }

  function Not(a: Word): (r: Word)
    ensures forall i :: 0 <= i < 64 ==> r[i] == !a[i]
  {
    seq(64, i requires 0 <= i < 64 => !a[i])
  }

  function Shl(a: Word, n: nat): (r: Word)
    ensures forall i :: 0 <= i < 64 ==> r[i] == (n <= i && a[i - n])
  {
    seq(64, i requires 0 <= i < 64 => n <= i && a[i - n])
  }

  function Shr(a: Word, n: nat): (r: Word)
    ensures forall i :: 0 <= i < 64 ==> r[i] == (i + n < 64 && a[i + n])
  {
    seq(64, i requires 0 <= i < 64 => i + n < 64 && a[i + n])
  }

  /** The word 1. */
  function One(): (w: Word) ensures forall i :: 0 <= i < 64 ==> (w[i] <==> i == 0) { seq(64, i => i == 0) }

  /** std::countl_zero: the number of clear bits above the highest set bit. */
  function CountLeadingZeros(w: Word, from: nat := 0): (n: nat)
    requires from <= 64
    requires forall i :: 64 - from <= i < 64 ==> !w[i]
    ensures from <= n <= 64
    ensures forall i :: 64 - n <= i < 64 ==> !w[i]
    ensures n < 64 ==> w[63 - n]
    ensures n == 64 ==> w == Zero()
    decreases 64 - from
  {
    if from == 64 || w[63 - from] then from else CountLeadingZeros(w, from + 1)
  }

  /** std::countr_zero: the number of clear bits below the lowest set bit. */
  function CountTrailingZeros(w: Word, from: nat := 0): (n: nat)
    requires from <= 64
    requires forall i :: 0 <= i < from ==> !w[i]
    ensures from <= n <= 64
    ensures forall i :: 0 <= i < n ==> !w[i]
    ensures n < 64 ==> w[n]
    ensures n == 64 ==> w == Zero()
    decreases 64 - from
  {
    if from == 64 || w[from] then from else CountTrailingZeros(w, from + 1)
  }

  /** A word is zero exactly when it has no set bit. */
  lemma NonZeroHasBit(w: Word)
    ensures w != Zero() <==> exists i :: 0 <= i < 64 && w[i]
  {
    var n := CountTrailingZeros(w);
    if n < 64 { assert w[n]; }
  }

  function BitHigh(w: Word): (b: nat)
    requires w != Zero()
    ensures b < 64 && w[b] && forall i :: b < i < 64 ==> !w[i]
  {
    63 - CountLeadingZeros(w)
  }

  function BitLow(w: Word): (b: nat)
    requires w != Zero()
    ensures b < 64 && w[b] && forall i :: 0 <= i < b ==> !w[i]
  {
    CountTrailingZeros(w)
  }

  function MaskAtOrBelow(bit: nat): (m: Word)
    requires bit < 64
    ensures forall i :: 0 <= i < 64 ==> (m[i] <==> i <= bit)
  {
    Shr(Ones(), 63 - bit)
  }

  function MaskBelow(bit: nat): (m: Word)
    requires bit < 64
    ensures forall i :: 0 <= i < 64 ==> (m[i] <==> i < bit)
  {
    if bit == 0 then Zero() else Shr(Ones(), 64 - bit)
  }

  function MaskAtOrAbove(bit: nat): (m: Word)
    requires bit < 64
    ensures forall i :: 0 <= i < 64 ==> (m[i] <==> bit <= i)
  {
    Shl(Ones(), bit)
  }

  function MaskAbove(bit: nat): (m: Word)
    requires bit < 64
    ensures forall i :: 0 <= i < 64 ==> (m[i] <==> bit < i)
  {
    if bit == 63 then Zero() else Shl(Ones(), bit + 1)
  }

  // ----- Storage -----------------------------------------------------------------------

  const NUM_BITS: nat := 65536
  const L0_WORDS: nat := 1024
  const L1_WORDS: nat := 16
  const INVALID: nat := 0xFFFF_FFFF
  const MAX_SEARCH_WORD_LOADS: nat := 5

  /** Only the low L1_WORDS bits of the top word mean anything. */
  function ValidL2Mask(): (w: Word)
    ensures forall i :: 0 <= i < 64 ==> (w[i] <==> i < L1_WORDS)
  {
    Shr(Ones(), 64 - L1_WORDS)
  }

  datatype StorageRaw = Storage(l0: seq<Word>, l1: seq<Word>, l2: Word)

  type Storage = s: StorageRaw | |s.l0| == L0_WORDS && |s.l1| == L1_WORDS
    witness Storage(seq(L0_WORDS, _ => Zero()), seq(L1_WORDS, _ => Zero()), Zero())

  function Empty(): (s: Storage) { StorageRaw.Storage(seq(L0_WORDS, _ => Zero()), seq(L1_WORDS, _ => Zero()), Zero()) }

  predicate Test(s: Storage, idx: nat)
    requires idx < NUM_BITS
  {
    And(Shr(s.l0[idx / 64], idx % 64), One()) != Zero()
  }

  predicate IsEmpty(s: Storage) {
    And(s.l2, ValidL2Mask()) == Zero()
  }

  /** The set of indices the bitmap represents. */
  ghost function Bits(s: Storage): (r: set<nat>)
  {
    set i: nat | 0 <= i < NUM_BITS && s.l0[i / 64][i % 64]
  }

  /** Each summary bit says whether its child word is nonzero. */
  ghost predicate Valid(s: Storage) {
    && (forall w0 :: 0 <= w0 < L0_WORDS ==> (s.l1[w0 / 64][w0 % 64] <==> s.l0[w0] != Zero()))
    && (forall w1 :: 0 <= w1 < L1_WORDS ==> (s.l2[w1] <==> s.l1[w1] != Zero()))
    && (forall w1 :: L1_WORDS <= w1 < 64 ==> !s.l2[w1])
  }

  lemma EmptyIsValid()
    ensures Valid(Empty()) && Bits(Empty()) == {}
  {
  }

  function SetBit(s: Storage, idx: nat): (r: Storage)
    requires idx < NUM_BITS
  {
    var w0, b0 := idx / 64, idx % 64;
    var w1, b1 := w0 / 64, w0 % 64;
    StorageRaw.Storage(s.l0[w0 := Or(s.l0[w0], Shl(One(), b0))],
            s.l1[w1 := Or(s.l1[w1], Shl(One(), b1))],
            Or(s.l2, Shl(One(), w1)))
  }

  function ResetBit(s: Storage, idx: nat): (r: Storage)
    requires idx < NUM_BITS
  {
    var w0, b0 := idx / 64, idx % 64;
    var l0 := s.l0[w0 := And(s.l0[w0], Not(Shl(One(), b0)))];
    if l0[w0] != Zero() then StorageRaw.Storage(l0, s.l1, s.l2) else
    var w1, b1 := w0 / 64, w0 % 64;
    var l1 := s.l1[w1 := And(s.l1[w1], Not(Shl(One(), b1)))];
    if l1[w1] != Zero() then StorageRaw.Storage(l0, l1, s.l2) else
    StorageRaw.Storage(l0, l1, And(s.l2, Not(Shl(One(), w1))))
  }

  lemma TestIsMembership(s: Storage, idx: nat)
    requires idx < NUM_BITS
    ensures Test(s, idx) <==> idx in Bits(s)
  {
    var w := And(Shr(s.l0[idx / 64], idx % 64), One());
    assert w[0] == s.l0[idx / 64][idx % 64];
    NonZeroHasBit(w);
  }

  lemma IsEmptyIsEmpty(s: Storage)
    requires Valid(s)
    ensures IsEmpty(s) <==> Bits(s) == {}
  {
    var top := And(s.l2, ValidL2Mask());
    NonZeroHasBit(top);
    if i: nat :| i in Bits(s) {
      NonZeroHasBit(s.l0[i / 64]);
      assert s.l1[i / 64 / 64][i / 64 % 64];
      NonZeroHasBit(s.l1[i / 64 / 64]);
      assert top[i / 64 / 64];
    }
    if i :| 0 <= i < 64 && top[i] {
      NonZeroHasBit(s.l1[i]);
      var b1 :| 0 <= b1 < 64 && s.l1[i][b1];
      var w0 := i * 64 + b1;
      NonZeroHasBit(s.l0[w0]);
      var b0 :| 0 <= b0 < 64 && s.l0[w0][b0];
      assert (w0 * 64 + b0) / 64 == w0 && (w0 * 64 + b0) % 64 == b0;
      assert w0 * 64 + b0 in Bits(s);
    }
  }

  lemma SetBitAddsOne(s: Storage, idx: nat)
    requires Valid(s) && idx < NUM_BITS
    ensures Valid(SetBit(s, idx)) && Bits(SetBit(s, idx)) == Bits(s) + {idx}
  {
    var r := SetBit(s, idx);
    var w0, b0 := idx / 64, idx % 64;
    var w1, b1 := w0 / 64, w0 % 64;
    assert r.l0[w0][b0] && r.l1[w1][b1] && r.l2[w1];
    NonZeroHasBit(r.l0[w0]);
    NonZeroHasBit(r.l1[w1]);
    forall i: nat | i < NUM_BITS
      ensures i in Bits(r) <==> i in Bits(s) || i == idx
    {
      assert i == i / 64 * 64 + i % 64;
    }
    forall w | 0 <= w < L0_WORDS ensures r.l1[w / 64][w % 64] <==> r.l0[w] != Zero() {
      if w / 64 == w1 && w % 64 == b1 { assert w == w0; }
    }
  }

  lemma ResetBitRemovesOne(s: Storage, idx: nat)
    requires Valid(s) && idx < NUM_BITS
    ensures Valid(ResetBit(s, idx)) && Bits(ResetBit(s, idx)) == Bits(s) - {idx}
  {
    hide Bits, ResetBit;
    ResetBitSummaries(s, idx);
    ResetBitMembers(s, idx);
  }

  lemma ResetBitMembers(s: Storage, idx: nat)
    requires idx < NUM_BITS
    ensures Bits(ResetBit(s, idx)) == Bits(s) - {idx}
  {
    var r := ResetBit(s, idx);
    forall i: nat | i < NUM_BITS
      ensures i in Bits(r) <==> i in Bits(s) && i != idx
    {
      assert i == i / 64 * 64 + i % 64;
    }
  }

  lemma ResetBitSummaries(s: Storage, idx: nat)
    requires Valid(s) && idx < NUM_BITS
    ensures Valid(ResetBit(s, idx))
  {
    hide Bits;
    var r := ResetBit(s, idx);
    var w0, b0 := idx / 64, idx % 64;
    var w1, b1 := w0 / 64, w0 % 64;
    NonZeroHasBit(s.l0[w0]);
    NonZeroHasBit(r.l0[w0]);
    NonZeroHasBit(s.l1[w1]);
    NonZeroHasBit(r.l1[w1]);
    forall w | 0 <= w < L0_WORDS ensures r.l1[w / 64][w % 64] <==> r.l0[w] != Zero() {
      if w / 64 == w1 && w % 64 == b1 { assert w == w0; }
    }
  }

  // ----- Searches ----------------------------------------------------------------------

  /** A loaded word, with the number of loads so far. */
  datatype Loaded = Loaded(word: Word, loads: nat)

  function LoadWord(word: Word, before: nat): Loaded { Loaded(word, before + 1) }

  /** What a search returns, with the number of words it loaded. */
  datatype Search = Search(index: nat, loads: nat)

  function FindHighestObserved(s: Storage, at: nat): (r: Search)
    ensures r.loads <= MAX_SEARCH_WORD_LOADS
  {
    var idx := if at >= NUM_BITS then NUM_BITS - 1 else at;
    var w0, b0 := idx / 64, idx % 64;
    var own := LoadWord(s.l0[w0], 0);
    var bits := And(own.word, MaskAtOrBelow(b0));
    if bits != Zero() then Search(w0 * 64 + BitHigh(bits), own.loads) else
    var w1, b1 := w0 / 64, w0 % 64;
    var group := LoadWord(s.l1[w1], own.loads);
    var l1bits := And(group.word, MaskBelow(b1));
    if l1bits != Zero() then
      var previousW0 := w1 * 64 + BitHigh(l1bits);
      var child := LoadWord(s.l0[previousW0], group.loads);
      Search(if child.word == Zero() then INVALID else previousW0 * 64 + BitHigh(child.word), child.loads)
    else
      var top := LoadWord(s.l2, group.loads);
      var l2bits := And(And(top.word, ValidL2Mask()), MaskBelow(w1));
      if l2bits == Zero() then Search(INVALID, top.loads) else
      var previousW1 := BitHigh(l2bits);
      var l1child := LoadWord(s.l1[previousW1], top.loads);
      if l1child.word == Zero() then Search(INVALID, l1child.loads) else
      var previousW0 := previousW1 * 64 + BitHigh(l1child.word);
      var l0child := LoadWord(s.l0[previousW0], l1child.loads);
      Search(if l0child.word == Zero() then INVALID else previousW0 * 64 + BitHigh(l0child.word), l0child.loads)
  }

  function FindLowestObserved(s: Storage, idx: nat): (r: Search)
    ensures r.loads <= MAX_SEARCH_WORD_LOADS
  {
    if idx >= NUM_BITS then Search(INVALID, 0) else
    var w0, b0 := idx / 64, idx % 64;
    var own := LoadWord(s.l0[w0], 0);
    var bits := And(own.word, MaskAtOrAbove(b0));
    if bits != Zero() then Search(w0 * 64 + BitLow(bits), own.loads) else
    var w1, b1 := w0 / 64, w0 % 64;
    var group := LoadWord(s.l1[w1], own.loads);
    var l1bits := And(group.word, MaskAbove(b1));
    if l1bits != Zero() then
      var nextW0 := w1 * 64 + BitLow(l1bits);
      var child := LoadWord(s.l0[nextW0], group.loads);
      Search(if child.word == Zero() then INVALID else nextW0 * 64 + BitLow(child.word), child.loads)
    else
      var top := LoadWord(s.l2, group.loads);
      var l2bits := And(And(top.word, ValidL2Mask()), MaskAbove(w1));
      if l2bits == Zero() then Search(INVALID, top.loads) else
      var nextW1 := BitLow(l2bits);
      var l1child := LoadWord(s.l1[nextW1], top.loads);
      if l1child.word == Zero() then Search(INVALID, l1child.loads) else
      var nextW0 := nextW1 * 64 + BitLow(l1child.word);
      var l0child := LoadWord(s.l0[nextW0], l1child.loads);
      Search(if l0child.word == Zero() then INVALID else nextW0 * 64 + BitLow(l0child.word), l0child.loads)
  }

  function FindHighestAtOrBelow(s: Storage, idx: nat): (r: nat) {
    FindHighestObserved(s, idx).index
  }

  function FindLowestAtOrAbove(s: Storage, idx: nat): (r: nat) {
    FindLowestObserved(s, idx).index
  }

  /** `r` is the greatest member at or below `idx`, or INVALID when there is none. */
  ghost predicate IsPredecessor(members: set<nat>, idx: nat, r: nat) {
    if r == INVALID then forall j :: j in members ==> idx < j
    else r in members && r <= idx && forall j :: j in members && j <= idx ==> j <= r
  }

  /** `r` is the least member at or above `idx`, or INVALID when there is none. */
  ghost predicate IsSuccessor(members: set<nat>, idx: nat, r: nat) {
    if r == INVALID then forall j :: j in members ==> j < idx
    else r in members && idx <= r && forall j :: j in members && idx <= j ==> r <= j
  }

  /** A member's word, group and bit are set at all three levels. */
  lemma MemberPath(s: Storage, j: nat)
    requires Valid(s) && j in Bits(s)
    ensures s.l0[j / 64][j % 64] && s.l1[j / 64 / 64][j / 64 % 64] && s.l2[j / 64 / 64]
    ensures j / 64 / 64 < L1_WORDS
  {
    NonZeroHasBit(s.l0[j / 64]);
    NonZeroHasBit(s.l1[j / 64 / 64]);
  }

  lemma IndexParts(w: nat, b: nat)
    requires b < 64
    ensures (w * 64 + b) / 64 == w && (w * 64 + b) % 64 == b
  {
  }

  /** The three places a predecessor search ends in. */
  lemma HighestCases(s: Storage, idx: nat, at: nat)
    requires at == if idx >= NUM_BITS then NUM_BITS - 1 else idx
    ensures var w0 := at / 64; var r := FindHighestAtOrBelow(s, idx);
            var bits := And(s.l0[w0], MaskAtOrBelow(at % 64));
            var l1bits := And(s.l1[w0 / 64], MaskBelow(w0 % 64));
            var l2bits := And(And(s.l2, ValidL2Mask()), MaskBelow(w0 / 64));
            && (bits != Zero() ==> r == w0 * 64 + BitHigh(bits))
            && (bits == Zero() && l1bits != Zero() ==>
                 var p := w0 / 64 * 64 + BitHigh(l1bits);
                 r == if s.l0[p] == Zero() then INVALID else p * 64 + BitHigh(s.l0[p]))
            && (bits == Zero() && l1bits == Zero() && l2bits == Zero() ==> r == INVALID)
            && (bits == Zero() && l1bits == Zero() && l2bits != Zero() ==>
                 var q := BitHigh(l2bits);
                 q < L1_WORDS && (s.l1[q] != Zero() ==>
                   var p := q * 64 + BitHigh(s.l1[q]);
                   r == if s.l0[p] == Zero() then INVALID else p * 64 + BitHigh(s.l0[p])))
  {
    hide And, Shr, Shl, Zero, Ones, ValidL2Mask, MaskBelow, MaskAbove, MaskAtOrBelow, MaskAtOrAbove, BitHigh, BitLow;
  }

  lemma FindHighestIsPredecessor(s: Storage, idx: nat)
    requires Valid(s)
    ensures IsPredecessor(Bits(s), idx, FindHighestAtOrBelow(s, idx))
  {
    hide And, Shr, Shl, Zero, Ones, ValidL2Mask, MaskBelow, MaskAbove, MaskAtOrBelow, MaskAtOrAbove, BitHigh, BitLow;
    hide Valid, Bits, IsPredecessor, IsSuccessor, FindHighestAtOrBelow, FindHighestObserved;
    var at := if idx >= NUM_BITS then NUM_BITS - 1 else idx;
    var w0, b0 := at / 64, at % 64;
    var bits := And(s.l0[w0], MaskAtOrBelow(b0));
    HighestCases(s, idx, at);
    NonZeroHasBit(bits);
    FindInWordBelow(s, idx, at, bits);
    if bits == Zero() {
      var l1bits := And(s.l1[w0 / 64], MaskBelow(w0 % 64));
      if l1bits != Zero() {
        FindInGroupBelow(s, idx, w0, l1bits);
      } else {
        NonZeroHasBit(l1bits);
        FindInLowerGroup(s, idx, w0);
      }
    }
  }

  /** The predecessor lies in the same word as `idx`, or every candidate is in an earlier word. */
  lemma FindInWordBelow(s: Storage, idx: nat, at: nat, bits: Word)
    requires at == if idx >= NUM_BITS then NUM_BITS - 1 else idx
    requires bits == And(s.l0[at / 64], MaskAtOrBelow(at % 64))
    ensures bits != Zero() ==> IsPredecessor(Bits(s), idx, at / 64 * 64 + BitHigh(bits))
    ensures bits == Zero() ==> forall j :: j in Bits(s) && j <= idx ==> j / 64 < at / 64
  {
    hide And, Shr, Zero, Ones, MaskAtOrBelow, BitHigh;
    if bits != Zero() {
      IndexParts(at / 64, BitHigh(bits));
      assert bits[BitHigh(bits)];
    }
    forall j | j in Bits(s) && j <= idx
      ensures if bits == Zero() then j / 64 < at / 64 else j <= at / 64 * 64 + BitHigh(bits)
    {
      assert bits[j % 64] == (s.l0[at / 64][j % 64] && j % 64 <= at % 64);
    }
  }

  /** The predecessor lies in the same group of 64 words as `idx`. */
  lemma FindInGroupBelow(s: Storage, idx: nat, w0: nat, l1bits: Word)
    requires Valid(s) && w0 < L0_WORDS
    requires l1bits == And(s.l1[w0 / 64], MaskBelow(w0 % 64)) != Zero()
    requires w0 * 64 <= idx
    requires forall j :: j in Bits(s) && j <= idx ==> j / 64 < w0
    ensures var p := w0 / 64 * 64 + BitHigh(l1bits);
            p < w0 && s.l0[p] != Zero() && IsPredecessor(Bits(s), idx, p * 64 + BitHigh(s.l0[p]))
  {
    hide And, Shr, Shl, Zero, Ones, ValidL2Mask, MaskBelow, MaskAbove, MaskAtOrBelow, MaskAtOrAbove, BitHigh, BitLow;
    var b := BitHigh(l1bits);
    var p := w0 / 64 * 64 + b;
    assert l1bits[b] && b < w0 % 64;
    IndexParts(w0 / 64, b);
    assert s.l0[p] != Zero();
    var h := BitHigh(s.l0[p]);
    IndexParts(p, h);
    forall j | j in Bits(s) && j <= idx ensures j <= p * 64 + h {
      MemberPath(s, j);
      if j / 64 / 64 == w0 / 64 { assert l1bits[j / 64 % 64]; }
    }
  }

  /** A member of an earlier word, when the word's own group has none, is in an earlier group. */
  lemma MemberBelow(s: Storage, w0: nat, j: nat, l2bits: Word)
    requires Valid(s) && w0 < L0_WORDS && j in Bits(s) && j / 64 < w0
    requires forall b :: 0 <= b < 64 ==> !And(s.l1[w0 / 64], MaskBelow(w0 % 64))[b]
    requires l2bits == And(And(s.l2, ValidL2Mask()), MaskBelow(w0 / 64))
    ensures j / 64 / 64 < w0 / 64 && l2bits[j / 64 / 64]
  {
    hide And, Zero, ValidL2Mask, MaskBelow;
    MemberPath(s, j);
    assert !And(s.l1[w0 / 64], MaskBelow(w0 % 64))[j / 64 % 64];
  }

  /** The highest bit of the highest word of group `q` is a member. */
  lemma HighestOfGroup(s: Storage, q: nat)
    requires Valid(s) && q < L1_WORDS && s.l1[q] != Zero()
    ensures var p := q * 64 + BitHigh(s.l1[q]);
            s.l0[p] != Zero() && var k := p * 64 + BitHigh(s.l0[p]); k in Bits(s) && k < (q + 1) * 4096
  {
    hide Zero, BitHigh;
    var p := q * 64 + BitHigh(s.l1[q]);
    IndexParts(q, BitHigh(s.l1[q]));
    IndexParts(p, BitHigh(s.l0[p]));
  }

  /** The highest bit of the highest word of group `q` is above everything in this and lower groups. */
  lemma BelowHighest(s: Storage, q: nat, j: nat)
    requires Valid(s) && q < L1_WORDS && j in Bits(s) && j / 64 / 64 <= q && s.l1[q] != Zero()
    ensures var p := q * 64 + BitHigh(s.l1[q]); s.l0[p] != Zero() && j <= p * 64 + BitHigh(s.l0[p])
  {
    hide Zero, BitHigh, Bits;
    var p := q * 64 + BitHigh(s.l1[q]);
    IndexParts(q, BitHigh(s.l1[q]));
    MemberPath(s, j);
    if j / 64 / 64 == q { assert s.l1[q][j / 64 % 64]; }
  }

  /** The predecessor lies in an earlier group, or nowhere. */
  lemma FindInLowerGroup(s: Storage, idx: nat, w0: nat)
    requires Valid(s) && w0 < L0_WORDS
    requires forall b :: 0 <= b < 64 ==> !And(s.l1[w0 / 64], MaskBelow(w0 % 64))[b]
    requires w0 * 64 <= idx
    requires forall j :: j in Bits(s) && j <= idx ==> j / 64 < w0
    ensures var l2bits := And(And(s.l2, ValidL2Mask()), MaskBelow(w0 / 64));
            if l2bits == Zero() then IsPredecessor(Bits(s), idx, INVALID)
            else var q := BitHigh(l2bits);
                 q < L1_WORDS && s.l1[q] != Zero() &&
                 var p := q * 64 + BitHigh(s.l1[q]);
                 s.l0[p] != Zero() && IsPredecessor(Bits(s), idx, p * 64 + BitHigh(s.l0[p]))
  {
    hide And, Shr, Shl, Zero, Ones, ValidL2Mask, MaskBelow, MaskAbove, MaskAtOrBelow, MaskAtOrAbove, BitHigh, BitLow;
    hide Bits;
    var l2bits := And(And(s.l2, ValidL2Mask()), MaskBelow(w0 / 64));
    forall j | j in Bits(s) && j <= idx ensures j / 64 / 64 < w0 / 64 && l2bits[j / 64 / 64] {
      MemberBelow(s, w0, j, l2bits);
    }
    NonZeroHasBit(l2bits);
    if l2bits != Zero() {
      var q := BitHigh(l2bits);
      assert l2bits[q];
      HighestOfGroup(s, q);
      forall j | j in Bits(s) && j <= idx
        ensures var p := q * 64 + BitHigh(s.l1[q]); j <= p * 64 + BitHigh(s.l0[p])
      {
        BelowHighest(s, q, j);
      }
    }
  }

  lemma FindLowestIsSuccessor(s: Storage, idx: nat)
    requires Valid(s)
    ensures IsSuccessor(Bits(s), idx, FindLowestAtOrAbove(s, idx))
  {
    hide And, Shr, Shl, Zero, Ones, ValidL2Mask, MaskBelow, MaskAbove, MaskAtOrBelow, MaskAtOrAbove, BitHigh, BitLow;
    hide Valid, Bits, IsPredecessor, IsSuccessor;
    if idx >= NUM_BITS {
      NothingAbove(s, idx);
      return;
    }
    var w0, b0 := idx / 64, idx % 64;
    var bits := And(s.l0[w0], MaskAtOrAbove(b0));
    NonZeroHasBit(bits);
    FindInWordAbove(s, idx, bits);
    if bits == Zero() {
      var l1bits := And(s.l1[w0 / 64], MaskAbove(w0 % 64));
      if l1bits != Zero() {
        FindInGroupAbove(s, idx, w0, l1bits);
      } else {
        NonZeroHasBit(l1bits);
        FindInHigherGroup(s, idx, w0);
      }
    }
  }

  lemma NothingAbove(s: Storage, idx: nat)
    requires idx >= NUM_BITS
    ensures IsSuccessor(Bits(s), idx, INVALID)
  {
  }

  /** The successor lies in the same word as `idx`, or every candidate is in a later word. */
  lemma FindInWordAbove(s: Storage, idx: nat, bits: Word)
    requires idx < NUM_BITS
    requires bits == And(s.l0[idx / 64], MaskAtOrAbove(idx % 64))
    ensures bits != Zero() ==> IsSuccessor(Bits(s), idx, idx / 64 * 64 + BitLow(bits))
    ensures bits == Zero() ==> forall j :: j in Bits(s) && idx <= j ==> idx / 64 < j / 64
  {
    hide And, Shr, Zero, Ones, MaskAtOrAbove, BitLow;
    if bits != Zero() {
      IndexParts(idx / 64, BitLow(bits));
      assert bits[BitLow(bits)];
    }
    forall j | j in Bits(s) && idx <= j
      ensures if bits == Zero() then idx / 64 < j / 64 else idx / 64 * 64 + BitLow(bits) <= j
    {
      assert bits[j % 64] == (s.l0[idx / 64][j % 64] && idx % 64 <= j % 64);
    }
  }

  /** The successor lies in the same group of 64 words as `idx`. */
  lemma FindInGroupAbove(s: Storage, idx: nat, w0: nat, l1bits: Word)
    requires Valid(s) && w0 < L0_WORDS
    requires l1bits == And(s.l1[w0 / 64], MaskAbove(w0 % 64)) != Zero()
    requires idx < (w0 + 1) * 64
    requires forall j :: j in Bits(s) && idx <= j ==> w0 < j / 64
    ensures var p := w0 / 64 * 64 + BitLow(l1bits);
            w0 < p < L0_WORDS && s.l0[p] != Zero() && IsSuccessor(Bits(s), idx, p * 64 + BitLow(s.l0[p]))
  {
    hide And, Shr, Shl, Zero, Ones, ValidL2Mask, MaskBelow, MaskAbove, MaskAtOrBelow, MaskAtOrAbove, BitHigh, BitLow;
    var b := BitLow(l1bits);
    var p := w0 / 64 * 64 + b;
    assert l1bits[b] && w0 % 64 < b;
    IndexParts(w0 / 64, b);
    assert s.l0[p] != Zero();
    var h := BitLow(s.l0[p]);
    IndexParts(p, h);
    forall j | j in Bits(s) && idx <= j ensures p * 64 + h <= j {
      MemberPath(s, j);
      if j / 64 / 64 == w0 / 64 { assert l1bits[j / 64 % 64]; }
    }
  }

  /** A member of a later word, when the word's own group has none, is in a later group. */
  lemma MemberAbove(s: Storage, w0: nat, j: nat, l2bits: Word)
    requires Valid(s) && w0 < L0_WORDS && j in Bits(s) && w0 < j / 64
    requires forall b :: 0 <= b < 64 ==> !And(s.l1[w0 / 64], MaskAbove(w0 % 64))[b]
    requires l2bits == And(And(s.l2, ValidL2Mask()), MaskAbove(w0 / 64))
    ensures w0 / 64 < j / 64 / 64 < L1_WORDS && l2bits[j / 64 / 64]
  {
    hide And, Zero, ValidL2Mask, MaskAbove;
    MemberPath(s, j);
    assert !And(s.l1[w0 / 64], MaskAbove(w0 % 64))[j / 64 % 64];
  }

  /** The lowest bit of the lowest word of group `q` is a member. */
  lemma LowestOfGroup(s: Storage, q: nat)
    requires Valid(s) && q < L1_WORDS && s.l1[q] != Zero()
    ensures var p := q * 64 + BitLow(s.l1[q]);
            s.l0[p] != Zero() && var k := p * 64 + BitLow(s.l0[p]); k in Bits(s) && q * 4096 <= k
  {
    hide Zero, BitLow;
    var p := q * 64 + BitLow(s.l1[q]);
    IndexParts(q, BitLow(s.l1[q]));
    IndexParts(p, BitLow(s.l0[p]));
  }

  /** The lowest bit of the lowest word of group `q` is below everything in this and higher groups. */
  lemma AboveLowest(s: Storage, q: nat, j: nat)
    requires Valid(s) && q < L1_WORDS && j in Bits(s) && q <= j / 64 / 64 && s.l1[q] != Zero()
    ensures var p := q * 64 + BitLow(s.l1[q]); s.l0[p] != Zero() && p * 64 + BitLow(s.l0[p]) <= j
  {
    hide Zero, BitLow, Bits;
    var p := q * 64 + BitLow(s.l1[q]);
    IndexParts(q, BitLow(s.l1[q]));
    MemberPath(s, j);
    if j / 64 / 64 == q { assert s.l1[q][j / 64 % 64]; }
  }

  /** The successor lies in a later group, or nowhere. */
  lemma FindInHigherGroup(s: Storage, idx: nat, w0: nat)
    requires Valid(s) && w0 < L0_WORDS
    requires forall b :: 0 <= b < 64 ==> !And(s.l1[w0 / 64], MaskAbove(w0 % 64))[b]
    requires idx < (w0 + 1) * 64
    requires forall j :: j in Bits(s) && idx <= j ==> w0 < j / 64
    ensures var l2bits := And(And(s.l2, ValidL2Mask()), MaskAbove(w0 / 64));
            if l2bits == Zero() then IsSuccessor(Bits(s), idx, INVALID)
            else var q := BitLow(l2bits);
                 q < L1_WORDS && s.l1[q] != Zero() &&
                 var p := q * 64 + BitLow(s.l1[q]);
                 s.l0[p] != Zero() && IsSuccessor(Bits(s), idx, p * 64 + BitLow(s.l0[p]))
  {
    hide And, Shr, Shl, Zero, Ones, ValidL2Mask, MaskBelow, MaskAbove, MaskAtOrBelow, MaskAtOrAbove, BitHigh, BitLow;
    hide Bits;
    var l2bits := And(And(s.l2, ValidL2Mask()), MaskAbove(w0 / 64));
    forall j | j in Bits(s) && idx <= j ensures w0 / 64 < j / 64 / 64 < L1_WORDS && l2bits[j / 64 / 64] {
      MemberAbove(s, w0, j, l2bits);
    }
    NonZeroHasBit(l2bits);
    if l2bits != Zero() {
      var q := BitLow(l2bits);
      assert l2bits[q];
      LowestOfGroup(s, q);
      forall j | j in Bits(s) && idx <= j
        ensures var p := q * 64 + BitLow(s.l1[q]); p * 64 + BitLow(s.l0[p]) <= j
      {
        AboveLowest(s, q, j);
      }
    }
  }

  // ----- The owning wrapper -------------------------------------------------------------

  datatype Change = Set(idx: nat) | Reset(idx: nat)

  /** The set a sequence of changes leads to. */
  ghost function Changed(members: set<nat>, changes: seq<Change>): (r: set<nat>) {
    if changes == [] then members
    else
      var before := Changed(members, changes[..|changes| - 1]);
      match changes[|changes| - 1]
      case Set(idx) => before + {idx}
      case Reset(idx) => before - {idx}
  }

  class PriceBitmap {
    const l0: array<Word>
    const l1: array<Word>
    var l2: Word

    ghost predicate Shaped()
      reads this, l0, l1
    {
      l0.Length == L0_WORDS && l1.Length == L1_WORDS && l0 != l1
    }

    ghost function Snapshot(): Storage
      requires Shaped()
      reads this, l0, l1
    {
      StorageRaw.Storage(l0[..], l1[..], l2)
    }

    /** The three levels agree and hold exactly `members`. */
    ghost predicate Holds(members: set<nat>)
      reads this, l0, l1
    {
      Shaped() && Valid(Snapshot()) && Bits(Snapshot()) == members
    }

    constructor ()
      ensures Holds({}) && fresh(l0) && fresh(l1)
    {
      l0 := new Word[L0_WORDS](_ => Zero());
      l1 := new Word[L1_WORDS](_ => Zero());
      l2 := Zero();
      new;
      assert l0[..] == Empty().l0 && l1[..] == Empty().l1;
      EmptyIsValid();
    }

    method SetInPlace(idx: nat, ghost members: set<nat>)
      requires Holds(members) && idx < NUM_BITS
      modifies this, l0, l1
      ensures Shaped() && Snapshot() == SetBit(old(Snapshot()), idx) && Holds(members + {idx})
    {
      hide Valid, Bits, Or, Shl, One;
      ghost var s := Snapshot();
      SetBitAddsOne(s, idx);
      var w0, b0 := idx / 64, idx % 64;
      var w1, b1 := w0 / 64, w0 % 64;
      l0[w0] := Or(l0[w0], Shl(One(), b0));
      l1[w1] := Or(l1[w1], Shl(One(), b1));
      l2 := Or(l2, Shl(One(), w1));
    }

    method ResetInPlace(idx: nat, ghost members: set<nat>)
      requires Holds(members) && idx < NUM_BITS
      modifies this, l0, l1
      ensures Shaped() && Snapshot() == ResetBit(old(Snapshot()), idx) && Holds(members - {idx})
    {
      hide Valid, Bits, And, Not, Shl, One;
      ghost var s := Snapshot();
      ResetBitRemovesOne(s, idx);
      var w0, b0 := idx / 64, idx % 64;
      l0[w0] := And(l0[w0], Not(Shl(One(), b0)));
      if l0[w0] != Zero() {
        return;
      }
      var w1, b1 := w0 / 64, w0 % 64;
      l1[w1] := And(l1[w1], Not(Shl(One(), b1)));
      if l1[w1] != Zero() {
        return;
      }
      l2 := And(l2, Not(Shl(One(), w1)));
    }

    /** After any sequence of sets and resets the bitmap holds what a plain set would. */
    method ApplyAll(changes: seq<Change>, ghost members: set<nat>)
      requires Holds(members) && forall i :: 0 <= i < |changes| ==> changes[i].idx < NUM_BITS
      modifies this, l0, l1
      ensures Holds(Changed(members, changes))
    {
      hide Holds;
      for i := 0 to |changes|
        invariant Holds(Changed(members, changes[..i]))
      {
        assert changes[..i + 1][..i] == changes[..i];
        match changes[i]
        case Set(idx) => SetInPlace(idx, Changed(members, changes[..i]));
        case Reset(idx) => ResetInPlace(idx, Changed(members, changes[..i]));
      }
      assert changes[..|changes|] == changes;
    }
  }
}
