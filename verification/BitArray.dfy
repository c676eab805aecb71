/**
 The fixed-size bit array: 64-bit words with masks and leading/trailing bit counts. Everything is
 stated about the flat array of bits, `Get(words, i)`, for any number of words.
 */
module BitArray {
  import opened Words

  const WORD_BITS: nat := 64
  const MAX_WORD: nat := 0xFFFF_FFFF_FFFF_FFFF

  type Word = x: nat | x <= MAX_WORD

  predicate Get(words: seq<Word>, i: nat)
    requires i < WORD_BITS * |words|
  {
    Bit(words[i / WORD_BITS], i % WORD_BITS)
  }

  lemma BitOfWord(words: seq<Word>, w: nat, b: nat)
    requires w < |words| && b < WORD_BITS
    ensures WORD_BITS * w + b < WORD_BITS * |words|
    ensures Get(words, WORD_BITS * w + b) == Bit(words[w], b)
  {
    assert (64 * w + b) / 64 == w && (64 * w + b) % 64 == b;
  }

  // ---------------------------------------------------------------- masks

  /** `~uint64_t {0} << bit` */
  function OnesFrom(bit: nat): (m: Word)
    requires bit < WORD_BITS
  {
    WordLimit();
    Low(Shl(MAX_WORD, bit), WORD_BITS)
  }

  /** `(uint64_t {1} << bit) - 1` */
  function OnesBelow(bit: nat): (m: Word)
    requires bit < WORD_BITS
  {
    WordLimit();
    Pow2Monotone(bit, WORD_BITS);
    Pow2(bit) - 1
  }

  /** The bits up to and including end_bit. */
  function OnesUpTo(endBit: nat): (m: Word)
    requires endBit < WORD_BITS
  {
    if endBit == WORD_BITS - 1 then MAX_WORD else OnesBelow(endBit + 1)
  }

  function Complement(a: Word): (r: Word)
  {
    WordLimit();
    Not(a, WORD_BITS)
  }

  function Both(a: Word, b: Word): (r: Word)
  {
    AndBound(a, b);
    And(a, b)
  }

  function Either(a: Word, b: Word): (r: Word)
  {
    WordLimit();
    OrBound(a, b, WORD_BITS);
    Or(a, b)
  }

  lemma WordLimit()
    ensures Pow2(WORD_BITS) == MAX_WORD + 1
  {
    WordSize();
  }

  lemma {:induction false} AndBound(a: nat, b: nat)
    ensures And(a, b) <= a
  {
    if a != 0 && b != 0 {
      AndBound(a / 2, b / 2);
    }
  }

  lemma {:induction false} OrBound(a: nat, b: nat, k: nat)
    requires a < Pow2(k) && b < Pow2(k)
    ensures Or(a, b) < Pow2(k)
    decreases k
  {
    if k > 0 && (a > 0 || b > 0) {
      OrBound(a / 2, b / 2, k - 1);
    }
  }

  lemma AllOnesBit(i: nat)
    ensures Bit(MAX_WORD, i) == (i < WORD_BITS)
  {
    hide Bit, Pow2;
    WordLimit();
    OnesBit(WORD_BITS, i);
  }

  lemma OnesFromBit(bit: nat, i: nat)
    requires bit < WORD_BITS
    ensures Bit(OnesFrom(bit), i) == (bit <= i < WORD_BITS)
  {
    hide Bit, Shl, Low, Pow2;
    LowBit(Shl(MAX_WORD, bit), WORD_BITS, i);
    ShlBit(MAX_WORD, bit, i);
    if i >= bit {
      AllOnesBit(i - bit);
    }
  }

  lemma OnesBelowBit(bit: nat, i: nat)
    requires bit < WORD_BITS
    ensures Bit(OnesBelow(bit), i) == (i < bit)
  {
    hide Bit, Pow2;
    OnesBit(bit, i);
  }

  lemma OnesUpToBit(endBit: nat, i: nat)
    requires endBit < WORD_BITS
    ensures Bit(OnesUpTo(endBit), i) == (i <= endBit)
  {
    hide Bit, Pow2;
    if endBit == WORD_BITS - 1 {
      AllOnesBit(i);
    } else {
      OnesBelowBit(endBit + 1, i);
    }
  }

  lemma ComplementBit(a: Word, i: nat)
    requires i < WORD_BITS
    ensures Bit(Complement(a), i) == !Bit(a, i)
  {
    hide Bit, Pow2;
    WordLimit();
    NotBit(a, WORD_BITS, i);
  }

  // ---------------------------------------------------------------- counting bits

  /** std::countr_zero: clear bits below the lowest set one. */
  function CountrZero(w: nat, n: nat): (c: nat)
    ensures c <= n
    decreases n
  {
    if n == 0 || w % 2 == 1 then 0 else 1 + CountrZero(w / 2, n - 1)
  }

  /** std::countr_one */
  function CountrOne(w: nat, n: nat): (c: nat)
    ensures c <= n
    decreases n
  {
    if n == 0 || w % 2 == 0 then 0 else 1 + CountrOne(w / 2, n - 1)
  }

  /** std::countl_zero */
  function CountlZero(w: nat, n: nat): (c: nat)
    ensures c <= n
    decreases n
  {
    if n == 0 || Bit(w, n - 1) then 0 else 1 + CountlZero(w, n - 1)
  }

  /** std::countl_one */
  function CountlOne(w: nat, n: nat): (c: nat)
    ensures c <= n
    decreases n
  {
    if n == 0 || !Bit(w, n - 1) then 0 else 1 + CountlOne(w, n - 1)
  }

  lemma {:induction false} CountrZeroBits(w: nat, n: nat)
    ensures forall i: nat :: i < CountrZero(w, n) ==> !Bit(w, i)
    ensures CountrZero(w, n) < n ==> Bit(w, CountrZero(w, n))
    decreases n
  {
    if n > 0 && w % 2 == 0 {
      CountrZeroBits(w / 2, n - 1);
      forall i: nat | i < CountrZero(w, n) ensures !Bit(w, i) {
        if i > 0 {
          assert !Bit(w / 2, i - 1);
        }
      }
    }
  }

  lemma {:induction false} CountrOneBits(w: nat, n: nat)
    ensures forall i: nat :: i < CountrOne(w, n) ==> Bit(w, i)
    ensures CountrOne(w, n) < n ==> !Bit(w, CountrOne(w, n))
    decreases n
  {
    if n > 0 && w % 2 == 1 {
      CountrOneBits(w / 2, n - 1);
      forall i: nat | i < CountrOne(w, n) ensures Bit(w, i) {
        if i > 0 {
          assert Bit(w / 2, i - 1);
        }
      }
    }
  }

  lemma {:induction false} CountlZeroBits(w: nat, n: nat)
    ensures forall i: nat :: n - CountlZero(w, n) <= i < n ==> !Bit(w, i)
    ensures CountlZero(w, n) < n ==> Bit(w, n - 1 - CountlZero(w, n))
    decreases n
  {
    hide Bit;
    if n > 0 && !Bit(w, n - 1) {
      CountlZeroBits(w, n - 1);
    }
  }

  lemma {:induction false} CountlOneBits(w: nat, n: nat)
    ensures forall i: nat :: n - CountlOne(w, n) <= i < n ==> Bit(w, i)
    ensures CountlOne(w, n) < n ==> !Bit(w, n - 1 - CountlOne(w, n))
    decreases n
  {
    hide Bit;
    if n > 0 && Bit(w, n - 1) {
      CountlOneBits(w, n - 1);
    }
  }

  /** A set bit of a word is among its 64. */
  lemma BitInWord(w: Word, i: nat)
    requires Bit(w, i)
    ensures i < WORD_BITS
  {
    hide Bit, Pow2;
    WordLimit();
    if i >= WORD_BITS {
      HighBit(w, WORD_BITS, i);
    }
  }

  /** A word with a set bit among its 64 is not zero, and conversely. */
  lemma NonzeroWord(w: Word)
    ensures w == 0 <==> forall i: nat :: i < WORD_BITS ==> !Bit(w, i)
  {
    hide Bit, Pow2;
    if w == 0 {
      forall i: nat ensures !Bit(w, i) {
        ZeroBit(i);
      }
    } else {
      var i := SomeBit(w);
      BitInWord(w, i);
    }
  }

  /** A word other than all ones has a clear bit among its 64. */
  lemma NotAllOnes(w: Word) returns (i: nat)
    requires w != MAX_WORD
    ensures i < WORD_BITS && !Bit(w, i)
  {
    hide Bit, Pow2;
    ComplementValue(w);
    NonzeroWord(Complement(w));
    i :| i < WORD_BITS && Bit(Complement(w), i);
    ComplementBit(w, i);
  }

  lemma ComplementValue(w: Word)
    ensures Complement(w) == MAX_WORD - w
  {
    WordLimit();
  }

  // ---------------------------------------------------------------- ranges of positions

  /** Bit b of word w lies between position (first, startBit) and (last, endBit), inclusive. */
  predicate InWords(w: nat, b: nat, first: nat, startBit: nat, last: nat, endBit: nat)
  {
    && (w > first || (w == first && b >= startBit))
    && (w < last || (w == last && b <= endBit))
  }

  /** Positions compare as their (word, bit) pairs do. */
  lemma RangeInWords(start: nat, end: nat, i: nat)
    requires start < end
    ensures start <= i < end <==>
            InWords(i / WORD_BITS, i % WORD_BITS, start / WORD_BITS, start % WORD_BITS,
                    (end - 1) / WORD_BITS, (end - 1) % WORD_BITS)
  {
  }

  /** The range the range operations act on; other arguments are ignored. */
  predicate Acts(start: nat, end: nat, size: nat)
  {
    start < end <= size
  }

  /** Bit b of the two masks of a range, in the word that holds its first and in the one that holds its last bit. */
  lemma MasksBit(startBit: nat, endBit: nat, b: nat)
    requires startBit < WORD_BITS && endBit < WORD_BITS && b < WORD_BITS
    ensures Bit(OnesFrom(startBit), b) == (startBit <= b)
    ensures Bit(OnesUpTo(endBit), b) == (b <= endBit)
    ensures Bit(Both(OnesFrom(startBit), OnesUpTo(endBit)), b) == (startBit <= b <= endBit)
  {
    hide Bit, And, OnesFrom, OnesUpTo;
    OnesFromBit(startBit, b);
    OnesUpToBit(endBit, b);
    AndBit(OnesFrom(startBit), OnesUpTo(endBit), b);
  }

  /** The words of an array after SetRange, given the four coordinates of the range. */
  function SetWord(x: Word, w: nat, first: nat, startBit: nat, last: nat, endBit: nat): (r: Word)
    requires startBit < WORD_BITS && endBit < WORD_BITS
  {
    if w < first || w > last then x
    else if first == last then Either(x, Both(OnesFrom(startBit), OnesUpTo(endBit)))
    else if w == first then Either(x, OnesFrom(startBit))
    else if w == last then Either(x, OnesUpTo(endBit))
    else MAX_WORD
  }

  lemma SetWordBit(x: Word, w: nat, b: nat, first: nat, startBit: nat, last: nat, endBit: nat)
    requires startBit < WORD_BITS && endBit < WORD_BITS && b < WORD_BITS && first <= last
    ensures Bit(SetWord(x, w, first, startBit, last, endBit), b) ==
            (Bit(x, b) || InWords(w, b, first, startBit, last, endBit))
  {
    hide Bit, Or, And, OnesFrom, OnesUpTo, Both;
    MasksBit(startBit, endBit, b);
    OrBit(x, Both(OnesFrom(startBit), OnesUpTo(endBit)), b);
    OrBit(x, OnesFrom(startBit), b);
    OrBit(x, OnesUpTo(endBit), b);
    AllOnesBit(b);
  }

  function UnsetWord(x: Word, w: nat, first: nat, startBit: nat, last: nat, endBit: nat): (r: Word)
    requires startBit < WORD_BITS && endBit < WORD_BITS
  {
    if w < first || w > last then x
    else if first == last then Both(x, Either(OnesBelow(startBit), Complement(OnesUpTo(endBit))))
    else if w == first then Both(x, OnesBelow(startBit))
    else if w == last then Both(x, Complement(OnesUpTo(endBit)))
    else 0
  }

  lemma UnsetWordBit(x: Word, w: nat, b: nat, first: nat, startBit: nat, last: nat, endBit: nat)
    requires startBit < WORD_BITS && endBit < WORD_BITS && b < WORD_BITS && first <= last
    ensures Bit(UnsetWord(x, w, first, startBit, last, endBit), b) ==
            (Bit(x, b) && !InWords(w, b, first, startBit, last, endBit))
  {
    hide Bit, Or, And, OnesBelow, OnesUpTo, Complement;
    var low, high := OnesBelow(startBit), Complement(OnesUpTo(endBit));
    OnesBelowBit(startBit, b);
    OnesUpToBit(endBit, b);
    ComplementBit(OnesUpTo(endBit), b);
    OrBit(low, high, b);
    AndBit(x, Either(low, high), b);
    AndBit(x, low, b);
    AndBit(x, high, b);
    ZeroBit(b);
  }

  function SliceWord(x: Word, w: nat, first: nat, startBit: nat, last: nat, endBit: nat): (r: Word)
    requires startBit < WORD_BITS && endBit < WORD_BITS
  {
    if w < first || w > last then 0
    else if first == last then Both(Both(x, OnesFrom(startBit)), OnesUpTo(endBit))
    else if w == first then Both(x, OnesFrom(startBit))
    else if w == last then Both(x, OnesUpTo(endBit))
    else x
  }

  lemma SliceWordBit(x: Word, w: nat, b: nat, first: nat, startBit: nat, last: nat, endBit: nat)
    requires startBit < WORD_BITS && endBit < WORD_BITS && b < WORD_BITS && first <= last
    ensures Bit(SliceWord(x, w, first, startBit, last, endBit), b) ==
            (Bit(x, b) && InWords(w, b, first, startBit, last, endBit))
  {
    hide Bit, And, OnesFrom, OnesUpTo;
    MasksBit(startBit, endBit, b);
    AndBit(x, OnesFrom(startBit), b);
    AndBit(Both(x, OnesFrom(startBit)), OnesUpTo(endBit), b);
    AndBit(x, OnesUpTo(endBit), b);
    ZeroBit(b);
  }

  // ---------------------------------------------------------------- runs of set bits

  ghost predicate SetOn(words: seq<Word>, lo: nat, hi: nat)
    requires hi <= WORD_BITS * |words|
  {
    forall i :: lo <= i < hi ==> Get(words, i)
  }

  ghost predicate ClearOn(words: seq<Word>, lo: nat, hi: nat)
    requires hi <= WORD_BITS * |words|
  {
    forall i :: lo <= i < hi ==> !Get(words, i)
  }

  /** [range.0, range.1) is the first run of set bits that has a bit at or after start. */
  ghost predicate FirstRun(words: seq<Word>, start: nat, range: (nat, nat))
  {
    var n := WORD_BITS * |words|;
    if range.0 == n then
      range.1 == n && ClearOn(words, start, n)
    else
      && start <= range.0 < range.1 <= n
      && ClearOn(words, start, range.0)
      && SetOn(words, range.0, range.1)
      && (range.1 < n ==> !Get(words, range.1))
  }

  /** [range.0, range.1) is the last run of set bits below end; (0, 0) when there is none. */
  ghost predicate LastRun(words: seq<Word>, end: nat, range: (nat, nat))
  {
    var n := WORD_BITS * |words|;
    var top := if end > n then n else end;
    if range.1 == 0 then
      range.0 == 0 && ClearOn(words, 0, top)
    else
      && range.0 < range.1 <= top
      && ClearOn(words, range.1, top)
      && SetOn(words, range.0, range.1)
      && (range.0 > 0 ==> !Get(words, range.0 - 1))
  }

  lemma NoLastRun(words: seq<Word>, end: nat, top: nat)
    requires top == (if end > WORD_BITS * |words| then WORD_BITS * |words| else end)
    requires ClearOn(words, 0, top)
    ensures LastRun(words, end, (0, 0))
  {
  }

  lemma IsLastRun(words: seq<Word>, end: nat, top: nat, first: nat, last: nat)
    requires top == (if end > WORD_BITS * |words| then WORD_BITS * |words| else end)
    requires first < last <= top && ClearOn(words, last, top) && SetOn(words, first, last)
    requires first > 0 ==> !Get(words, first - 1)
    ensures LastRun(words, end, (first, last))
  {
    hide Get, SetOn, ClearOn;
  }

  /** A maximal run of set bits. */
  ghost predicate MaximalRun(words: seq<Word>, range: (nat, nat))
  {
    var n := WORD_BITS * |words|;
    && range.0 < range.1 <= n
    && SetOn(words, range.0, range.1)
    && (range.0 > 0 ==> !Get(words, range.0 - 1))
    && (range.1 < n ==> !Get(words, range.1))
  }

  /** Maximal runs that share a position are the same run. */
  lemma OverlappingRuns(words: seq<Word>, a: (nat, nat), b: (nat, nat), i: nat)
    requires MaximalRun(words, a) && MaximalRun(words, b)
    requires a.0 <= i < a.1 && b.0 <= i < b.1
    ensures a == b
  {
    hide Get;
    assert a.0 > 0 ==> !Get(words, a.0 - 1);
    assert b.0 > 0 ==> !Get(words, b.0 - 1);
    assert a.1 < WORD_BITS * |words| ==> !Get(words, a.1);
    assert b.1 < WORD_BITS * |words| ==> !Get(words, b.1);
  }

  lemma FirstRunUnique(words: seq<Word>, start: nat, a: (nat, nat), b: (nat, nat))
    requires FirstRun(words, start, a) && FirstRun(words, start, b)
    ensures a == b
  {
    hide Get;
    var n := WORD_BITS * |words|;
    if a.0 < n {
      assert Get(words, a.0);
    }
    if b.0 < n {
      assert Get(words, b.0);
    }
  }

  lemma LastRunUnique(words: seq<Word>, end: nat, a: (nat, nat), b: (nat, nat))
    requires LastRun(words, end, a) && LastRun(words, end, b)
    ensures a == b
  {
    hide Get;
    if a.1 > 0 {
      assert Get(words, a.1 - 1);
    }
    if b.1 > 0 {
      assert Get(words, b.1 - 1);
    }
  }

  /** Searching back from the end of a run found forwards gives the same run. */
  lemma LastRunUndoesFirstRun(words: seq<Word>, start: nat, range: (nat, nat), back: (nat, nat))
    requires FirstRun(words, start, range) && range.0 < WORD_BITS * |words|
    requires 0 < start < WORD_BITS * |words| ==> !Get(words, start - 1) || !Get(words, start)
    requires LastRun(words, range.1, back)
    ensures back == range
  {
    hide Get;
    if range.0 > 0 {
      assert !Get(words, range.0 - 1);
    }
    assert LastRun(words, range.1, range);
    LastRunUnique(words, range.1, back, range);
  }

  // ---- one word of a search

  /** word holds the bits of words[w] at positions from lo upwards. */
  ghost predicate Above(words: seq<Word>, w: nat, lo: nat, word: Word)
    requires w < |words|
  {
    forall b: nat :: b < WORD_BITS ==> Bit(word, b) == (Bit(words[w], b) && WORD_BITS * w + b >= lo)
  }

  /** word holds the bits of words[w] at positions below hi. */
  ghost predicate Below(words: seq<Word>, w: nat, hi: nat, word: Word)
    requires w < |words|
  {
    forall b: nat :: b < WORD_BITS ==> Bit(word, b) == (Bit(words[w], b) && WORD_BITS * w + b < hi)
  }

  /** A position inside word w, as a word and a bit. */
  lemma Locate(words: seq<Word>, w: nat, i: nat)
    requires w < |words| && WORD_BITS * w <= i < WORD_BITS * (w + 1)
    ensures i - WORD_BITS * w < WORD_BITS && i < WORD_BITS * |words|
    ensures Get(words, i) == Bit(words[w], i - WORD_BITS * w)
  {
    BitOfWord(words, w, i - WORD_BITS * w);
  }

  lemma FirstWordAbove(words: seq<Word>, lo: nat)
    requires lo < WORD_BITS * |words|
    ensures lo / WORD_BITS < |words|
    ensures Above(words, lo / WORD_BITS, lo, Both(words[lo / WORD_BITS], OnesFrom(lo % WORD_BITS)))
  {
    hide Bit, And, OnesFrom;
    var w, bit := lo / WORD_BITS, lo % WORD_BITS;
    forall b: nat | b < WORD_BITS
      ensures Bit(Both(words[w], OnesFrom(bit)), b) == (Bit(words[w], b) && WORD_BITS * w + b >= lo)
    {
      AndBit(words[w], OnesFrom(bit), b);
      OnesFromBit(bit, b);
    }
  }

  lemma LastWordBelow(words: seq<Word>, hi: nat)
    requires 0 < hi <= WORD_BITS * |words|
    ensures (hi - 1) / WORD_BITS < |words|
    ensures Below(words, (hi - 1) / WORD_BITS, hi,
                  Both(words[(hi - 1) / WORD_BITS], OnesUpTo((hi - 1) % WORD_BITS)))
  {
    hide Bit, And, OnesUpTo;
    var w, bit := (hi - 1) / WORD_BITS, (hi - 1) % WORD_BITS;
    forall b: nat | b < WORD_BITS
      ensures Bit(Both(words[w], OnesUpTo(bit)), b) == (Bit(words[w], b) && WORD_BITS * w + b < hi)
    {
      AndBit(words[w], OnesUpTo(bit), b);
      OnesUpToBit(bit, b);
    }
  }

  lemma NextWordAbove(words: seq<Word>, w: nat, lo: nat)
    requires w < |words| && lo <= WORD_BITS * w
    ensures Above(words, w, lo, words[w])
  {
  }

  lemma NextWordBelow(words: seq<Word>, w: nat, hi: nat)
    requires w < |words| && WORD_BITS * (w + 1) <= hi
    ensures Below(words, w, hi, words[w])
  {
  }

  /** An empty word extends a stretch of clear bits upwards. */
  lemma ClearAbove(words: seq<Word>, w: nat, lo: nat)
    requires w < |words| && ClearOn(words, lo, WORD_BITS * w) && Above(words, w, lo, 0)
    ensures ClearOn(words, lo, WORD_BITS * (w + 1))
  {
    hide Get, Bit;
    forall i | lo <= i < WORD_BITS * (w + 1) ensures !Get(words, i) {
      if i >= WORD_BITS * w {
        Locate(words, w, i);
        ZeroBit(i - WORD_BITS * w);
      }
    }
  }

  lemma ClearBelow(words: seq<Word>, w: nat, hi: nat)
    requires w < |words| && hi <= WORD_BITS * |words| && Below(words, w, hi, 0)
    requires ClearOn(words, WORD_BITS * (w + 1), hi)
    ensures ClearOn(words, WORD_BITS * w, hi)
  {
    hide Get, Bit;
    forall i | WORD_BITS * w <= i < hi ensures !Get(words, i) {
      if i < WORD_BITS * (w + 1) {
        Locate(words, w, i);
        ZeroBit(i - WORD_BITS * w);
      }
    }
  }

  /** The first set bit of a nonempty word is the first set bit from lo. */
  lemma FirstSetBit(words: seq<Word>, w: nat, lo: nat, word: Word) returns (c: nat)
    requires w < |words| && ClearOn(words, lo, WORD_BITS * w) && Above(words, w, lo, word) && word != 0
    ensures c == CountrZero(word, WORD_BITS) && c < WORD_BITS
    ensures lo <= WORD_BITS * w + c && Bit(words[w], c)
    ensures ClearOn(words, lo, WORD_BITS * w + c)
  {
    hide Get, Bit;
    c := CountrZero(word, WORD_BITS);
    CountrZeroBits(word, WORD_BITS);
    NonzeroWord(word);
    assert c < WORD_BITS;
    assert Bit(word, c);
    forall i | lo <= i < WORD_BITS * w + c ensures !Get(words, i) {
      if i >= WORD_BITS * w {
        Locate(words, w, i);
        assert !Bit(word, i - WORD_BITS * w);
      }
    }
  }

  /** The ones from bit c of a word upwards are the set bits from that position within the word. */
  lemma OnesAbove(words: seq<Word>, w: nat, c: nat) returns (k: nat)
    requires w < |words| && c < WORD_BITS
    ensures k == CountrOne(Shr(words[w], c), WORD_BITS) && c + k <= WORD_BITS
    ensures Bit(words[w], c) ==> k > 0
    ensures WORD_BITS * (w + 1) <= WORD_BITS * |words|
    ensures SetOn(words, WORD_BITS * w + c, WORD_BITS * w + c + k)
    ensures c + k < WORD_BITS ==> !Get(words, WORD_BITS * w + c + k)
  {
    hide Get, Bit, Shr;
    var x := words[w];
    k := CountrOne(Shr(x, c), WORD_BITS);
    CountrOneBits(Shr(x, c), WORD_BITS);
    if k > 0 {
      ShrBit(x, c, k - 1);
      assert Bit(Shr(x, c), k - 1);
      BitInWord(x, k - 1 + c);
    }
    forall i | WORD_BITS * w + c <= i < WORD_BITS * w + c + k ensures Get(words, i) {
      Locate(words, w, i);
      ShrBit(x, c, i - WORD_BITS * w - c);
      assert Bit(Shr(x, c), i - WORD_BITS * w - c);
    }
    if k < WORD_BITS {
      ShrBit(x, c, k);
    }
    if c + k < WORD_BITS {
      Locate(words, w, WORD_BITS * w + c + k);
    }
  }

  /** The last set bit of a nonempty word is the last set bit below hi. */
  lemma LastSetBit(words: seq<Word>, w: nat, hi: nat, word: Word) returns (c: nat)
    requires w < |words| && hi <= WORD_BITS * |words| && Below(words, w, hi, word) && word != 0
    requires ClearOn(words, WORD_BITS * (w + 1), hi)
    ensures c == CountlZero(word, WORD_BITS) && c < WORD_BITS
    ensures WORD_BITS * (w + 1) - c <= hi && Bit(word, WORD_BITS - 1 - c)
    ensures ClearOn(words, WORD_BITS * (w + 1) - c, hi)
  {
    hide Get, Bit;
    c := CountlZero(word, WORD_BITS);
    CountlZeroBits(word, WORD_BITS);
    NonzeroWord(word);
    assert c < WORD_BITS;
    var top := WORD_BITS - 1 - c;
    assert Bit(word, top);
    forall i | WORD_BITS * (w + 1) - c <= i < hi ensures !Get(words, i) {
      if i < WORD_BITS * (w + 1) {
        Locate(words, w, i);
        assert !Bit(word, i - WORD_BITS * w);
      }
    }
  }

  /** The ones below bit 64 - c of a word are the set bits below that position within the word. */
  lemma OnesBelowTop(words: seq<Word>, w: nat, hi: nat, word: Word, c: nat) returns (k: nat)
    requires w < |words| && c < WORD_BITS && Below(words, w, hi, word)
    requires WORD_BITS * (w + 1) - c <= hi
    ensures k == CountlOne(Low(Shl(word, c), WORD_BITS), WORD_BITS) && c + k <= WORD_BITS
    ensures Bit(word, WORD_BITS - 1 - c) ==> k > 0
    ensures WORD_BITS * (w + 1) <= WORD_BITS * |words|
    ensures SetOn(words, WORD_BITS * (w + 1) - c - k, WORD_BITS * (w + 1) - c)
    ensures c + k < WORD_BITS ==> !Get(words, WORD_BITS * (w + 1) - c - k - 1)
  {
    hide Get, Bit, Shl, Low;
    var x := Low(Shl(word, c), WORD_BITS);
    k := CountlOne(x, WORD_BITS);
    CountlOneBits(x, WORD_BITS);
    forall b: nat | b < WORD_BITS ensures Bit(x, b) == (b >= c && Bit(word, b - c)) {
      LowBit(Shl(word, c), WORD_BITS, b);
      ShlBit(word, c, b);
    }
    if k > 0 {
      assert Bit(x, WORD_BITS - k);
    }
    forall i | WORD_BITS * (w + 1) - c - k <= i < WORD_BITS * (w + 1) - c ensures Get(words, i) {
      Locate(words, w, i);
      assert Bit(x, i - WORD_BITS * w + c);
    }
    if c + k < WORD_BITS {
      Locate(words, w, WORD_BITS * (w + 1) - c - k - 1);
      assert !Bit(x, WORD_BITS - 1 - k);
    }
  }

  /** A full word extends a stretch of set bits upwards. */
  lemma SetThrough(words: seq<Word>, w: nat, lo: nat)
    requires w < |words| && SetOn(words, lo, WORD_BITS * w) && words[w] == MAX_WORD
    ensures SetOn(words, lo, WORD_BITS * (w + 1))
  {
    hide Get, Bit;
    forall i | lo <= i < WORD_BITS * (w + 1) ensures Get(words, i) {
      if i >= WORD_BITS * w {
        Locate(words, w, i);
        AllOnesBit(i - WORD_BITS * w);
      }
    }
  }

  lemma SetThroughDown(words: seq<Word>, w: nat, hi: nat)
    requires w < |words| && hi <= WORD_BITS * |words| && words[w] == MAX_WORD
    requires SetOn(words, WORD_BITS * (w + 1), hi)
    ensures SetOn(words, WORD_BITS * w, hi)
  {
    hide Get, Bit;
    forall i | WORD_BITS * w <= i < hi ensures Get(words, i) {
      if i < WORD_BITS * (w + 1) {
        Locate(words, w, i);
        AllOnesBit(i - WORD_BITS * w);
      }
    }
  }

  /** The ones at the low end of a word that is not full end before the word does. */
  lemma EndInWord(words: seq<Word>, w: nat, lo: nat) returns (k: nat)
    requires w < |words| && SetOn(words, lo, WORD_BITS * w) && words[w] != MAX_WORD
    ensures k == CountrOne(words[w], WORD_BITS) && k < WORD_BITS
    ensures WORD_BITS * w + k < WORD_BITS * |words|
    ensures SetOn(words, lo, WORD_BITS * w + k) && !Get(words, WORD_BITS * w + k)
  {
    hide Get, Bit;
    k := CountrOne(words[w], WORD_BITS);
    CountrOneBits(words[w], WORD_BITS);
    var clear := NotAllOnes(words[w]);
    assert k < WORD_BITS;
    BitOfWord(words, w, k);
    forall i | lo <= i < WORD_BITS * w + k ensures Get(words, i) {
      if i >= WORD_BITS * w {
        Locate(words, w, i);
      }
    }
  }

  lemma StartInWord(words: seq<Word>, w: nat, hi: nat) returns (k: nat)
    requires w < |words| && hi <= WORD_BITS * |words| && words[w] != MAX_WORD
    requires SetOn(words, WORD_BITS * (w + 1), hi)
    ensures k == CountlOne(words[w], WORD_BITS) && k < WORD_BITS
    ensures SetOn(words, WORD_BITS * (w + 1) - k, hi)
    ensures !Get(words, WORD_BITS * (w + 1) - k - 1)
  {
    hide Get, Bit;
    k := CountlOne(words[w], WORD_BITS);
    CountlOneBits(words[w], WORD_BITS);
    var clear := NotAllOnes(words[w]);
    assert k < WORD_BITS;
    BitOfWord(words, w, WORD_BITS - 1 - k);
    forall i | WORD_BITS * (w + 1) - k <= i < hi ensures Get(words, i) {
      if i < WORD_BITS * (w + 1) {
        Locate(words, w, i);
      }
    }
  }

  // ---------------------------------------------------------------- the array

  function RangeWord(x: Word, w: nat, first: nat, startBit: nat, last: nat, endBit: nat, on: bool): (r: Word)
    requires startBit < WORD_BITS && endBit < WORD_BITS
  {
    if on then SetWord(x, w, first, startBit, last, endBit) else UnsetWord(x, w, first, startBit, last, endBit)
  }

  /** The words of two arrays differ in a range exactly as the flat arrays of bits do. */
  lemma RangeWords(before: seq<Word>, after: seq<Word>, start: nat, end: nat, on: bool)
    requires |before| == |after| && start < end <= WORD_BITS * |before|
    requires
      forall w :: 0 <= w < |after| ==>
        after[w] == RangeWord(before[w], w, start / WORD_BITS, start % WORD_BITS,
                              (end - 1) / WORD_BITS, (end - 1) % WORD_BITS, on)
    ensures forall i :: 0 <= i < WORD_BITS * |after| ==>
      Get(after, i) == if start <= i < end then on else Get(before, i)
  {
    hide Bit, SetWord, UnsetWord, InWords;
    forall i | 0 <= i < WORD_BITS * |after|
      ensures Get(after, i) == if start <= i < end then on else Get(before, i)
    {
      var w, b := i / WORD_BITS, i % WORD_BITS;
      RangeInWords(start, end, i);
      if on {
        SetWordBit(before[w], w, b, start / WORD_BITS, start % WORD_BITS,
                   (end - 1) / WORD_BITS, (end - 1) % WORD_BITS);
      } else {
        UnsetWordBit(before[w], w, b, start / WORD_BITS, start % WORD_BITS,
                     (end - 1) / WORD_BITS, (end - 1) % WORD_BITS);
      }
    }
  }

  lemma SliceWords(source: seq<Word>, slice: seq<Word>, start: nat, end: nat)
    requires |source| == |slice| && start < end <= WORD_BITS * |source|
    requires
      forall w :: 0 <= w < |slice| ==>
        slice[w] == SliceWord(source[w], w, start / WORD_BITS, start % WORD_BITS,
                              (end - 1) / WORD_BITS, (end - 1) % WORD_BITS)
    ensures forall i :: 0 <= i < WORD_BITS * |slice| ==>
      Get(slice, i) == (start <= i < end && Get(source, i))
  {
    hide Bit, SliceWord, InWords;
    forall i | 0 <= i < WORD_BITS * |slice|
      ensures Get(slice, i) == (start <= i < end && Get(source, i))
    {
      var w, b := i / WORD_BITS, i % WORD_BITS;
      RangeInWords(start, end, i);
      SliceWordBit(source[w], w, b, start / WORD_BITS, start % WORD_BITS,
                   (end - 1) / WORD_BITS, (end - 1) % WORD_BITS);
    }
  }

  lemma ClearWords(words: seq<Word>)
    requires forall w :: 0 <= w < |words| ==> words[w] == 0
    ensures ClearOn(words, 0, WORD_BITS * |words|)
  {
    hide Bit;
    forall i | 0 <= i < WORD_BITS * |words| ensures !Get(words, i) {
      ZeroBit(i % WORD_BITS);
    }
  }

  class BitArray {
    const data: array<Word>

    /** BitArray(other, start, end): other's bits in the range, everything else clear. */
    constructor Slice(other: BitArray, start: nat, end: nat)
      requires other.data.Length > 0
      ensures fresh(data) && data.Length == other.data.Length
      ensures forall i :: 0 <= i < WORD_BITS * data.Length ==>
        Get(data[..], i) == (Acts(start, end, WORD_BITS * data.Length) && start <= i < end && Get(other.data[..], i))
    {
      hide Get, Both, OnesFrom, OnesUpTo;
      data := new Word[other.data.Length](_ => 0);
      new;
      if start >= end || end > WORD_BITS * data.Length {
        ClearWords(data[..]);
        return;
      }
      var firstWord, lastWord := start / WORD_BITS, (end - 1) / WORD_BITS;
      var startBit, endBit := start % WORD_BITS, (end - 1) % WORD_BITS;
      var startMask, endMask := OnesFrom(startBit), OnesUpTo(endBit);
      if firstWord == lastWord {
        data[firstWord] := Both(Both(other.data[firstWord], startMask), endMask);
        SliceWords(other.data[..], data[..], start, end);
        return;
      }
      data[firstWord] := Both(other.data[firstWord], startMask);
      for word := firstWord + 1 to lastWord
        invariant forall w :: 0 <= w < word ==>
          data[w] == SliceWord(other.data[w], w, firstWord, startBit, lastWord, endBit)
        invariant forall w :: word <= w < data.Length ==> data[w] == 0
      {
        data[word] := other.data[word];
      }
      data[lastWord] := Both(other.data[lastWord], endMask);
      SliceWords(other.data[..], data[..], start, end);
    }

    method SetRange(start: nat, end: nat)
      requires data.Length > 0
      modifies data
      ensures forall i :: 0 <= i < WORD_BITS * data.Length ==>
        Get(data[..], i) == ((Acts(start, end, WORD_BITS * data.Length) && start <= i < end) || old(Get(data[..], i)))
    {
      hide Get, Either, Both, OnesFrom, OnesUpTo;
      if start >= end || end > WORD_BITS * data.Length {
        return;
      }
      ghost var before := data[..];
      var firstWord, lastWord := start / WORD_BITS, (end - 1) / WORD_BITS;
      var startBit, endBit := start % WORD_BITS, (end - 1) % WORD_BITS;
      var startMask, endMask := OnesFrom(startBit), OnesUpTo(endBit);
      if firstWord == lastWord {
        data[firstWord] := Either(data[firstWord], Both(startMask, endMask));
        RangeWords(before, data[..], start, end, true);
        return;
      }
      data[firstWord] := Either(data[firstWord], startMask);
      for word := firstWord + 1 to lastWord
        invariant forall w :: 0 <= w < word ==>
          data[w] == SetWord(before[w], w, firstWord, startBit, lastWord, endBit)
        invariant forall w :: word <= w < data.Length ==> data[w] == before[w]
      {
        data[word] := MAX_WORD;
      }
      data[lastWord] := Either(data[lastWord], endMask);
      RangeWords(before, data[..], start, end, true);
    }

    method UnsetRange(start: nat, end: nat)
      requires data.Length > 0
      modifies data
      ensures forall i :: 0 <= i < WORD_BITS * data.Length ==>
        Get(data[..], i) == (!(Acts(start, end, WORD_BITS * data.Length) && start <= i < end) && old(Get(data[..], i)))
    {
      hide Get, Either, Both, OnesBelow, OnesUpTo, Complement;
      if start >= end || end > WORD_BITS * data.Length {
        return;
      }
      ghost var before := data[..];
      var firstWord, lastWord := start / WORD_BITS, (end - 1) / WORD_BITS;
      var startBit, endBit := start % WORD_BITS, (end - 1) % WORD_BITS;
      var startMask, endMask := OnesBelow(startBit), Complement(OnesUpTo(endBit));
      if firstWord == lastWord {
        data[firstWord] := Both(data[firstWord], Either(startMask, endMask));
        RangeWords(before, data[..], start, end, false);
        return;
      }
      data[firstWord] := Both(data[firstWord], startMask);
      for word := firstWord + 1 to lastWord
        invariant forall w :: 0 <= w < word ==>
          data[w] == UnsetWord(before[w], w, firstWord, startBit, lastWord, endBit)
        invariant forall w :: word <= w < data.Length ==> data[w] == before[w]
      {
        data[word] := 0;
      }
      data[lastWord] := Both(data[lastWord], endMask);
      RangeWords(before, data[..], start, end, false);
    }

    method FirstRangeFrom(start: nat) returns (range: (nat, nat))
      requires data.Length > 0
      ensures FirstRun(data[..], start, range)
    {
      hide Get, Bit, Above, Both, OnesFrom, SetOn, ClearOn, Shr, CountrZero, CountrOne;
      ghost var words := data[..];
      ClearEmpty(words, start);
      if start >= WORD_BITS * data.Length {
        return (WORD_BITS * data.Length, WORD_BITS * data.Length);
      }
      var index := start / WORD_BITS;
      var word := Both(data[index], OnesFrom(start % WORD_BITS));
      FirstWordAbove(words, start);
      while word == 0
        invariant start / WORD_BITS <= index < data.Length && data[..] == words
        invariant ClearOn(words, start, WORD_BITS * index) && Above(words, index, start, word)
        decreases data.Length - index
      {
        ClearAbove(words, index, start);
        index := index + 1;
        if index == data.Length {
          return (WORD_BITS * data.Length, WORD_BITS * data.Length);
        }
        word := data[index];
        NextWordAbove(words, index, start);
      }
      ghost var lowest := FirstSetBit(words, index, start, word);
      var first := index * WORD_BITS + CountrZero(word, WORD_BITS);
      var firstBit := first % WORD_BITS;
      var ones := CountrOne(Shr(data[index], firstBit), WORD_BITS);
      assert firstBit == lowest;
      ghost var count := OnesAbove(words, index, firstBit);
      if firstBit + ones < WORD_BITS {
        return (first, first + ones);
      }
      index := index + 1;
      while index < data.Length
        invariant first < WORD_BITS * index <= WORD_BITS * data.Length && data[..] == words
        invariant SetOn(words, first, WORD_BITS * index)
        decreases data.Length - index
      {
        word := data[index];
        if word != MAX_WORD {
          ghost var k := EndInWord(words, index, first);
          return (first, index * WORD_BITS + CountrOne(word, WORD_BITS));
        }
        SetThrough(words, index, first);
        index := index + 1;
      }
      return (first, WORD_BITS * data.Length);
    }

    method LastRangeFrom(end: nat) returns (range: (nat, nat))
      requires data.Length > 0
      ensures LastRun(data[..], end, range)
    {
      hide Get, Bit, Below, Both, OnesUpTo, SetOn, ClearOn, Shl, Low, LastRun, CountlZero, CountlOne;
      ghost var words := data[..];
      ClearEmpty(words, 0);
      if end == 0 {
        NoLastRun(words, end, 0);
        return (0, 0);
      }
      var top := end;
      if end > WORD_BITS * data.Length {
        top := WORD_BITS * data.Length;
      }
      var index := (top - 1) / WORD_BITS;
      var word := Both(data[index], OnesUpTo((top - 1) % WORD_BITS));
      LastWordBelow(words, top);
      NothingAbove(words, index, top);
      while word == 0
        invariant index < data.Length && data[..] == words && WORD_BITS * index < top
        invariant ClearOn(words, WORD_BITS * (index + 1), top) && Below(words, index, top, word)
        decreases index
      {
        ClearBelow(words, index, top);
        if index == 0 {
          NoLastRun(words, end, top);
          return (0, 0);
        }
        index := index - 1;
        word := data[index];
        NextWordBelow(words, index, top);
      }
      ghost var highest := LastSetBit(words, index, top, word);
      var empty := CountlZero(word, WORD_BITS);
      var ones := CountlOne(Low(Shl(word, empty), WORD_BITS), WORD_BITS);
      var last := (index + 1) * WORD_BITS - empty;
      ghost var count := OnesBelowTop(words, index, top, word, empty);
      if empty + ones < WORD_BITS {
        IsLastRun(words, end, top, last - ones, last);
        return (last - ones, last);
      }
      var first := RunStart(index, last);
      IsLastRun(words, end, top, first, last);
      return (first, last);
    }

    /** Follows a run of set bits down from the start of a word, as far as it goes. */
    method RunStart(start: nat, last: nat) returns (first: nat)
      requires start < data.Length && WORD_BITS * start < last <= WORD_BITS * data.Length
      requires SetOn(data[..], WORD_BITS * start, last)
      ensures first < last && SetOn(data[..], first, last)
      ensures first > 0 ==> !Get(data[..], first - 1)
    {
      hide Get, Bit, SetOn;
      ghost var words := data[..];
      var index: nat := start;
      while index != 0
        invariant index < data.Length && data[..] == words && WORD_BITS * index < last
        invariant SetOn(words, WORD_BITS * index, last)
        decreases index
      {
        index := index - 1;
        var word := data[index];
        if word != MAX_WORD {
          ghost var k := StartInWord(words, index, last);
          return (index + 1) * WORD_BITS - CountlOne(word, WORD_BITS);
        }
        SetThroughDown(words, index, last);
      }
      return 0;
    }

    /**
     Iterating from begin() to end(): the ranges visited are exactly the maximal runs of set bits,
     in increasing order and separated by clear bits.
     */
    method Ranges() returns (runs: seq<(nat, nat)>)
      requires data.Length > 0
      ensures forall r: (nat, nat) :: r in runs <==> MaximalRun(data[..], r)
      ensures forall i, j :: 0 <= i < j < |runs| ==> runs[i].1 < runs[j].0
    {
      hide Get, FirstRun, MaximalRun;
      var it := FirstRangeFrom(0);
      var end := FirstRangeFrom(WORD_BITS * data.Length);
      runs := [];
      ghost var words, at := data[..], 0;
      EndRange(words, end);
      NoRunsYet(words, it);
      while it != end
        invariant data[..] == words && at <= WORD_BITS * |words| && FirstRun(words, at, it)
        invariant Visited(words, runs, at)
        decreases WORD_BITS * |words| - at
      {
        VisitRun(words, runs, at, it);
        runs := runs + [it];
        at := it.1;
        it := FirstRangeFrom(it.1);
      }
      VisitedAll(words, runs, at);
    }
  }

  // ---------------------------------------------------------------- iterating over the runs

  lemma ClearEmpty(words: seq<Word>, lo: nat)
    ensures ClearOn(words, lo, 0)
    ensures lo >= WORD_BITS * |words| ==> ClearOn(words, lo, WORD_BITS * |words|)
    ensures lo < WORD_BITS * |words| ==> ClearOn(words, lo, WORD_BITS * (lo / WORD_BITS))
  {
  }

  lemma NothingAbove(words: seq<Word>, w: nat, hi: nat)
    requires w < |words| && hi <= WORD_BITS * (w + 1)
    ensures ClearOn(words, WORD_BITS * (w + 1), hi)
  {
  }

  lemma EndRange(words: seq<Word>, range: (nat, nat))
    requires FirstRun(words, WORD_BITS * |words|, range)
    ensures range == (WORD_BITS * |words|, WORD_BITS * |words|)
  {
  }

  /** The runs below at have been visited, in order; at does not split a run. */
  ghost predicate Visited(words: seq<Word>, runs: seq<(nat, nat)>, at: nat)
    requires at <= WORD_BITS * |words|
  {
    && (forall r: (nat, nat) :: r in runs <==> MaximalRun(words, r) && r.1 <= at)
    && (forall i, j :: 0 <= i < j < |runs| ==> runs[i].1 < runs[j].0)
    && (0 < at < WORD_BITS * |words| ==> !Get(words, at))
  }

  lemma NoRunsYet(words: seq<Word>, it: (nat, nat))
    requires FirstRun(words, 0, it)
    ensures Visited(words, [], 0)
  {
  }

  /** A maximal run that ends after at either starts at it.0 or starts later than it ends. */
  lemma VisitRun(words: seq<Word>, runs: seq<(nat, nat)>, at: nat, it: (nat, nat))
    requires at <= WORD_BITS * |words| && FirstRun(words, at, it) && Visited(words, runs, at)
    requires it != (WORD_BITS * |words|, WORD_BITS * |words|)
    ensures at < it.1 <= WORD_BITS * |words|
    ensures Visited(words, runs + [it], it.1)
  {
    hide Get;
    assert MaximalRun(words, it) by {
      if it.0 > at {
        assert !Get(words, it.0 - 1);
      } else {
        assert Get(words, it.0);
      }
    }
    forall r: (nat, nat) | MaximalRun(words, r) && r.1 <= it.1 && r.1 > at ensures r == it {
      assert Get(words, r.1 - 1);
      OverlappingRuns(words, r, it, r.1 - 1);
    }
    forall r | r in runs ensures r.1 < it.0 {
      assert MaximalRun(words, r) && r.1 <= at;
      if r.1 == at {
        assert !Get(words, r.1);
        assert Get(words, it.0);
      }
    }
  }

  lemma VisitedAll(words: seq<Word>, runs: seq<(nat, nat)>, at: nat)
    requires at <= WORD_BITS * |words| && Visited(words, runs, at)
    requires FirstRun(words, at, (WORD_BITS * |words|, WORD_BITS * |words|))
    ensures forall r: (nat, nat) :: r in runs <==> MaximalRun(words, r)
    ensures forall i, j :: 0 <= i < j < |runs| ==> runs[i].1 < runs[j].0
  {
    hide Get;
    forall r: (nat, nat) | MaximalRun(words, r) ensures r.1 <= at {
      assert Get(words, r.1 - 1);
    }
  }
}
