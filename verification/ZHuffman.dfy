/**
 The Huffman tables of the zlib decoder in stb_image: how they are built from code lengths, and
 why looking a code up in them is the same as plain canonical decoding.
 */
module ZHuffman {
  import opened Words
  import opened CanonicalCode
  import opened KraftSum

  const FAST_BITS: nat := 9
  const FAST_SIZE: nat := 512
  const NSYMS: nat := 288

  // ---------------------------------------------------------------- bit reversal

  /** One stage of the reversal: exchange neighbouring groups of d bits. */
  function SwapGroups(n: nat, high: nat, low: nat, d: nat): nat
  {
    Or(Shr(And(n, high), d), Shl(And(n, low), d))
  }

  function BitReverse16(n: nat): nat
  {
    var n1 := SwapGroups(n, 0xAAAA, 0x5555, 1);
    var n2 := SwapGroups(n1, 0xCCCC, 0x3333, 2);
    var n3 := SwapGroups(n2, 0xF0F0, 0x0F0F, 4);
    SwapGroups(n3, 0xFF00, 0x00FF, 8)
  }

  function BitReverse(v: nat, bits: nat): nat
    requires bits <= 16
  {
    Shr(BitReverse16(v), 16 - bits)
  }

  /** Position i falls in an odd group when positions are taken in groups of 2^e. */
  predicate OddGroup(i: nat, e: nat)
  {
    Shr(i, e) % 2 == 1
  }

  /** The k bits of n, standing at positions i, i + 1, ..., are those of the odd or even groups. */
  predicate MaskFrom(n: nat, i: nat, k: nat, e: nat, odd: bool)
    decreases k
  {
    if k == 0 then n == 0
    else if OddGroup(i, e) == odd then n % 2 == 1 && MaskFrom(n / 2, i + 1, k - 1, e, odd)
    else n % 2 == 0 && MaskFrom(n / 2, i + 1, k - 1, e, odd)
  }

  lemma {:induction false} MaskFromBit(n: nat, i: nat, k: nat, e: nat, odd: bool, at: nat)
    requires MaskFrom(n, i, k, e, odd)
    ensures Bit(n, at) == (at < k && OddGroup(i + at, e) == odd)
    decreases k
  {
    if k == 0 {
      ZeroBit(at);
    } else if at > 0 {
      MaskFromBit(n / 2, i + 1, k - 1, e, odd, at - 1);
    }
  }

  /** `high` has exactly the odd groups of 2^e bits among 16, `low` the even ones. */
  ghost predicate GroupMasks(high: nat, low: nat, e: nat)
  {
    && (forall i: nat :: Bit(high, i) == (i < 16 && OddGroup(i, e)))
    && (forall i: nat :: Bit(low, i) == (i < 16 && !OddGroup(i, e)))
  }

  lemma MasksAreGroups(high: nat, low: nat, k: nat, e: nat)
    requires k == 16 && MaskFrom(high, 0, k, e, true) && MaskFrom(low, 0, k, e, false)
    ensures GroupMasks(high, low, e)
  {
    forall i: nat
      ensures Bit(high, i) == (i < 16 && OddGroup(i, e))
      ensures Bit(low, i) == (i < 16 && !OddGroup(i, e))
    {
      MaskFromBit(high, 0, k, e, true, i);
      MaskFromBit(low, 0, k, e, false, i);
    }
  }

  lemma NoMask(i: nat, e: nat, odd: bool)
    ensures MaskFrom(0, i, 0, e, odd)
  {
  }

  /** One more bit at the low end of a mask. */
  lemma MaskBit(n: nat, i: nat, k: nat, e: nat, odd: bool)
    requires k > 0 && MaskFrom(n / 2, i + 1, k - 1, e, odd)
    requires n % 2 == if OddGroup(i, e) == odd then 1 else 0
    ensures MaskFrom(n, i, k, e, odd)
  {
  }

  lemma StageMasks0()
    ensures GroupMasks(0xAAAA, 0x5555, 0)
  {
    hide GroupMasks, MaskFrom;
    HighMask0();
    LowMask0();
    MasksAreGroups(0xAAAA, 0x5555, 16, 0);
  }

  lemma HighMask0()
    ensures MaskFrom(0xAAAA, 0, 16, 0, true)
  {
    hide MaskFrom;
    NoMask(16, 0, true);
    MaskBit(0x1, 15, 1, 0, true);
    MaskBit(0x2, 14, 2, 0, true);
    MaskBit(0x5, 13, 3, 0, true);
    MaskBit(0xA, 12, 4, 0, true);
    MaskBit(0x15, 11, 5, 0, true);
    MaskBit(0x2A, 10, 6, 0, true);
    MaskBit(0x55, 9, 7, 0, true);
    MaskBit(0xAA, 8, 8, 0, true);
    MaskBit(0x155, 7, 9, 0, true);
    MaskBit(0x2AA, 6, 10, 0, true);
    MaskBit(0x555, 5, 11, 0, true);
    MaskBit(0xAAA, 4, 12, 0, true);
    MaskBit(0x1555, 3, 13, 0, true);
    MaskBit(0x2AAA, 2, 14, 0, true);
    MaskBit(0x5555, 1, 15, 0, true);
    MaskBit(0xAAAA, 0, 16, 0, true);
  }

  lemma LowMask0()
    ensures MaskFrom(0x5555, 0, 16, 0, false)
  {
    hide MaskFrom;
    NoMask(16, 0, false);
    MaskBit(0x0, 15, 1, 0, false);
    MaskBit(0x1, 14, 2, 0, false);
    MaskBit(0x2, 13, 3, 0, false);
    MaskBit(0x5, 12, 4, 0, false);
    MaskBit(0xA, 11, 5, 0, false);
    MaskBit(0x15, 10, 6, 0, false);
    MaskBit(0x2A, 9, 7, 0, false);
    MaskBit(0x55, 8, 8, 0, false);
    MaskBit(0xAA, 7, 9, 0, false);
    MaskBit(0x155, 6, 10, 0, false);
    MaskBit(0x2AA, 5, 11, 0, false);
    MaskBit(0x555, 4, 12, 0, false);
    MaskBit(0xAAA, 3, 13, 0, false);
    MaskBit(0x1555, 2, 14, 0, false);
    MaskBit(0x2AAA, 1, 15, 0, false);
    MaskBit(0x5555, 0, 16, 0, false);
  }

  lemma StageMasks1()
    ensures GroupMasks(0xCCCC, 0x3333, 1)
  {
    hide GroupMasks, MaskFrom;
    HighMask1();
    LowMask1();
    MasksAreGroups(0xCCCC, 0x3333, 16, 1);
  }

  lemma HighMask1()
    ensures MaskFrom(0xCCCC, 0, 16, 1, true)
  {
    assert MaskFrom(0xC, 12, 4, 1, true);
    assert MaskFrom(0xCC, 8, 8, 1, true);
    assert MaskFrom(0xCCC, 4, 12, 1, true);
  }

  lemma LowMask1()
    ensures MaskFrom(0x3333, 0, 16, 1, false)
  {
    assert MaskFrom(0x3, 12, 4, 1, false);
    assert MaskFrom(0x33, 8, 8, 1, false);
    assert MaskFrom(0x333, 4, 12, 1, false);
  }

  lemma StageMasks2()
    ensures GroupMasks(0xF0F0, 0x0F0F, 2)
  {
    hide GroupMasks, MaskFrom;
    HighMask2();
    LowMask2();
    MasksAreGroups(0xF0F0, 0x0F0F, 16, 2);
  }

  lemma HighMask2()
    ensures MaskFrom(0xF0F0, 0, 16, 2, true)
  {
    assert MaskFrom(0xF, 12, 4, 2, true);
    assert MaskFrom(0xF0, 8, 8, 2, true);
    assert MaskFrom(0xF0F, 4, 12, 2, true);
  }

  lemma LowMask2()
    ensures MaskFrom(0x0F0F, 0, 16, 2, false)
  {
    assert MaskFrom(0x0, 12, 4, 2, false);
    assert MaskFrom(0x0F, 8, 8, 2, false);
    assert MaskFrom(0x0F0, 4, 12, 2, false);
  }

  lemma StageMasks3()
    ensures GroupMasks(0xFF00, 0x00FF, 3)
  {
    hide GroupMasks, MaskFrom;
    HighMask3();
    LowMask3();
    MasksAreGroups(0xFF00, 0x00FF, 16, 3);
  }

  lemma HighMask3()
    ensures MaskFrom(0xFF00, 0, 16, 3, true)
  {
    assert MaskFrom(0xF, 12, 4, 3, true);
    assert MaskFrom(0xFF, 8, 8, 3, true);
    assert MaskFrom(0xFF0, 4, 12, 3, true);
  }

  lemma LowMask3()
    ensures MaskFrom(0x00FF, 0, 16, 3, false)
  {
    assert MaskFrom(0x0, 12, 4, 3, false);
    assert MaskFrom(0x00, 8, 8, 3, false);
    assert MaskFrom(0x00F, 4, 12, 3, false);
  }

  /** The position a bit comes from when neighbouring groups of 2^e bits are exchanged. */
  function Partner(i: nat, e: nat): int
  {
    if OddGroup(i, e) then i - Pow2(e) else i + Pow2(e)
  }

  lemma {:induction false} NextGroup(i: nat, e: nat)
    ensures OddGroup(i + Pow2(e), e) == !OddGroup(i, e)
    decreases e
  {
    if e > 0 {
      NextGroup(i / 2, e - 1);
      assert (i + Pow2(e)) / 2 == i / 2 + Pow2(e - 1);
    }
  }

  /** Exchanging groups inside a word of width bits stays inside it. */
  lemma {:induction false} PartnerInside(i: nat, e: nat, width: nat)
    requires i < Pow2(width) && e < width
    ensures 0 <= Partner(i, e) < Pow2(width)
    decreases e
  {
    if e > 0 {
      PartnerInside(i / 2, e - 1, width - 1);
    }
  }

  /** The position opposite to i inside its aligned group of 2^e positions. */
  function Mirror(i: nat, e: nat): int
  {
    i + Pow2(e) - 1 - 2 * Low(i, e)
  }

  lemma {:induction false} LowStep(i: nat, e: nat)
    ensures Low(i, e + 1) == Low(i, e) + (if OddGroup(i, e) then Pow2(e) else 0)
    decreases e
  {
    if e > 0 {
      LowStep(i / 2, e - 1);
    }
  }

  /** Mirroring groups of 2^e and exchanging neighbours mirrors groups of 2^(e + 1). */
  lemma MirrorStep(i: nat, e: nat)
    requires Partner(i, e) >= 0
    ensures Mirror(Partner(i, e), e) == Mirror(i, e + 1)
  {
    LowStep(i, e);
    LowPeriodic(i, e);
    if OddGroup(i, e) {
      LowPeriodic(i - Pow2(e), e);
    }
  }

  lemma SwapGroupsBit(n: nat, high: nat, low: nat, d: nat, i: nat)
    ensures Bit(SwapGroups(n, high, low, d), i) ==
      ((Bit(n, i + d) && Bit(high, i + d)) || (i >= d && Bit(n, i - d) && Bit(low, i - d)))
  {
    OrBit(Shr(And(n, high), d), Shl(And(n, low), d), i);
    ShrBit(And(n, high), d, i);
    AndBit(n, high, i + d);
    ShlBit(And(n, low), d, i);
    if i >= d {
      AndBit(n, low, i - d);
    }
  }

  lemma SwapBit(n: nat, high: nat, low: nat, d: nat, e: nat, i: nat)
    requires d == Pow2(e) && i < 16 && GroupMasks(high, low, e) && 0 <= Partner(i, e) < 16
    ensures Bit(SwapGroups(n, high, low, d), i) == Bit(n, Partner(i, e))
  {
    SwapGroupsBit(n, high, low, d, i);
    NextGroup(i, e);
    if i >= d {
      NextGroup(i - d, e);
    }
  }

  /** Bit i of m is the bit of n opposite to i in its group of 2^e, for all 16 positions. */
  ghost predicate Mirrored(n: nat, m: nat, e: nat)
  {
    forall i: nat :: i < 16 ==> Mirror(i, e) >= 0 && Bit(m, i) == Bit(n, Mirror(i, e))
  }

  lemma StageMirrors(n: nat, m: nat, high: nat, low: nat, d: nat, e: nat, width: nat)
    requires d == Pow2(e) && e < width && Pow2(width) == 16
    requires GroupMasks(high, low, e) && Mirrored(n, m, e)
    ensures Mirrored(n, SwapGroups(m, high, low, d), e + 1)
  {
    forall i: nat | i < 16
      ensures Mirror(i, e + 1) >= 0
      ensures Bit(SwapGroups(m, high, low, d), i) == Bit(n, Mirror(i, e + 1))
    {
      PartnerInside(i, e, width);
      SwapBit(m, high, low, d, e, i);
      MirrorStep(i, e);
    }
  }

  /** The 16 low bits come out in reverse order. */
  lemma BitReverse16Mirrors(n: nat)
    ensures Mirrored(n, BitReverse16(n), 4)
  {
    assert Pow2(0) == 1 && Pow2(1) == 2 && Pow2(2) == 4 && Pow2(3) == 8 && Pow2(4) == 16;
    var n1 := SwapGroups(n, 0xAAAA, 0x5555, 1);
    var n2 := SwapGroups(n1, 0xCCCC, 0x3333, 2);
    var n3 := SwapGroups(n2, 0xF0F0, 0x0F0F, 4);
    StageMasks0();
    StageMirrors(n, n, 0xAAAA, 0x5555, 1, 0, 4);
    StageMasks1();
    StageMirrors(n, n1, 0xCCCC, 0x3333, 2, 1, 4);
    StageMasks2();
    StageMirrors(n, n2, 0xF0F0, 0x0F0F, 4, 2, 4);
    StageMasks3();
    StageMirrors(n, n3, 0xFF00, 0x00FF, 8, 3, 4);
  }

  lemma NothingAbove(n: nat, i: nat)
    requires i >= 16
    ensures !Bit(BitReverse16(n), i)
  {
    var n1 := SwapGroups(n, 0xAAAA, 0x5555, 1);
    var n2 := SwapGroups(n1, 0xCCCC, 0x3333, 2);
    var n3 := SwapGroups(n2, 0xF0F0, 0x0F0F, 4);
    StageMasks3();
    SwapGroupsBit(n3, 0xFF00, 0x00FF, 8, i);
    NextGroup(i - 8, 3);
    assert Pow2(3) == 8;
    assert i < 24 ==> OddGroup(i - 8, 3) by {
      SmallGroup(i - 16);
      NextGroup(i - 16, 3);
    }
  }

  lemma SmallGroup(i: nat)
    ensures i < 8 ==> !OddGroup(i, 3)
  {
    assert Shr(i, 3) == i / 2 / 2 / 2;
  }

  lemma BitReverse16Bit(n: nat, i: nat)
    ensures Bit(BitReverse16(n), i) == (i < 16 && Bit(n, 15 - i))
  {
    if i >= 16 {
      NothingAbove(n, i);
    } else {
      BitReverse16Mirrors(n);
      assert Pow2(4) == 16;
      LowIdentity(i, 4);
      assert Mirror(i, 4) == 15 - i;
    }
  }

  /** Reversing the low bits of v reads them as the first bits of a stream. */
  lemma BitReverseIsPrefix(v: nat, bits: nat)
    requires bits <= 16
    ensures BitReverse(v, bits) == Prefix(v, bits)
  {
    forall i: nat ensures Bit(BitReverse(v, bits), i) == Bit(Prefix(v, bits), i) {
      ShrBit(BitReverse16(v), 16 - bits, i);
      BitReverse16Bit(v, i + 16 - bits);
      PrefixBit(v, bits, i);
    }
    SameBits(BitReverse(v, bits), Prefix(v, bits));
  }

  /** Reversing twice gives the low bits back. */
  lemma PrefixTwice(w: nat, s: nat)
    ensures Prefix(Prefix(w, s), s) == Low(w, s)
  {
    forall i: nat ensures Bit(Prefix(Prefix(w, s), s), i) == Bit(Low(w, s), i) {
      PrefixBit(Prefix(w, s), s, i);
      LowBit(w, s, i);
      if i < s {
        PrefixBit(w, s, s - 1 - i);
      }
    }
    SameBits(Prefix(Prefix(w, s), s), Low(w, s));
  }

  /** The low s bits of j are the reversed code exactly when j as a stream starts with the code. */
  lemma ReversedIndex(code: nat, s: nat, j: nat)
    requires s <= 16 && code < Pow2(s)
    ensures Low(j, s) == BitReverse(code, s) <==> Prefix(j, s) == code
  {
    BitReverseIsPrefix(code, s);
    PrefixLow(j, s, s);
    PrefixTwice(code, s);
    PrefixTwice(j, s);
    LowIdentity(code, s);
  }

  // ---------------------------------------------------------------- what the tables hold

  /** Where symbol i sits in the symbol-by-code order of `size` and `value`. */
  ghost function Slot(lens: Lengths, i: nat): nat
    requires i < |lens|
  {
    FirstSymbol(lens, lens[i]) + Rank(lens, lens[i], i)
  }

  ghost predicate IsShort(lens: Lengths, i: nat, j: nat)
  {
    Matches(lens, i, j) && lens[i] <= FAST_BITS
  }

  /** The entry of the fast table at j once the first n symbols have been entered. */
  ghost function FastEntry(lens: Lengths, n: nat, j: nat): nat
    requires n <= |lens|
  {
    if n == 0 then 0
    else if IsShort(lens, n - 1, j) then lens[n - 1] * 512 + (n - 1)
    else FastEntry(lens, n - 1, j)
  }

  ghost predicate CodeTables(firstcode: seq<nat>, maxcode: seq<nat>, firstsymbol: seq<nat>,
                             lens: Lengths, n: nat)
    requires n <= 16
  {
    && |firstcode| == 16 && |maxcode| == 17 && |firstsymbol| == 16
    && (forall s :: 1 <= s < n ==> firstcode[s] == First(lens, s))
    && (forall s :: 1 <= s < n ==> maxcode[s] == Top(lens, s))
    && (forall s :: 1 <= s < n ==> firstsymbol[s] == FirstSymbol(lens, s))
  }

  ghost predicate SymbolTables(size: seq<nat>, value: seq<nat>, lens: Lengths, n: nat)
    requires n <= |lens|
  {
    && |size| == NSYMS && |value| == NSYMS
    && (forall i: nat :: i < n && Used(lens, i) ==>
          Slot(lens, i) < NSYMS && size[Slot(lens, i)] == lens[i] && value[Slot(lens, i)] == i)
  }

  ghost predicate FastTable(fast: seq<nat>, lens: Lengths, n: nat)
    requires n <= |lens|
  {
    |fast| == FAST_SIZE && forall j: nat :: j < FAST_SIZE ==> fast[j] == FastEntry(lens, n, j)
  }

  /** The tables of an accepted vector of code lengths. */
  ghost predicate Represents(fast: seq<nat>, firstcode: seq<nat>, maxcode: seq<nat>,
                             firstsymbol: seq<nat>, size: seq<nat>, value: seq<nat>,
                             lens: Lengths)
  {
    && ValidLengths(lens) && |lens| <= NSYMS && Kraft(lens) <= Pow2(MAX_BITS)
    && CodeTables(firstcode, maxcode, firstsymbol, lens, 16) && maxcode[16] == 0x10000
    && SymbolTables(size, value, lens, |lens|)
    && FastTable(fast, lens, |lens|)
  }

  // ---------------------------------------------------------------- slots

  lemma {:induction false} FirstSymbolMonotone(lens: Lengths, s: nat, t: nat)
    requires 1 <= s < t
    ensures FirstSymbol(lens, s) + Count(lens, s) <= FirstSymbol(lens, t)
    decreases t
  {
    if s < t - 1 {
      FirstSymbolMonotone(lens, s, t - 1);
    }
  }

  lemma SlotInjective(lens: Lengths, i: nat, j: nat)
    requires Used(lens, i) && Used(lens, j) && i != j
    ensures Slot(lens, i) != Slot(lens, j)
  {
    RankBelowCount(lens, i);
    RankBelowCount(lens, j);
    if lens[i] < lens[j] {
      FirstSymbolMonotone(lens, lens[i], lens[j]);
    } else if lens[j] < lens[i] {
      FirstSymbolMonotone(lens, lens[j], lens[i]);
    } else if i < j {
      RankStrict(lens, i, j);
    } else {
      RankStrict(lens, j, i);
    }
  }

  /** Symbols among the first n with a code of length in [1, s). */
  ghost function Shorter(lens: Lengths, s: nat, n: nat): (r: nat)
    requires n <= |lens|
    ensures r <= n
  {
    if n == 0 then 0
    else Shorter(lens, s, n - 1) + (if 0 < lens[n - 1] < s then 1 else 0)
  }

  lemma {:induction false} ShorterStep(lens: Lengths, s: nat, n: nat)
    requires n <= |lens| && s >= 1
    ensures Shorter(lens, s + 1, n) == Shorter(lens, s, n) + Rank(lens, s, n)
    ensures Shorter(lens, 1, n) == 0
  {
    if n > 0 {
      ShorterStep(lens, s, n - 1);
    }
  }

  lemma {:induction false} FirstSymbolIsShorter(lens: Lengths, s: nat)
    requires s >= 1
    ensures FirstSymbol(lens, s) == Shorter(lens, s, |lens|)
    ensures FirstSymbol(lens, s) + Count(lens, s) <= |lens|
  {
    ShorterStep(lens, s, |lens|);
    if s > 1 {
      FirstSymbolIsShorter(lens, s - 1);
      ShorterStep(lens, s - 1, |lens|);
    }
  }

  lemma SlotBound(lens: Lengths, i: nat)
    requires Used(lens, i)
    ensures Slot(lens, i) < |lens|
  {
    RankBelowCount(lens, i);
    FirstSymbolIsShorter(lens, lens[i]);
  }

  // ---------------------------------------------------------------- the fast table

  /** A nonzero entry names a short code that starts the index; a zero entry says there is none. */
  lemma {:induction false} FastEntryMeaning(lens: Lengths, n: nat, j: nat)
    requires n <= |lens| <= NSYMS && ValidLengths(lens)
    ensures var e := FastEntry(lens, n, j);
      if e == 0 then forall i: nat :: i < n ==> !IsShort(lens, i, j)
      else IsShort(lens, e % 512, j) && lens[e % 512] == e / 512
  {
    if n > 0 && !IsShort(lens, n - 1, j) {
      FastEntryMeaning(lens, n - 1, j);
    }
  }

  /** Looking at 9 bits of the stream is enough to recognise a short code. */
  lemma ShortInWindow(lens: Lengths, i: nat, w: nat)
    ensures IsShort(lens, i, Low(w, FAST_BITS)) == IsShort(lens, i, w)
  {
    if Used(lens, i) && lens[i] <= FAST_BITS {
      PrefixLow(w, FAST_BITS, lens[i]);
    }
  }

  /** The fast lookup returns the matching symbol and its length, or 0 when no short code matches. */
  lemma FastLookup(fast: seq<nat>, lens: Lengths, w: nat)
    requires ValidLengths(lens) && |lens| <= NSYMS && FastTable(fast, lens, |lens|)
    ensures Low(w, FAST_BITS) < FAST_SIZE
    ensures var e := fast[Low(w, FAST_BITS)];
      if e == 0 then forall i: nat :: Matches(lens, i, w) ==> lens[i] > FAST_BITS
      else Matches(lens, e % 512, w) && lens[e % 512] == e / 512
  {
    KnownPowers();
    var j := Low(w, FAST_BITS);
    FastEntryMeaning(lens, |lens|, j);
    var e := fast[j];
    if e == 0 {
      forall i: nat | Matches(lens, i, w) ensures lens[i] > FAST_BITS {
        ShortInWindow(lens, i, w);
      }
    } else {
      ShortInWindow(lens, e % 512, w);
    }
  }

  /**
   The slow lookup: with no short match, if s is the first length above 9 whose preshifted end is
   above the reversed window, the slot computed from it holds the one symbol that matches.
   */
  lemma SlowLookup(firstcode: seq<nat>, maxcode: seq<nat>, firstsymbol: seq<nat>,
                   size: seq<nat>, value: seq<nat>, lens: Lengths, w: nat, s: nat)
    returns (m: nat)
    requires ValidLengths(lens)
    requires CodeTables(firstcode, maxcode, firstsymbol, lens, 16)
    requires SymbolTables(size, value, lens, |lens|)
    requires forall i: nat :: Matches(lens, i, w) ==> lens[i] > FAST_BITS
    requires FAST_BITS < s <= MAX_BITS && Prefix(w, WINDOW) < maxcode[s]
    requires forall t :: FAST_BITS < t < s ==> maxcode[t] <= Prefix(w, WINDOW)
    ensures Matches(lens, m, w) && lens[m] == s
    ensures firstcode[s] <= Shr(Prefix(w, WINDOW), 16 - s)
    ensures var b := Shr(Prefix(w, WINDOW), 16 - s) - firstcode[s] + firstsymbol[s];
      b < NSYMS && size[b] == s && value[b] == m
  {
    if Prefix(w, WINDOW) < Top(lens, s - 1) {
      if s - 1 == FAST_BITS {
        var short := BelowTop(lens, FAST_BITS, w);
      }
      assert false;
    }
    Band(lens, s, w);
    m := BandMatches(lens, s, w);
    PrefixShr(w, s, WINDOW - s);
    assert Slot(lens, m) == Shr(Prefix(w, WINDOW), 16 - s) - firstcode[s] + firstsymbol[s];
  }

  /** If no preshifted end above 9 is above the window, nothing matches at all. */
  lemma SlowMiss(maxcode: seq<nat>, lens: Lengths, w: nat)
    requires ValidLengths(lens) && |maxcode| == 17 && maxcode[MAX_BITS] == Top(lens, MAX_BITS)
    requires maxcode[MAX_BITS] <= Prefix(w, WINDOW)
    ensures forall i: nat :: !Matches(lens, i, w)
  {
    MatchIffBelowTop(lens, w);
  }

  // ---------------------------------------------------------------- building the tables

  /** A fast entry packs a length and a symbol without overlap, and nothing is truncated. */
  lemma PackedEntry(s: nat, i: nat)
    requires s <= MAX_BITS && i < NSYMS
    ensures Or(Shl(s, 9), i) % 0x10000 == s * 512 + i
    ensures s % 0x100 == s && i % 0x10000 == i
  {
    KnownPowers();
    OrShifted(i, s, 9);
    OrCommutes(Shl(s, 9), i);
    ShlIsMul(s, 9);
    SmallMod(s * 512 + i, 0x10000);
    SmallMod(s, 0x100);
    SmallMod(i, 0x10000);
  }

  /** Entering symbol i at its own slot keeps the slots of the earlier symbols. */
  lemma SymbolEntered(size: seq<nat>, value: seq<nat>, size': seq<nat>, value': seq<nat>,
                      lens: Lengths, i: nat)
    requires |lens| <= NSYMS && Used(lens, i) && SymbolTables(size, value, lens, i)
    requires Slot(lens, i) < NSYMS
    requires size' == size[Slot(lens, i) := lens[i]] && value' == value[Slot(lens, i) := i]
    ensures SymbolTables(size', value', lens, i + 1)
  {
    forall m: nat | m < i + 1 && Used(lens, m)
      ensures Slot(lens, m) < NSYMS && size'[Slot(lens, m)] == lens[m]
              && value'[Slot(lens, m)] == m
    {
      if m < i {
        SlotInjective(lens, m, i);
      }
    }
  }

  /** Overwriting the indices whose low bits are the reversed code enters symbol i. */
  lemma FastEntered(fast: seq<nat>, fast': seq<nat>, lens: Lengths, i: nat)
    requires Used(lens, i) && FastTable(fast, lens, i) && |fast'| == FAST_SIZE
    requires lens[i] <= MAX_BITS && Code(lens, i) < Pow2(lens[i])
    requires lens[i] > FAST_BITS ==> fast' == fast
    requires lens[i] <= FAST_BITS ==> forall j: nat :: j < FAST_SIZE ==>
               fast'[j] == if Low(j, lens[i]) == BitReverse(Code(lens, i), lens[i])
                           then lens[i] * 512 + i else fast[j]
    ensures FastTable(fast', lens, i + 1)
  {
    forall j: nat | j < FAST_SIZE ensures fast'[j] == FastEntry(lens, i + 1, j) {
      ReversedIndex(Code(lens, i), lens[i], j);
    }
  }

  lemma UnusedSkipped(fast: seq<nat>, size: seq<nat>, value: seq<nat>, lens: Lengths, i: nat)
    requires i < |lens| && lens[i] == 0
    requires SymbolTables(size, value, lens, i) && FastTable(fast, lens, i)
    ensures SymbolTables(size, value, lens, i + 1) && FastTable(fast, lens, i + 1)
  {
    forall m: nat | m < i + 1 && Used(lens, m)
      ensures Slot(lens, m) < NSYMS && size[Slot(lens, m)] == lens[m]
              && value[Slot(lens, m)] == m
    {
      assert m < i;
    }
  }

  lemma CodeTablesStep(fc: seq<nat>, mc: seq<nat>, fs: seq<nat>, lens: Lengths, i: nat)
    requires 1 <= i <= MAX_BITS && CodeTables(fc, mc, fs, lens, i)
    ensures CodeTables(fc[i := First(lens, i)], mc[i := Top(lens, i)],
                       fs[i := FirstSymbol(lens, i)], lens, i + 1)
  {
  }

  /** The next code of each length once the codes of the first n symbols are given out. */
  ghost predicate NextCodes(next: seq<nat>, lens: Lengths, n: nat)
    requires n <= |lens|
  {
    |next| == 16 && forall s :: 1 <= s < 16 ==> next[s] == First(lens, s) + Rank(lens, s, n)
  }

  lemma NextCodesStep(next: seq<nat>, lens: Lengths, i: nat)
    requires i < |lens| && lens[i] <= MAX_BITS && NextCodes(next, lens, i)
    ensures lens[i] == 0 ==> NextCodes(next, lens, i + 1)
    ensures lens[i] > 0 ==> next[lens[i]] == Code(lens, i)
                            && NextCodes(next[lens[i] := next[lens[i]] + 1], lens, i + 1)
  {
  }

  /** First codes and first symbols survive their truncation to 16 bits. */
  lemma FirstFits(lens: Lengths, i: nat)
    requires 1 <= i <= MAX_BITS && |lens| <= NSYMS && End(lens, i - 1) <= Pow2(i - 1)
    ensures First(lens, i) % 0x10000 == First(lens, i) <= Pow2(i)
    ensures FirstSymbol(lens, i) % 0x10000 == FirstSymbol(lens, i)
  {
    Pow2Monotone(i, MAX_BITS);
    KnownPowers();
    FirstSymbolIsShorter(lens, i);
    SmallMod(First(lens, i), 0x10000);
    SmallMod(FirstSymbol(lens, i), 0x10000);
  }

  /** Where the codes of length 1 start, and those of each length after another. */
  lemma FirstLength(lens: Lengths)
    ensures First(lens, 1) == 0 && FirstSymbol(lens, 1) == 0 && End(lens, 0) <= Pow2(0)
  {
  }

  lemma NextLength(lens: Lengths, s: nat)
    requires s >= 1
    ensures First(lens, s + 1) == 2 * (First(lens, s) + Count(lens, s))
    ensures FirstSymbol(lens, s + 1) == FirstSymbol(lens, s) + Count(lens, s)
  {
  }

  lemma KraftEnd(lens: Lengths)
    ensures Kraft(lens) == End(lens, MAX_BITS)
  {
    KraftIsEnd(lens, MAX_BITS);
  }

  lemma NothingRanked(next: seq<nat>, lens: Lengths)
    requires |next| == 16 && forall s :: 1 <= s < 16 ==> next[s] == First(lens, s)
    ensures NextCodes(next, lens, 0)
  {
  }

  lemma NothingFast(fast: seq<nat>, lens: Lengths)
    requires |fast| == FAST_SIZE && forall j: nat :: j < FAST_SIZE ==> fast[j] == 0
    ensures FastTable(fast, lens, 0)
  {
  }

  /** What the tables say about the length of symbol i. */
  lemma FillFacts(next: seq<nat>, firstcode: seq<nat>, maxcode: seq<nat>, firstsymbol: seq<nat>,
                  lens: Lengths, i: nat)
    requires ValidLengths(lens) && i < |lens| && NextCodes(next, lens, i)
    requires CodeTables(firstcode, maxcode, firstsymbol, lens, 16)
    ensures |next| == |firstcode| == |firstsymbol| == 16 && lens[i] <= MAX_BITS
    ensures lens[i] > 0 ==>
      Used(lens, i) && firstcode[lens[i]] == First(lens, lens[i])
      && firstsymbol[lens[i]] == FirstSymbol(lens, lens[i])
  {
  }

  class Tables {
    const fast: array<nat>
    const firstcode: array<nat>
    const maxcode: array<nat>
    const firstsymbol: array<nat>
    const size: array<nat>
    const value: array<nat>

    ghost predicate Shape()
    {
      && fast.Length == FAST_SIZE && firstcode.Length == 16 && maxcode.Length == 17
      && firstsymbol.Length == 16 && size.Length == NSYMS && value.Length == NSYMS
      && fast != firstcode && fast != maxcode && fast != firstsymbol && fast != size
      && fast != value && firstcode != maxcode && firstcode != firstsymbol && firstcode != size
      && firstcode != value && maxcode != firstsymbol && maxcode != size && maxcode != value
      && firstsymbol != size && firstsymbol != value && size != value
    }

    ghost function Arrays(): set<object>
    {
      {fast, firstcode, maxcode, firstsymbol, size, value}
    }

    ghost predicate Holds(lens: Lengths)
      reads Arrays()
    {
      Represents(fast[..], firstcode[..], maxcode[..], firstsymbol[..], size[..], value[..], lens)
    }

    constructor ()
      ensures Shape() && fresh(Arrays())
    {
      fast := new nat[FAST_SIZE];
      firstcode := new nat[16];
      maxcode := new nat[17];
      firstsymbol := new nat[16];
      size := new nat[NSYMS];
      value := new nat[NSYMS];
    }

    /**
     Builds the tables, or reports lengths that no prefix code can have. The caller supplies at
     most 288 lengths of at most 15 bits.
     */
    method Build(lens: Lengths) returns (ok: bool)
      requires Shape() && ValidLengths(lens) && |lens| <= NSYMS
      modifies Arrays()
      ensures ok <==> Kraft(lens) <= Pow2(MAX_BITS)
      ensures ok ==> Holds(lens)
    {
      hide Kraft, KraftUpTo, Pow2, Rank, Top, First, End, FirstSymbol, NextCodes, SymbolTables;
      var sizes := CountSizes(lens);
      forall j | 0 <= j < fast.Length { fast[j] := 0; }
      ok := SizesFit(sizes, lens);
      if !ok { return; }
      var nextCode: array<nat>;
      ok, nextCode := AssignCodes(sizes, lens);
      if !ok { return; }
      maxcode[16] := 0x10000;
      NothingFast(fast[..], lens);
      FillTables(lens, nextCode);
    }

    /** sizes[s] is the number of symbols of length s, and sizes[0] is 0. */
    method CountSizes(lens: Lengths) returns (sizes: array<nat>)
      requires ValidLengths(lens)
      ensures fresh(sizes) && sizes.Length == 17
      ensures sizes[0] == 0 && forall s :: 1 <= s <= 16 ==> sizes[s] == Count(lens, s)
    {
      sizes := new nat[17](_ => 0);
      for i := 0 to |lens|
        invariant forall s :: 0 <= s < 17 ==> sizes[s] == Rank(lens, s, i)
      {
        sizes[lens[i]] := sizes[lens[i]] + 1;
      }
      sizes[0] := 0;
    }

    method SizesFit(sizes: array<nat>, lens: Lengths) returns (ok: bool)
      requires sizes.Length == 17 && forall s :: 1 <= s <= 16 ==> sizes[s] == Count(lens, s)
      ensures !ok ==> Kraft(lens) > Pow2(MAX_BITS)
    {
      for i := 1 to 16 {
        if sizes[i] > Pow2(i) {
          OverflowStays(lens, i);
          return false;
        }
      }
      return true;
    }

    method AssignCodes(sizes: array<nat>, lens: Lengths) returns (ok: bool, nextCode: array<nat>)
      requires Shape() && |lens| <= NSYMS
      requires sizes !in Arrays() && sizes.Length == 17
      requires forall s :: 1 <= s <= 16 ==> sizes[s] == Count(lens, s)
      modifies firstcode, maxcode, firstsymbol
      ensures fresh(nextCode)
      ensures ok <==> Kraft(lens) <= Pow2(MAX_BITS)
      ensures ok ==> CodeTables(firstcode[..], maxcode[..], firstsymbol[..], lens, 16)
      ensures ok ==> NextCodes(nextCode[..], lens, 0)
    {
      hide Kraft, KraftUpTo, Pow2, Rank, Top, First, End, FirstSymbol;
      nextCode := new nat[16];
      var code, k := 0, 0;
      FirstLength(lens);
      for i := 1 to 16
        invariant code == First(lens, i) && k == FirstSymbol(lens, i)
        invariant End(lens, i - 1) <= Pow2(i - 1)
        invariant CodeTables(firstcode[..], maxcode[..], firstsymbol[..], lens, i)
        invariant forall s :: 1 <= s < i ==> nextCode[s] == First(lens, s)
      {
        nextCode[i] := code;
        NextLength(lens, i);
        ok := AssignLength(lens, i, code, k, sizes[i]);
        if !ok {
          return false, nextCode;
        }
        code := 2 * (code + sizes[i]);
        k := k + sizes[i];
      }
      KraftEnd(lens);
      NothingRanked(nextCode[..], lens);
      return true, nextCode;
    }

    /** Enters the codes of length i, or finds that they do not fit in i bits. */
    method AssignLength(lens: Lengths, i: nat, code: nat, k: nat, count: nat) returns (ok: bool)
      requires Shape() && |lens| <= NSYMS && 1 <= i <= MAX_BITS
      requires code == First(lens, i) && k == FirstSymbol(lens, i) && count == Count(lens, i)
      requires End(lens, i - 1) <= Pow2(i - 1)
      requires CodeTables(firstcode[..], maxcode[..], firstsymbol[..], lens, i)
      modifies firstcode, maxcode, firstsymbol
      ensures ok ==> End(lens, i) <= Pow2(i)
      ensures ok ==> CodeTables(firstcode[..], maxcode[..], firstsymbol[..], lens, i + 1)
      ensures !ok ==> Kraft(lens) > Pow2(MAX_BITS)
    {
      ghost var fc, mc, fs := firstcode[..], maxcode[..], firstsymbol[..];
      FirstFits(lens, i);
      var code16, k16 := code % 0x10000, k % 0x10000;
      assert code16 == First(lens, i) && k16 == FirstSymbol(lens, i);
      firstcode[i] := code16;
      firstsymbol[i] := k16;
      var end := code + count;
      if count != 0 {
        if end - 1 >= Pow2(i) {
          OverflowStays(lens, i);
          return false;
        }
      }
      maxcode[i] := Shl(end, 16 - i);
      assert firstcode[..] == fc[i := First(lens, i)];
      assert firstsymbol[..] == fs[i := FirstSymbol(lens, i)];
      assert maxcode[..] == mc[i := Top(lens, i)];
      CodeTablesStep(fc, mc, fs, lens, i);
      return true;
    }

    method FillTables(lens: Lengths, nextCode: array<nat>)
      requires Shape() && ValidLengths(lens) && |lens| <= NSYMS
      requires Kraft(lens) <= Pow2(MAX_BITS)
      requires nextCode !in Arrays() && NextCodes(nextCode[..], lens, 0)
      requires CodeTables(firstcode[..], maxcode[..], firstsymbol[..], lens, 16)
      requires FastTable(fast[..], lens, 0)
      modifies nextCode, fast, size, value
      ensures SymbolTables(size[..], value[..], lens, |lens|)
      ensures FastTable(fast[..], lens, |lens|)
    {
      for i := 0 to |lens|
        invariant NextCodes(nextCode[..], lens, i)
        invariant CodeTables(firstcode[..], maxcode[..], firstsymbol[..], lens, 16)
        invariant SymbolTables(size[..], value[..], lens, i)
        invariant FastTable(fast[..], lens, i)
      {
        hide NextCodes, CodeTables, SymbolTables, FastTable, Kraft, Pow2;
        FillOne(lens, i, nextCode);
      }
    }

    /** Gives symbol i the next code of its length, if it has one. */
    method FillOne(lens: Lengths, i: nat, nextCode: array<nat>)
      requires Shape() && ValidLengths(lens) && i < |lens| <= NSYMS
      requires Kraft(lens) <= Pow2(MAX_BITS)
      requires nextCode !in Arrays() && NextCodes(nextCode[..], lens, i)
      requires CodeTables(firstcode[..], maxcode[..], firstsymbol[..], lens, 16)
      requires SymbolTables(size[..], value[..], lens, i) && FastTable(fast[..], lens, i)
      modifies nextCode, fast, size, value
      ensures NextCodes(nextCode[..], lens, i + 1)
      ensures SymbolTables(size[..], value[..], lens, i + 1) && FastTable(fast[..], lens, i + 1)
    {
      var s := lens[i];
      ghost var before := nextCode[..];
      hide *;
      FillFacts(before, firstcode[..], maxcode[..], firstsymbol[..], lens, i);
      NextCodesStep(before, lens, i);
      if s != 0 {
        EnterSymbol(lens, i, nextCode[s]);
        nextCode[s] := nextCode[s] + 1;
        assert nextCode[..] == before[s := before[s] + 1];
      } else {
        UnusedSkipped(fast[..], size[..], value[..], lens, i);
      }
    }

    /** Enters symbol i, whose code is `code`, into `size`, `value` and the fast table. */
    method EnterSymbol(lens: Lengths, i: nat, code: nat)
      requires Shape() && ValidLengths(lens) && |lens| <= NSYMS && Used(lens, i)
      requires Kraft(lens) <= Pow2(MAX_BITS) && code == Code(lens, i)
      requires firstcode[lens[i]] == First(lens, lens[i])
      requires firstsymbol[lens[i]] == FirstSymbol(lens, lens[i])
      requires SymbolTables(size[..], value[..], lens, i) && FastTable(fast[..], lens, i)
      modifies fast, size, value
      ensures SymbolTables(size[..], value[..], lens, i + 1)
      ensures FastTable(fast[..], lens, i + 1)
    {
      var s := lens[i];
      var c := code - firstcode[s] + firstsymbol[s];
      SlotBound(lens, i);
      PackedEntry(s, i);
      var fastv, s8, i16 := Or(Shl(s, 9), i) % 0x10000, s % 0x100, i % 0x10000;
      assert c == Slot(lens, i) && fastv == s * 512 + i && s8 == s && i16 == i;
      size[c] := s8;
      value[c] := i16;
      assert size[..] == old(size[..])[c := s];
      assert value[..] == old(value[..])[c := i];
      SymbolEntered(old(size[..]), old(value[..]), size[..], value[..], lens, i);
      CodeFits(lens, i);
      if s <= FAST_BITS {
        BitReverseIsPrefix(code, s);
        PrefixBound(code, s);
        EnterFast(BitReverse(code, s), s, fastv);
      }
      ghost var was, now := old(fast[..]), fast[..];
      assert s > FAST_BITS ==> now == was;
      assert s <= FAST_BITS ==> forall j: nat :: j < FAST_SIZE ==>
               now[j] == if Low(j, s) == BitReverse(code, s) then fastv else was[j];
      FastEntered(was, now, lens, i);
    }

    /** Writes v at every index whose low s bits are j0. */
    method EnterFast(j0: nat, s: nat, v: nat)
      requires fast.Length == FAST_SIZE && s <= FAST_BITS && j0 < Pow2(s)
      modifies fast
      ensures forall j: nat :: j < FAST_SIZE ==>
                fast[j] == if Low(j, s) == j0 then v else old(fast[j])
    {
      var j := j0;
      var p := Pow2(s);
      forall x: nat | x <= j0 ensures Low(x, s) == x {
        LowIdentity(x, s);
      }
      while j < FAST_SIZE
        invariant Low(j, s) == j0
        invariant forall x: nat :: x < j && x < FAST_SIZE ==>
                    fast[x] == if Low(x, s) == j0 then v else old(fast[x])
        invariant forall x: nat :: j <= x < FAST_SIZE ==> fast[x] == old(fast[x])
      {
        fast[j] := v;
        forall x: nat | j < x < j + p ensures Low(x, s) != j0 {
          if Low(x, s) == j0 {
            LowApart(j, x, s);
          }
        }
        LowPeriodic(j, s);
        j := j + p;
      }
    }
  }
}
