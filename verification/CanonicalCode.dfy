/**
 Canonical Huffman codes as section 3.2.2 of RFC 1951 defines them from a vector of code lengths,
 and plain decoding by comparing the stream with each code. This is the reference the table-driven
 decoder of stb_image is proved against; it mentions no table, no bit reversal and no shift.

 A stream is a natural number read from its least significant bit. `Prefix(w, s)` is the value of
 the first s bits of stream w, first bit most significant, which is how section 3.1.1 of RFC 1951
 packs Huffman codes.
 */
module CanonicalCode {
  import opened Words

  /** Code lengths by symbol; 0 marks an unused symbol. */
  type Lengths = seq<nat>

  const MAX_BITS: nat := 15

  /** How many bits of the stream a decoder looks at. */
  const WINDOW: nat := 16

  predicate ValidLengths(lens: Lengths)
  {
    forall i :: 0 <= i < |lens| ==> lens[i] <= MAX_BITS
  }

  /** How many of the first n symbols have code length s. */
  function Rank(lens: Lengths, s: nat, n: nat): (r: nat)
    requires n <= |lens|
    ensures r <= n
  {
    if n == 0 then 0
    else Rank(lens, s, n - 1) + (if lens[n - 1] == s then 1 else 0)
  }

  /** bl_count[s] of the RFC, for s > 0. */
  function Count(lens: Lengths, s: nat): nat
  {
    Rank(lens, s, |lens|)
  }

  /** The first code of length s: next_code[s] of the RFC. */
  function First(lens: Lengths, s: nat): nat
    decreases s, 0
  {
    if s == 0 then 0 else 2 * End(lens, s - 1)
  }

  /** One past the last code of length s. */
  function End(lens: Lengths, s: nat): nat
    decreases s, 1
  {
    if s == 0 then 0 else First(lens, s) + Count(lens, s)
  }

  /** How many symbols have a code shorter than s. */
  function FirstSymbol(lens: Lengths, s: nat): nat
  {
    if s <= 1 then 0 else FirstSymbol(lens, s - 1) + Count(lens, s - 1)
  }

  ghost predicate Used(lens: Lengths, i: nat)
  {
    i < |lens| && lens[i] > 0
  }

  /** The canonical code of symbol i, a number of lens[i] bits. */
  function Code(lens: Lengths, i: nat): nat
    requires i < |lens|
  {
    First(lens, lens[i]) + Rank(lens, lens[i], i)
  }

  function BitValue(w: nat, i: nat): nat
  {
    if Bit(w, i) then 1 else 0
  }

  function Prefix(w: nat, s: nat): nat
  {
    if s == 0 then 0 else 2 * Prefix(w, s - 1) + BitValue(w, s - 1)
  }

  /** The code of symbol i is a prefix of the stream w. */
  ghost predicate Matches(lens: Lengths, i: nat, w: nat)
  {
    Used(lens, i) && Prefix(w, lens[i]) == Code(lens, i)
  }

  /** The space taken by the codes of lengths 1 to t, in units of 2^-16. */
  ghost function Top(lens: Lengths, t: nat): nat
    requires t <= 16
  {
    Shl(End(lens, t), 16 - t)
  }

  // ---------------------------------------------------------------- prefixes of a stream

  lemma {:induction false} PrefixBound(w: nat, s: nat)
    ensures Prefix(w, s) < Pow2(s)
  {
    if s > 0 {
      PrefixBound(w, s - 1);
    }
  }

  /** Dropping the last bits of a longer prefix leaves the shorter one. */
  lemma {:induction false} PrefixShr(w: nat, s: nat, k: nat)
    ensures Shr(Prefix(w, s + k), k) == Prefix(w, s)
    decreases k
  {
    if k > 0 {
      PrefixShr(w, s, k - 1);
      assert Prefix(w, s + k) / 2 == Prefix(w, s + k - 1);
    }
  }

  lemma {:induction false} PrefixBit(w: nat, s: nat, i: nat)
    ensures Bit(Prefix(w, s), i) == (i < s && Bit(w, s - 1 - i))
  {
    if s == 0 {
      ZeroBit(i);
    } else {
      assert Prefix(w, s) / 2 == Prefix(w, s - 1);
      if i > 0 {
        PrefixBit(w, s - 1, i - 1);
      }
    }
  }

  /** A prefix depends on nothing beyond its own bits. */
  lemma {:induction false} PrefixLow(w: nat, n: nat, s: nat)
    requires s <= n
    ensures Prefix(Low(w, n), s) == Prefix(w, s)
  {
    if s > 0 {
      PrefixLow(w, n, s - 1);
      LowBit(w, n, s - 1);
    }
  }

  // ---------------------------------------------------------------- ranks and symbols

  lemma {:induction false} RankMonotone(lens: Lengths, s: nat, a: nat, b: nat)
    requires a <= b <= |lens|
    ensures Rank(lens, s, a) <= Rank(lens, s, b)
    decreases b
  {
    if a < b {
      RankMonotone(lens, s, a, b - 1);
    }
  }

  /** Different symbols of one length have different ranks, in symbol order. */
  lemma RankStrict(lens: Lengths, i: nat, j: nat)
    requires i < j < |lens| && lens[i] == lens[j]
    ensures Rank(lens, lens[i], i) < Rank(lens, lens[j], j)
  {
    RankMonotone(lens, lens[i], i + 1, j);
  }

  lemma RankBelowCount(lens: Lengths, i: nat)
    requires i < |lens|
    ensures Rank(lens, lens[i], i) < Count(lens, lens[i])
  {
    RankMonotone(lens, lens[i], i + 1, |lens|);
  }

  /** Every rank below the count belongs to a symbol. */
  lemma {:induction false} SymbolOfRank(lens: Lengths, s: nat, r: nat, n: nat) returns (m: nat)
    requires n <= |lens| && r < Rank(lens, s, n)
    ensures m < n && lens[m] == s && Rank(lens, s, m) == r
    decreases n
  {
    if lens[n - 1] == s && Rank(lens, s, n - 1) == r {
      m := n - 1;
    } else {
      m := SymbolOfRank(lens, s, r, n - 1);
    }
  }

  // ---------------------------------------------------------------- the codes tile an interval

  /** The codes of length s start where those of length s - 1 end, whatever the common scale. */
  lemma FirstIsEnd(lens: Lengths, s: nat, scale: nat)
    requires 1 <= s <= scale
    ensures Shl(First(lens, s), scale - s) == Shl(End(lens, s - 1), scale - (s - 1))
  {
    ShlDouble(End(lens, s - 1), scale - s);
  }

  lemma TopStep(lens: Lengths, s: nat)
    requires 1 <= s <= 16
    ensures Shl(First(lens, s), 16 - s) == Top(lens, s - 1) <= Top(lens, s)
  {
    FirstIsEnd(lens, s, 16);
    ShlMonotone(First(lens, s), End(lens, s), 16 - s);
  }

  lemma {:induction false} TopMonotone(lens: Lengths, a: nat, b: nat)
    requires a <= b <= 16
    ensures Top(lens, a) <= Top(lens, b)
    decreases b
  {
    if a < b {
      TopMonotone(lens, a, b - 1);
      TopStep(lens, b);
    }
  }

  /** The first s bits lie among the codes of length s just when the window lies between Top(s - 1) and Top(s). */
  lemma Band(lens: Lengths, s: nat, w: nat)
    requires 1 <= s <= MAX_BITS
    ensures First(lens, s) <= Prefix(w, s) <==> Top(lens, s - 1) <= Prefix(w, WINDOW)
    ensures Prefix(w, s) < End(lens, s) <==> Prefix(w, WINDOW) < Top(lens, s)
  {
    var k := Prefix(w, WINDOW);
    PrefixShr(w, s, WINDOW - s);
    ShrBelow(k, End(lens, s), 16 - s);
    ShrBelow(k, First(lens, s), 16 - s);
    TopStep(lens, s);
  }

  /** A matching code of length s has the 16-bit window between Top(s - 1) and Top(s). */
  lemma MatchInBand(lens: Lengths, i: nat, w: nat)
    requires ValidLengths(lens) && Matches(lens, i, w)
    ensures Top(lens, lens[i] - 1) <= Prefix(w, WINDOW) < Top(lens, lens[i])
  {
    RankBelowCount(lens, i);
    Band(lens, lens[i], w);
  }

  /** Conversely s bits among the codes of length s are the code of a symbol. */
  lemma BandMatches(lens: Lengths, s: nat, w: nat) returns (m: nat)
    requires s > 0 && First(lens, s) <= Prefix(w, s) < End(lens, s)
    ensures Matches(lens, m, w) && lens[m] == s
  {
    m := SymbolOfRank(lens, s, Prefix(w, s) - First(lens, s), |lens|);
  }

  /** No two symbols match the same stream: no code is a prefix of another. */
  lemma MatchUnique(lens: Lengths, i: nat, j: nat, w: nat)
    requires ValidLengths(lens)
    ensures Matches(lens, i, w) && Matches(lens, j, w) ==> i == j
  {
    if Matches(lens, i, w) && Matches(lens, j, w) {
      MatchInBand(lens, i, w);
      MatchInBand(lens, j, w);
      if lens[i] < lens[j] {
        TopMonotone(lens, lens[i], lens[j] - 1);
      } else if lens[j] < lens[i] {
        TopMonotone(lens, lens[j], lens[i] - 1);
      } else if i < j {
        RankStrict(lens, i, j);
      } else if j < i {
        RankStrict(lens, j, i);
      }
    }
  }

  /** Some code of length at most t matches exactly when the window is below Top(t). */
  lemma {:induction false} BelowTop(lens: Lengths, t: nat, w: nat) returns (m: nat)
    requires t <= MAX_BITS && Prefix(w, WINDOW) < Top(lens, t)
    ensures Matches(lens, m, w) && lens[m] <= t
    decreases t
  {
    if t > 0 && Prefix(w, WINDOW) < Top(lens, t - 1) {
      m := BelowTop(lens, t - 1, w);
    } else if t > 0 {
      Band(lens, t, w);
      m := BandMatches(lens, t, w);
    } else {
      ShlZero(16);
      assert false;
    }
  }

  /** A stream starts with some code exactly when its window is below the space the codes take. */
  lemma MatchIffBelowTop(lens: Lengths, w: nat)
    requires ValidLengths(lens)
    ensures (exists m: nat :: Matches(lens, m, w)) <==> Prefix(w, WINDOW) < Top(lens, MAX_BITS)
  {
    if Prefix(w, WINDOW) < Top(lens, MAX_BITS) {
      var m := BelowTop(lens, MAX_BITS, w);
    }
    forall m: nat | Matches(lens, m, w) ensures Prefix(w, WINDOW) < Top(lens, MAX_BITS) {
      MatchInBand(lens, m, w);
      TopMonotone(lens, lens[m], MAX_BITS);
    }
  }
}
