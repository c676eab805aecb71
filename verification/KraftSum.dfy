/**
 The space canonical codes take: their Kraft sum, and the codes as intervals that tile it.
 */
module KraftSum {
  import opened Words
  import opened CanonicalCode

  /** The Kraft sum of the first n symbols with lengths at most t, in units of 2^-t. */
  ghost function KraftUpTo(lens: Lengths, t: nat, n: nat): nat
    requires n <= |lens|
  {
    if n == 0 then 0
    else KraftUpTo(lens, t, n - 1)
         + (if 0 < lens[n - 1] <= t then Pow2(t - lens[n - 1]) else 0)
  }

  /** The sum over all used symbols of 2^-length, in units of 2^-15. */
  ghost function Kraft(lens: Lengths): nat
  {
    KraftUpTo(lens, MAX_BITS, |lens|)
  }

  lemma {:induction false} KraftDouble(lens: Lengths, t: nat, n: nat)
    requires n <= |lens|
    ensures KraftUpTo(lens, t + 1, n) == 2 * KraftUpTo(lens, t, n) + Rank(lens, t + 1, n)
  {
    if n > 0 {
      KraftDouble(lens, t, n - 1);
      var s := lens[n - 1];
      if 0 < s <= t {
        assert Pow2(t + 1 - s) == 2 * Pow2(t - s);
      } else if s == t + 1 {
        assert Pow2(0) == 1;
      }
    }
  }

  /** The end of the codes of length t is the Kraft sum of the lengths up to t. */
  lemma {:induction false} KraftIsEnd(lens: Lengths, t: nat)
    ensures KraftUpTo(lens, t, |lens|) == End(lens, t)
  {
    if t == 0 {
      KraftZero(lens, |lens|);
    } else {
      KraftIsEnd(lens, t - 1);
      KraftDouble(lens, t - 1, |lens|);
    }
  }

  lemma {:induction false} KraftZero(lens: Lengths, n: nat)
    requires n <= |lens|
    ensures KraftUpTo(lens, 0, n) == 0
  {
    if n > 0 {
      KraftZero(lens, n - 1);
    }
  }

  /** Once the codes of some length overflow, the Kraft sum exceeds one. */
  lemma {:induction false} OverflowStays(lens: Lengths, t: nat)
    requires t <= MAX_BITS && End(lens, t) > Pow2(t)
    ensures Kraft(lens) > Pow2(MAX_BITS)
    decreases MAX_BITS - t
  {
    if t == MAX_BITS {
      KraftIsEnd(lens, MAX_BITS);
    } else {
      OverflowStays(lens, t + 1);
    }
  }

  /** When the Kraft sum is at most one, every code fits its own number of bits. */
  lemma CodeFits(lens: Lengths, i: nat)
    requires ValidLengths(lens) && Used(lens, i) && Kraft(lens) <= Pow2(MAX_BITS)
    ensures Code(lens, i) < Pow2(lens[i])
  {
    if End(lens, lens[i]) > Pow2(lens[i]) {
      OverflowStays(lens, lens[i]);
    }
    RankBelowCount(lens, i);
  }

  // ---------------------------------------------------------------- the code as intervals of 2^15

  ghost function Lo(lens: Lengths, i: nat): nat
    requires ValidLengths(lens) && i < |lens|
  {
    Shl(Code(lens, i), MAX_BITS - lens[i])
  }

  ghost function Hi(lens: Lengths, i: nat): nat
    requires ValidLengths(lens) && i < |lens|
  {
    Shl(Code(lens, i) + 1, MAX_BITS - lens[i])
  }

  /** Shorter codes come first, and equally long ones in symbol order: the two canonical rules. */
  lemma CanonicalOrder(lens: Lengths, i: nat, j: nat)
    requires ValidLengths(lens) && Used(lens, i) && Used(lens, j)
    requires lens[i] < lens[j] || (lens[i] == lens[j] && i < j)
    ensures Hi(lens, i) <= Lo(lens, j)
  {
    var s, t := lens[i], lens[j];
    if s == t {
      RankStrict(lens, i, j);
      ShlMonotone(Code(lens, i) + 1, Code(lens, j), MAX_BITS - s);
    } else {
      RankBelowCount(lens, i);
      EndBeforeFirst(lens, s, t);
      ShlMonotone(Code(lens, i) + 1, End(lens, s), MAX_BITS - s);
      ShlMonotone(First(lens, t), Code(lens, j), MAX_BITS - t);
    }
  }

  lemma {:induction false} EndBeforeFirst(lens: Lengths, s: nat, t: nat)
    requires 1 <= s < t <= MAX_BITS
    ensures Shl(End(lens, s), MAX_BITS - s) <= Shl(First(lens, t), MAX_BITS - t)
    decreases t
  {
    FirstIsEnd(lens, t, MAX_BITS);
    if s < t - 1 {
      EndBeforeFirst(lens, s, t - 1);
      ShlMonotone(First(lens, t - 1), End(lens, t - 1), MAX_BITS - (t - 1));
    }
  }

  /**
   The codes tile exactly [0, Kraft): every 15-bit value below the Kraft sum lies in the interval
   of one symbol, and no value at or above it lies in any.
   */
  lemma CodesTile(lens: Lengths, v: nat)
    requires ValidLengths(lens)
    ensures v < Kraft(lens) <==> exists i: nat :: Used(lens, i) && Lo(lens, i) <= v < Hi(lens, i)
  {
    KraftIsEnd(lens, MAX_BITS);
    if v < Kraft(lens) {
      var i := TileAt(lens, MAX_BITS, v);
    }
    forall i: nat | Used(lens, i) && Lo(lens, i) <= v < Hi(lens, i) ensures v < Kraft(lens) {
      HiBelowEnd(lens, i);
    }
  }

  lemma HiBelowEnd(lens: Lengths, i: nat)
    requires ValidLengths(lens) && Used(lens, i)
    ensures Hi(lens, i) <= End(lens, MAX_BITS)
  {
    var s := lens[i];
    RankBelowCount(lens, i);
    ShlMonotone(Code(lens, i) + 1, End(lens, s), MAX_BITS - s);
    if s < MAX_BITS {
      EndBeforeFirst(lens, s, MAX_BITS);
    }
  }

  lemma {:induction false} TileAt(lens: Lengths, t: nat, v: nat) returns (i: nat)
    requires ValidLengths(lens) && t <= MAX_BITS && v < Shl(End(lens, t), MAX_BITS - t)
    ensures Used(lens, i) && Lo(lens, i) <= v < Hi(lens, i)
    decreases t
  {
    if t == 0 {
      ShlZero(MAX_BITS);
      assert false;
    } else {
      FirstIsEnd(lens, t, MAX_BITS);
      if v < Shl(First(lens, t), MAX_BITS - t) {
        i := TileAt(lens, t - 1, v);
      } else {
        var c := Shr(v, MAX_BITS - t);
        ShrBelow(v, End(lens, t), MAX_BITS - t);
        ShrBelow(v, First(lens, t), MAX_BITS - t);
        i := SymbolOfRank(lens, t, c - First(lens, t), |lens|);
        ShrBelow(v, c, MAX_BITS - t);
        ShrBelow(v, c + 1, MAX_BITS - t);
      }
    }
  }
}
