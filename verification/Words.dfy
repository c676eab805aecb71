/**
 Unsigned machine words as natural numbers, with the shifts and bitwise operators the C++ code uses
 written out bit by bit. `Bit(n, i)` is bit i of n, bit 0 being the least significant; every
 operator is characterised by the bits of its result, and two words with the same bits are equal.
 */
module Words {

  /** `1 << k` without a width limit. */
  function Pow2(k: nat): (p: nat)
    ensures p > 0
  {
    if k == 0 then 1 else 2 * Pow2(k - 1)
  }

  predicate Bit(n: nat, i: nat)
  {
    if i == 0 then n % 2 == 1 else Bit(n / 2, i - 1)
  }

  /** `a & b` */
  function And(a: nat, b: nat): nat
  {
    if a == 0 || b == 0 then 0
    else 2 * And(a / 2, b / 2) + (if a % 2 == 1 && b % 2 == 1 then 1 else 0)
  }

  /** `a | b` */
  function Or(a: nat, b: nat): nat
  {
    if a == 0 && b == 0 then 0
    else 2 * Or(a / 2, b / 2) + (if a % 2 == 1 || b % 2 == 1 then 1 else 0)
  }

  /** `a << k` without a width limit. */
  function Shl(a: nat, k: nat): nat
  {
    if k == 0 then a else 2 * Shl(a, k - 1)
  }

  /** `a >> k` */
  function Shr(a: nat, k: nat): nat
    decreases k
  {
    if k == 0 then a else Shr(a / 2, k - 1)
  }

  /** The low k bits of a: truncation to k bits, or `a & ((1 << k) - 1)`. */
  function Low(a: nat, k: nat): (r: nat)
    ensures r < Pow2(k)
    decreases k
  {
    if k == 0 then 0 else 2 * Low(a / 2, k - 1) + a % 2
  }

  /** `~a` in a word of the given width. */
  function Not(a: nat, width: nat): (r: nat)
    requires a < Pow2(width)
    ensures r < Pow2(width)
  {
    Pow2(width) - 1 - a
  }

  // ---------------------------------------------------------------- powers and shifts as arithmetic

  lemma {:induction false} Pow2Add(a: nat, b: nat)
    ensures Pow2(a + b) == Shl(Pow2(a), b)
    decreases b
  {
    if b > 0 {
      Pow2Add(a, b - 1);
    }
  }

  lemma KnownPowers()
    ensures Pow2(8) == 0x100 && Pow2(9) == 0x200 && Pow2(15) == 0x8000 && Pow2(16) == 0x1_0000
    ensures Pow2(24) == 0x100_0000 && Pow2(32) == 0x1_0000_0000
  {
    assert Pow2(8) == 0x100;
    assert Pow2(16) == 0x1_0000;
    assert Pow2(24) == 0x100_0000;
  }

  lemma WordSize()
    ensures Pow2(64) == 0x1_0000_0000_0000_0000
  {
    KnownPowers();
    assert Pow2(40) == 0x100 * Pow2(32);
    assert Pow2(48) == 0x100 * Pow2(40);
    assert Pow2(56) == 0x100 * Pow2(48);
    assert Pow2(64) == 0x100 * Pow2(56);
  }

  lemma {:induction false} Pow2Monotone(a: nat, b: nat)
    requires a <= b
    ensures Pow2(a) <= Pow2(b)
    decreases b
  {
    if a < b {
      Pow2Monotone(a, b - 1);
    }
  }

  lemma {:induction false} ShlIsMul(a: nat, k: nat)
    ensures Shl(a, k) == a * Pow2(k)
  {
    if k > 0 {
      ShlIsMul(a, k - 1);
      var p := Pow2(k - 1);
      assert 2 * (a * p) == a * (2 * p);
    }
  }

  lemma {:induction false} ShlDouble(a: nat, k: nat)
    ensures Shl(2 * a, k) == Shl(a, k + 1)
  {
    if k > 0 {
      ShlDouble(a, k - 1);
    }
  }

  lemma {:induction false} ShlZero(k: nat)
    ensures Shl(0, k) == 0
  {
    if k > 0 {
      ShlZero(k - 1);
    }
  }

  lemma {:induction false} ShlMonotone(a: nat, b: nat, k: nat)
    requires a <= b
    ensures Shl(a, k) <= Shl(b, k)
  {
    if k > 0 {
      ShlMonotone(a, b, k - 1);
    }
  }

  lemma {:induction false} ShrHalf(a: nat, k: nat)
    ensures Shr(a, k + 1) == Shr(a, k) / 2
    decreases k
  {
    if k > 0 {
      ShrHalf(a / 2, k - 1);
    }
  }

  /** Shifts compose. */
  lemma {:induction false} ShrShr(a: nat, j: nat, k: nat)
    ensures Shr(Shr(a, j), k) == Shr(a, j + k)
    decreases j
  {
    if j > 0 {
      ShrShr(a / 2, j - 1, k);
    }
  }

  /** The truncated quotient is below e exactly when the dividend is below e scaled up. */
  lemma {:induction false} ShrBelow(a: nat, e: nat, k: nat)
    ensures Shr(a, k) < e <==> a < Shl(e, k)
    decreases k
  {
    if k > 0 {
      ShrBelow(a / 2, e, k - 1);
    }
  }

  lemma SmallMod(a: nat, m: nat)
    requires a < m
    ensures a % m == a
  {
  }

  lemma {:induction false} LowIdentity(a: nat, k: nat)
    requires a < Pow2(k)
    ensures Low(a, k) == a
    decreases k
  {
    if k > 0 {
      LowIdentity(a / 2, k - 1);
    }
  }

  /** A word placed above k low bits comes back when those are shifted away. */
  lemma {:induction false} ShrOfSum(a: nat, b: nat, k: nat)
    requires a < Pow2(k)
    ensures Shr(a + Shl(b, k), k) == b && Low(a + Shl(b, k), k) == a
    decreases k
  {
    if k > 0 {
      ShrOfSum(a / 2, b, k - 1);
      assert (a + Shl(b, k)) / 2 == a / 2 + Shl(b, k - 1);
    }
  }

  /** Adding 2^k keeps the low k bits. */
  lemma {:induction false} LowPeriodic(a: nat, k: nat)
    ensures Low(a + Pow2(k), k) == Low(a, k)
    decreases k
  {
    if k > 0 {
      LowPeriodic(a / 2, k - 1);
      assert (a + Pow2(k)) / 2 == a / 2 + Pow2(k - 1);
    }
  }

  /** Numbers that agree in their low k bits are at least 2^k apart. */
  lemma {:induction false} LowApart(a: nat, b: nat, k: nat)
    requires a < b && Low(a, k) == Low(b, k)
    ensures a + Pow2(k) <= b
    decreases k
  {
    if k > 0 {
      LowApart(a / 2, b / 2, k - 1);
    }
  }

  // ---------------------------------------------------------------- bits

  lemma {:induction false} ZeroBit(i: nat)
    ensures !Bit(0, i)
  {
    if i > 0 {
      ZeroBit(i - 1);
    }
  }

  lemma {:induction false} AndBit(a: nat, b: nat, i: nat)
    ensures Bit(And(a, b), i) == (Bit(a, i) && Bit(b, i))
  {
    if a == 0 || b == 0 {
      ZeroBit(i);
    } else if i > 0 {
      AndBit(a / 2, b / 2, i - 1);
      assert And(a, b) / 2 == And(a / 2, b / 2);
    }
  }

  lemma OrHalf(a: nat, b: nat)
    ensures Or(a, b) / 2 == Or(a / 2, b / 2)
    ensures Or(a, b) % 2 == if a % 2 == 1 || b % 2 == 1 then 1 else 0
  {
    var h := Or(a / 2, b / 2);
    if a > 0 || b > 0 {
      var low := if a % 2 == 1 || b % 2 == 1 then 1 else 0;
      assert Or(a, b) == 2 * h + low;
    }
  }

  lemma {:induction false} OrBit(a: nat, b: nat, i: nat)
    ensures Bit(Or(a, b), i) == (Bit(a, i) || Bit(b, i))
  {
    if a == 0 && b == 0 {
      ZeroBit(i);
    } else {
      OrHalf(a, b);
      if i > 0 {
        OrBit(a / 2, b / 2, i - 1);
      }
    }
  }

  lemma {:induction false} ShlBit(a: nat, k: nat, i: nat)
    ensures Bit(Shl(a, k), i) == (i >= k && Bit(a, i - k))
  {
    if k > 0 && i > 0 {
      ShlBit(a, k - 1, i - 1);
    }
  }

  lemma {:induction false} ShrBit(a: nat, k: nat, i: nat)
    ensures Bit(Shr(a, k), i) == Bit(a, i + k)
    decreases k
  {
    if k > 0 {
      ShrBit(a / 2, k - 1, i);
    }
  }

  lemma {:induction false} LowBit(a: nat, k: nat, i: nat)
    ensures Bit(Low(a, k), i) == (i < k && Bit(a, i))
    decreases k
  {
    if k == 0 {
      ZeroBit(i);
    } else if i > 0 {
      LowBit(a / 2, k - 1, i - 1);
      assert Low(a, k) / 2 == Low(a / 2, k - 1);
    }
  }

  lemma {:induction false} NotBit(a: nat, width: nat, i: nat)
    requires a < Pow2(width)
    ensures Bit(Not(a, width), i) == (i < width && !Bit(a, i))
    decreases width
  {
    if width == 0 {
      ZeroBit(i);
    } else if i > 0 {
      NotBit(a / 2, width - 1, i - 1);
      assert Not(a, width) / 2 == Not(a / 2, width - 1);
    }
  }

  lemma OnesBit(k: nat, i: nat)
    ensures Bit(Pow2(k) - 1, i) == (i < k)
  {
    NotBit(0, k, i);
    ZeroBit(i);
  }

  /** A number below 2^k has no bit at or above k. */
  lemma {:induction false} HighBit(a: nat, k: nat, i: nat)
    requires a < Pow2(k) && i >= k
    ensures !Bit(a, i)
    decreases k
  {
    if k == 0 {
      ZeroBit(i);
    } else {
      HighBit(a / 2, k - 1, i - 1);
    }
  }

  /** A nonzero number has a bit. */
  lemma {:induction false} SomeBit(a: nat) returns (i: nat)
    requires a > 0
    ensures Bit(a, i)
  {
    if a % 2 == 1 {
      i := 0;
    } else {
      var j := SomeBit(a / 2);
      i := j + 1;
    }
  }

  /** Words with the same bits are equal. */
  lemma {:induction false} SameBits(a: nat, b: nat)
    requires forall i: nat :: Bit(a, i) == Bit(b, i)
    ensures a == b
    decreases a + b
  {
    if a + b > 0 {
      assert Bit(a, 0) == Bit(b, 0);
      forall i: nat ensures Bit(a / 2, i) == Bit(b / 2, i) {
        assert Bit(a, i + 1) == Bit(b, i + 1);
      }
      SameBits(a / 2, b / 2);
    }
  }

  lemma {:induction false} OrZero(b: nat)
    ensures Or(0, b) == b
  {
    if b > 0 {
      OrZero(b / 2);
    }
  }

  /** Or-ing in a word shifted above everything already present is an addition. */
  lemma {:induction false} OrShifted(a: nat, b: nat, k: nat)
    requires a < Pow2(k)
    ensures Or(a, Shl(b, k)) == a + Shl(b, k)
    decreases k
  {
    if k == 0 {
      OrZero(b);
    } else {
      OrShifted(a / 2, b, k - 1);
      assert Shl(b, k) / 2 == Shl(b, k - 1);
    }
  }

  lemma {:induction false} OrCommutes(a: nat, b: nat)
    ensures Or(a, b) == Or(b, a)
  {
    if a > 0 || b > 0 {
      OrCommutes(a / 2, b / 2);
    }
  }

  /** Masking with `(1 << k) - 1` keeps the low k bits. */
  lemma AndOnes(a: nat, k: nat)
    ensures And(a, Pow2(k) - 1) == Low(a, k)
  {
    forall i: nat ensures Bit(And(a, Pow2(k) - 1), i) == Bit(Low(a, k), i) {
      AndBit(a, Pow2(k) - 1, i);
      OnesBit(k, i);
      LowBit(a, k, i);
    }
    SameBits(And(a, Pow2(k) - 1), Low(a, k));
  }

  /** Shifting a truncated word is truncating the shifted word. */
  lemma {:induction false} ShrLow(a: nat, k: nat, n: nat)
    requires k <= n
    ensures Shr(Low(a, n), k) == Low(Shr(a, k), n - k)
    decreases k
  {
    if k > 0 {
      ShrLow(a / 2, k - 1, n - 1);
      assert Low(a, n) / 2 == Low(a / 2, n - 1);
    }
  }

  lemma {:induction false} LowLow(a: nat, k: nat, n: nat)
    requires k <= n
    ensures Low(Low(a, n), k) == Low(a, k)
    decreases k
  {
    if k > 0 {
      LowLow(a / 2, k - 1, n - 1);
      assert Low(a, n) / 2 == Low(a / 2, n - 1) && Low(a, n) % 2 == a % 2;
    }
  }

  /** A longer truncation splits into the shorter one and the bits above it. */
  lemma {:induction false} LowSplit(a: nat, k: nat, n: nat)
    ensures Low(a, k + n) == Low(a, k) + Shl(Low(Shr(a, k), n), k)
    decreases k
  {
    if k > 0 {
      LowSplit(a / 2, k - 1, n);
    }
  }
}
