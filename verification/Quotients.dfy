/**
 Facts about quotients and remainders of integers by a positive divisor, rounded down.
 */
module Quotients {

  lemma QuotientUnique(a: int, b: int, q: int)
    requires b > 0 && q * b <= a < (q + 1) * b
    ensures a / b == q && a % b == a - q * b
  {
    var k := a / b;
    assert k * b <= a < (k + 1) * b;
    Separated(k, q, a, b);
    Separated(q, k, a, b);
  }

  /** Multiples that both lie within one step below a are not ordered. */
  lemma Separated(k: int, q: int, a: int, b: int)
    requires b > 0 && q * b <= a < (k + 1) * b
    ensures k >= q
  {
    assert (k + 1 - q) * b > 0;
  }

  /** A quotient steps up exactly at the multiples of the divisor. */
  lemma QuotientStep(a: int, b: int)
    requires b > 0
    ensures (a + 1) / b == a / b + (if (a + 1) % b == 0 then 1 else 0)
  {
    var q, r := a / b, a % b;
    assert a == q * b + r && (q + 1) * b == q * b + b && (q + 2) * b == q * b + b + b;
    if r == b - 1 {
      QuotientUnique(a + 1, b, q + 1);
    } else {
      QuotientUnique(a + 1, b, q);
    }
  }

  /** Adding multiples of the divisor keeps the remainder. */
  lemma Period(y: int, k: int, b: int)
    requires b > 0
    ensures (y + k * b) % b == y % b
  {
    var q := y / b;
    assert (q + k) * b == q * b + k * b && (q + k + 1) * b == q * b + k * b + b;
    assert y == q * b + y % b;
    QuotientUnique(y + k * b, b, q + k);
  }

  /** The numbers c * s + o that lie below size are those with c below a rounded-up quotient. */
  lemma CountBelow(c: nat, o: nat, s: nat, size: nat)
    requires o < s && size > 0
    ensures c * s + o < size <==> c < (size + s - 1 - o) / s
  {
    var q := (size + s - 1 - o) / s;
    assert q * s <= size + s - 1 - o < (q + 1) * s;
    assert (q + 1) * s == q * s + s;
    if c < q {
      Multiples(c + 1, q, s);
      assert (c + 1) * s == c * s + s;
    } else {
      Multiples(q, c, s);
    }
  }

  lemma Multiples(a: int, b: int, s: int)
    requires a <= b && s > 0
    ensures a * s <= b * s
  {
    assert (b - a) * s >= 0;
  }

  lemma ExactQuotient(c: nat, s: nat)
    requires s > 0
    ensures c * s % s == 0 && c * s / s == c
  {
    assert (c + 1) * s == c * s + s;
    QuotientUnique(c * s, s, c);
  }

  lemma ResidueOfSum(o: nat, k: nat, s: nat)
    requires o < s
    ensures (o + k * s) % s == o
  {
    assert (k + 1) * s == k * s + s;
    QuotientUnique(o + k * s, s, k);
  }

  lemma Decomposed(x: nat, s: nat) returns (q: nat)
    requires s > 0
    ensures x == x % s + q * s && q * s >= 0
  {
    q := x / s;
  }

  /** x is o plus a multiple of s just when its remainder is o. */
  lemma SameResidue(x: nat, o: nat, s: nat)
    requires o < s
    ensures x >= o && (x - o) % s == 0 <==> x % s == o
  {
    if x >= o {
      var k := Decomposed(x - o, s);
      if (x - o) % s == 0 {
        ResidueOfSum(o, k, s);
      }
    }
    var q := Decomposed(x, s);
    if x % s == o {
      ExactQuotient(q, s);
    }
  }
}
