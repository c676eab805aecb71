/**
 Inflating one compressed block: the symbols of section 3.2.5 of RFC 1951 read from the stream,
 their byte-by-byte LZ77 meaning, and the block decoder of stb_image with its growing output buffer,
 proved to produce exactly that meaning.
 */
module Inflate {
  import opened Common
  import Quotients
  import opened Words
  import opened CanonicalCode
  import opened ZHuffman
  import opened ZStream

  const UINT_MAX: nat := 0xFFFF_FFFF

  const LENGTH_BASE: seq<nat> :=
    [3, 4, 5, 6, 7, 8, 9, 10, 11, 13, 15, 17, 19, 23, 27, 31, 35, 43, 51, 59,
     67, 83, 99, 115, 131, 163, 195, 227, 258]
  const LENGTH_EXTRA: seq<nat> :=
    [0, 0, 0, 0, 0, 0, 0, 0, 1, 1, 1, 1, 2, 2, 2, 2, 3, 3, 3, 3, 4, 4, 4, 4, 5, 5, 5, 5, 0]
  const DIST_BASE: seq<nat> :=
    [1, 2, 3, 4, 5, 7, 9, 13, 17, 25, 33, 49, 65, 97, 129, 193, 257, 385, 513, 769,
     1025, 1537, 2049, 3073, 4097, 6145, 8193, 12289, 16385, 24577]
  const DIST_EXTRA: seq<nat> :=
    [0, 0, 0, 0, 1, 1, 2, 2, 3, 3, 4, 4, 5, 5, 6, 6, 7, 7, 8, 8, 9, 9, 10, 10, 11, 11, 12, 12,
     13, 13]

  datatype Token = Literal(byte: Byte) | Match(len: nat, dist: nat)

  /** What stands at a stream position: a token, the end of the block, or neither. */
  datatype Item = Tok(token: Token, next: nat) | EndOfBlock(after: nat) | NoCode | Reserved

  // ---------------------------------------------------------------- reading tokens, by definition

  /** The stream from position c on. */
  ghost function At(v: nat, c: nat): nat
  {
    Shr(v, c)
  }

  /** Extra bits of length code 257 + z: none for the first 8 codes and for 258, then 1 to 5. */
  function LengthExtra(z: nat): nat
  {
    if z < 8 || z == 28 then 0 else z / 4 - 1
  }

  /** Extra bits of distance code d: none for the first 4 codes, then one more every 2 codes. */
  function DistExtra(d: nat): nat
  {
    if d < 4 then 0 else d / 2 - 1
  }

  /** Each length code starts where the previous one ends, except the one for length 258. */
  function LengthBase(z: nat): (r: nat)
    ensures r >= 3
  {
    if z == 0 then 3 else if z == 28 then 258 else LengthBase(z - 1) + Pow2(LengthExtra(z - 1))
  }

  /** Each distance code starts where the previous one ends. */
  function DistBase(d: nat): (r: nat)
    ensures r >= 1
  {
    if d == 0 then 1 else DistBase(d - 1) + Pow2(DistExtra(d - 1))
  }

  /** A length or distance: its base plus extra bits read at position c. */
  ghost function WithExtra(v: nat, c: nat, base: nat, extra: nat): nat
  {
    base + Low(At(v, c), extra)
  }

  ghost function ReadItem(v: nat, c: nat, lens: Lengths, dists: Lengths): Item
  {
    var s := Symbol(lens, At(v, c));
    if s == -1 then NoCode
    else if s < 256 then Tok(Literal(s), c + lens[s])
    else if s == 256 then EndOfBlock(c + lens[s])
    else if s >= 286 then Reserved
    else ReadMatch(v, c + lens[s], s - 257, dists)
  }

  /** The rest of a match whose length code is 257 + z: extra length bits, then the distance. */
  ghost function ReadMatch(v: nat, c: nat, z: nat, dists: Lengths): Item
  {
    ReadDistance(v, c + LengthExtra(z), WithExtra(v, c, LengthBase(z), LengthExtra(z)), dists)
  }

  /** The rest of a match of length len: the distance code and its extra bits. */
  ghost function ReadDistance(v: nat, c: nat, len: nat, dists: Lengths): Item
  {
    var d := Symbol(dists, At(v, c));
    if d == -1 then NoCode
    else if d >= 30 then Reserved
    else
      var c' := c + dists[d];
      Tok(Match(len, WithExtra(v, c', DistBase(d), DistExtra(d))), c' + DistExtra(d))
  }

  /** Where the given tokens end when the stream from c spells them. */
  ghost function After(v: nat, c: nat, lens: Lengths, dists: Lengths, toks: seq<Token>): Option<nat>
  {
    if toks == [] then Some(c)
    else
      match After(v, c, lens, dists, toks[..|toks| - 1])
      case None => None
      case Some(mid) =>
        var item := ReadItem(v, mid, lens, dists);
        if item.Tok? && item.token == toks[|toks| - 1] then Some(item.next) else None
  }

  // ---------------------------------------------------------------- what tokens mean

  /** Copies n bytes one at a time, each from dist bytes back in the output produced so far. */
  ghost function CopyBytes(out: seq<Byte>, dist: nat, n: nat): (r: seq<Byte>)
    requires 1 <= dist <= |out|
    ensures |r| == |out| + n
  {
    if n == 0 then out
    else
      var r := CopyBytes(out, dist, n - 1);
      r + [r[|r| - dist]]
  }

  /** The output after one token, or None when its distance reaches before the output. */
  ghost function Emit(out: seq<Byte>, t: Token): Option<seq<Byte>>
  {
    match t
    case Literal(b) => Some(out + [b])
    case Match(len, dist) =>
      if 1 <= dist <= |out| then Some(CopyBytes(out, dist, len)) else None
  }

  /**
   A token means exactly this: the output grows at its end, by the literal byte, or by as many bytes
   as the match is long, each of them equal to the one dist bytes before it.
   */
  lemma {:induction false} TokenMeaning(out: seq<Byte>, t: Token, out': seq<Byte>)
    ensures Emit(out, t) == Some(out') <==>
      && out <= out'
      && match t
         case Literal(b) => out' == out + [b]
         case Match(len, dist) =>
           && 1 <= dist <= |out| && |out'| == |out| + len
           && forall k :: |out| <= k < |out'| ==> out'[k] == out'[k - dist]
  {
    if t.Match? && 1 <= t.dist <= |out| {
      var copied := CopyBytes(out, t.dist, t.len);
      CopyKeepsPrefix(out, t.dist, t.len);
      forall k | |out| <= k < |copied| ensures copied[k] == copied[k - t.dist] {
        CopiedByte(out, t.dist, t.len, k);
      }
      if out <= out' && |out'| == |copied| && forall k :: |out| <= k < |out'| ==> out'[k] == out'[k - t.dist] {
        SameFrom(out', copied, |out|, t.dist);
      }
    }
  }

  lemma {:induction false} CopiedByte(out: seq<Byte>, dist: nat, n: nat, k: nat)
    requires 1 <= dist <= |out| && |out| <= k < |out| + n
    ensures CopyBytes(out, dist, n)[k] == CopyBytes(out, dist, n)[k - dist]
    decreases n
  {
    LastCopied(out, dist, n);
    if k < |out| + n - 1 {
      CopiedByte(out, dist, n - 1, k);
    }
  }

  /** Two outputs that start alike and repeat alike are the same. */
  lemma SameFrom(a: seq<Byte>, b: seq<Byte>, n: nat, dist: nat)
    requires 1 <= dist <= n <= |a| == |b| && a[..n] == b[..n]
    requires forall k :: n <= k < |a| ==> a[k] == a[k - dist] && b[k] == b[k - dist]
    ensures a == b
  {
    forall k | 0 <= k < n ensures a[k] == b[k] {
      assert a[..n][k] == b[..n][k];
    }
    var i := n;
    while i < |a|
      invariant n <= i <= |a| && forall k :: 0 <= k < i ==> a[k] == b[k]
    {
      assert a[i] == a[i - dist] && b[i] == b[i - dist] && a[i - dist] == b[i - dist];
      i := i + 1;
    }
  }

  ghost function Lz77(out: seq<Byte>, toks: seq<Token>): Option<seq<Byte>>
  {
    if toks == [] then Some(out)
    else
      match Lz77(out, toks[..|toks| - 1])
      case None => None
      case Some(o) => Emit(o, toks[|toks| - 1])
  }

  /** Copying never touches what is already there. */
  lemma {:induction false} CopyKeepsPrefix(out: seq<Byte>, dist: nat, n: nat)
    requires 1 <= dist <= |out|
    ensures CopyBytes(out, dist, n)[..|out|] == out
  {
    if n > 0 {
      CopyKeepsPrefix(out, dist, n - 1);
    }
  }

  /** An overlapping copy repeats the last dist bytes periodically. */
  lemma {:induction false} CopyIsPeriodic(out: seq<Byte>, dist: nat, n: nat, i: nat)
    requires 1 <= dist <= |out| && i < n
    ensures CopyBytes(out, dist, n)[|out| + i] == out[|out| - dist + i % dist]
    decreases n
  {
    hide *;
    var r := CopyBytes(out, dist, n - 1);
    LastCopied(out, dist, n);
    if i < n - 1 {
      CopyIsPeriodic(out, dist, n - 1, i);
      assert CopyBytes(out, dist, n)[|out| + i] == r[|out| + i];
    } else {
      assert CopyBytes(out, dist, n)[|out| + i] == r[|out| + i - dist];
      if i < dist {
        CopyKeepsPrefix(out, dist, n - 1);
        SmallMod(i, dist);
        assert r[|out| + i - dist] == r[..|out|][|out| + i - dist];
      } else {
        CopyIsPeriodic(out, dist, n - 1, i - dist);
        ShiftedResidue(i, dist);
      }
    }
  }

  /** A copy is a shorter copy and one more byte. */
  lemma LastCopied(out: seq<Byte>, dist: nat, n: nat)
    requires 1 <= dist <= |out| && n > 0
    ensures var r := CopyBytes(out, dist, n - 1);
      CopyBytes(out, dist, n) == r + [r[|r| - dist]]
  {
  }

  lemma ShiftedResidue(i: nat, dist: nat)
    requires 1 <= dist <= i
    ensures i % dist == (i - dist) % dist
  {
    Quotients.Period(i - dist, 1, dist);
    assert 1 * dist == dist;
  }

  // ---------------------------------------------------------------- the code tables are exact

  lemma SmallPowers()
    ensures Pow2(0) == 1 && Pow2(1) == 2 && Pow2(2) == 4 && Pow2(3) == 8 && Pow2(4) == 16
    ensures Pow2(5) == 32 && Pow2(6) == 64 && Pow2(7) == 128 && Pow2(8) == 256 && Pow2(9) == 512
    ensures Pow2(10) == 1024 && Pow2(11) == 2048 && Pow2(12) == 4096 && Pow2(13) == 8192
  {
  }

  /** The length tables of the source are the ones the RFC's rule gives. */
  lemma {:induction false} LengthTable(z: nat)
    requires z < 29
    ensures LENGTH_BASE[z] == LengthBase(z) && LENGTH_EXTRA[z] == LengthExtra(z)
  {
    if z > 0 {
      LengthTable(z - 1);
      LengthTableStep(z - 1);
    }
  }

  lemma LengthTableStep(z: nat)
    requires z < 28
    ensures LENGTH_EXTRA[z] == LengthExtra(z) && LENGTH_EXTRA[z + 1] == LengthExtra(z + 1)
    ensures LENGTH_BASE[z + 1] == if z == 27 then 258 else LENGTH_BASE[z] + Pow2(LENGTH_EXTRA[z])
  {
    SmallPowers();
    hide LengthBase, Pow2;
  }

  /** The distance tables of the source are the ones the RFC's rule gives. */
  lemma {:induction false} DistTable(d: nat)
    requires d < 30
    ensures DIST_BASE[d] == DistBase(d) && DIST_EXTRA[d] == DistExtra(d)
  {
    DistExtraEntry(d);
    if d > 0 {
      DistTable(d - 1);
      DistTableStep(d - 1);
    }
  }

  lemma DistTableStep(d: nat)
    requires d < 29
    ensures DIST_BASE[d + 1] == DIST_BASE[d] + Pow2(DIST_EXTRA[d])
  {
    SmallPowers();
    hide DistBase, Pow2, DistExtra;
  }

  lemma DistExtraEntry(d: nat)
    requires d < 30
    ensures DIST_EXTRA[d] == DistExtra(d)
  {
    hide DistBase, Pow2;
  }

  /** Every match length from 3 to 258 has a length code whose extra bits reach it. */
  lemma LengthsCovered(len: nat) returns (z: nat)
    requires 3 <= len <= 258
    ensures z < 29 && LengthBase(z) <= len < LengthBase(z) + Pow2(LengthExtra(z))
  {
    if len == 258 {
      assert Pow2(0) == 1;
      return 28;
    }
    LengthTable(27);
    SmallPowers();
    z := 0;
    while z < 27 && LengthBase(z + 1) <= len
      invariant z < 28 && LengthBase(z) <= len
    {
      z := z + 1;
    }
  }

  lemma {:induction false} DistMonotone(d: nat, e: nat)
    requires d < e
    ensures DistBase(d) + Pow2(DistExtra(d)) <= DistBase(e)
    decreases e
  {
    if d < e - 1 {
      DistMonotone(d, e - 1);
    }
  }

  /** Every distance from 1 to 32768 is expressed by exactly one distance code. */
  lemma DistancesCovered(dist: nat) returns (d: nat)
    requires 1 <= dist <= 32768
    ensures d < 30 && DistBase(d) <= dist < DistBase(d) + Pow2(DistExtra(d))
    ensures forall e: nat :: DistBase(e) <= dist < DistBase(e) + Pow2(DistExtra(e)) ==> e == d
  {
    DistTable(29);
    SmallPowers();
    d := 0;
    while d < 29 && DistBase(d + 1) <= dist
      invariant d < 30 && DistBase(d) <= dist
    {
      d := d + 1;
    }
    forall e: nat | DistBase(e) <= dist < DistBase(e) + Pow2(DistExtra(e)) ensures e == d {
      if e < d {
        DistMonotone(e, d);
      } else if d < e {
        DistMonotone(d, e);
      }
    }
  }
}
