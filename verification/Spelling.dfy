/**
 Compressing, as section 3.2.5 of RFC 1951 describes it: the bits that spell a token, put into the
 stream one by one. Reading is proved to undo it, for every token, every list of tokens and every
 choice of codes; nothing here mentions how the decoder reads.
 */
module Spelling {
  import opened Common
  import opened Words
  import opened CanonicalCode
  import opened KraftSum
  import opened ZHuffman
  import opened ZStream
  import opened Inflate
  import opened ZBlock

  // ---------------------------------------------------------------- bits in the stream

  /** The stream holds the bits from position c on. */
  ghost predicate HasBits(v: nat, c: nat, bits: seq<bool>)
  {
    forall i :: 0 <= i < |bits| ==> Bit(v, c + i) == bits[i]
  }

  lemma HasConcat(v: nat, c: nat, a: seq<bool>, b: seq<bool>)
    ensures HasBits(v, c, a + b) <==> HasBits(v, c, a) && HasBits(v, c + |a|, b)
  {
    hide Bit;
    if HasBits(v, c, a + b) {
      forall i | 0 <= i < |a| ensures Bit(v, c + i) == a[i] {
        assert (a + b)[i] == a[i];
      }
      forall i | 0 <= i < |b| ensures Bit(v, c + |a| + i) == b[i] {
        assert Bit(v, c + (|a| + i)) == (a + b)[|a| + i];
      }
    }
    if HasBits(v, c, a) && HasBits(v, c + |a|, b) {
      forall i | 0 <= i < |a + b| ensures Bit(v, c + i) == (a + b)[i] {
        if i >= |a| {
          assert Bit(v, c + |a| + (i - |a|)) == b[i - |a|];
        }
      }
    }
  }

  /** Huffman codes are packed starting with their most significant bit. */
  function CodeBits(lens: Lengths, s: nat): (bits: seq<bool>)
    requires s < |lens|
    ensures |bits| == lens[s]
    ensures forall i :: 0 <= i < |bits| ==> bits[i] == Bit(Code(lens, s), lens[s] - 1 - i)
  {
    seq(lens[s], (i: nat) => i < lens[s] && Bit(Code(lens, s), lens[s] - 1 - i))
  }

  /** Other numbers are packed starting with their least significant bit. */
  function NumberBits(x: nat, n: nat): (bits: seq<bool>)
    ensures |bits| == n && forall i :: 0 <= i < n ==> bits[i] == Bit(x, i)
  {
    seq(n, (i: nat) => Bit(x, i))
  }

  /** The stream holds the code of a symbol exactly when canonical decoding gives the symbol. */
  lemma CodeHeld(v: nat, c: nat, lens: Lengths, s: nat)
    requires ValidLengths(lens) && Kraft(lens) <= Pow2(MAX_BITS) && Used(lens, s)
    ensures HasBits(v, c, CodeBits(lens, s)) <==> Symbol(lens, At(v, c)) == s
  {
    hide Bit, Shr, Prefix, Symbol, Code, Pow2, Kraft;
    var w, n := At(v, c), lens[s];
    var bits := CodeBits(lens, s);
    SymbolIff(lens, w, s);
    forall i: nat | i < n
      ensures bits[i] == Bit(Code(lens, s), n - 1 - i)
      ensures Bit(v, c + i) == Bit(Prefix(w, n), n - 1 - i)
    {
      ShrBit(v, c, i);
      PrefixBit(w, n, n - 1 - i);
    }
    if HasBits(v, c, bits) {
      CodeFits(lens, s);
      PrefixBound(w, n);
      forall j: nat ensures Bit(Prefix(w, n), j) == Bit(Code(lens, s), j) {
        if j < n {
          assert Bit(v, c + (n - 1 - j)) == bits[n - 1 - j];
        } else {
          HighBit(Prefix(w, n), n, j);
          HighBit(Code(lens, s), n, j);
        }
      }
      SameBits(Prefix(w, n), Code(lens, s));
    }
  }

  /** The stream holds a number of n bits exactly when its next n bits have that value. */
  lemma NumberHeld(v: nat, c: nat, x: nat, n: nat)
    requires x < Pow2(n)
    ensures HasBits(v, c, NumberBits(x, n)) <==> Low(At(v, c), n) == x
  {
    hide Bit, Shr, Low, Pow2;
    var w := At(v, c);
    forall i: nat
      ensures i < n ==> Bit(Low(w, n), i) == Bit(v, c + i)
      ensures i >= n ==> !Bit(Low(w, n), i) && !Bit(x, i)
    {
      ShrBit(v, c, i);
      LowBit(w, n, i);
      if i >= n {
        HighBit(x, n, i);
      }
    }
    if HasBits(v, c, NumberBits(x, n)) {
      SameBits(Low(w, n), x);
    }
  }

  // ---------------------------------------------------------------- tokens in the stream

  /** Length code 257 + z, with its extra bits, can express the length. */
  predicate LengthCode(z: nat, len: nat)
  {
    z < 29 && LengthBase(z) <= len < LengthBase(z) + Pow2(LengthExtra(z))
  }

  /** Distance code d, with its extra bits, can express the distance. */
  predicate DistanceCode(d: nat, dist: nat)
  {
    d < 30 && DistBase(d) <= dist < DistBase(d) + Pow2(DistExtra(d))
  }

  /** The bits of a length: its code and what the length has over the base of that code. */
  function LengthBits(lens: Lengths, z: nat, len: nat): seq<bool>
    requires LengthCode(z, len) && 257 + z < |lens|
  {
    CodeBits(lens, 257 + z) + NumberBits(len - LengthBase(z), LengthExtra(z))
  }

  function DistanceBits(dists: Lengths, d: nat, dist: nat): seq<bool>
    requires DistanceCode(d, dist) && d < |dists|
  {
    CodeBits(dists, d) + NumberBits(dist - DistBase(d), DistExtra(d))
  }

  /** The bits spell the token, with some codes that can express it. */
  ghost predicate Spells(lens: Lengths, dists: Lengths, t: Token, bits: seq<bool>)
  {
    match t
    case Literal(b) => Used(lens, b) && bits == CodeBits(lens, b)
    case Match(len, dist) => exists z, d :: SpellsMatch(lens, dists, len, dist, z, d, bits)
  }

  ghost predicate SpellsMatch(lens: Lengths, dists: Lengths, len: nat, dist: nat, z: nat, d: nat,
                              bits: seq<bool>)
  {
    && LengthCode(z, len) && DistanceCode(d, dist) && Used(lens, 257 + z) && Used(dists, d)
    && bits == LengthBits(lens, z, len) + DistanceBits(dists, d, dist)
  }

  /** Both codes are prefix codes, as the table builder accepts them. */
  ghost predicate PrefixCodes(lens: Lengths, dists: Lengths)
  {
    && ValidLengths(lens) && Kraft(lens) <= Pow2(MAX_BITS)
    && ValidLengths(dists) && Kraft(dists) <= Pow2(MAX_BITS)
  }

  /** A number expressed as a base and extra bits is read back. */
  lemma ExtraHeld(v: nat, c: nat, base: nat, extra: nat, x: nat)
    requires base <= x < base + Pow2(extra)
    ensures HasBits(v, c, NumberBits(x - base, extra)) <==> WithExtra(v, c, base, extra) == x
  {
    hide Low, Pow2, Shr;
    NumberHeld(v, c, x - base, extra);
  }

  lemma DistanceHeld(v: nat, c: nat, len: nat, dists: Lengths, d: nat, dist: nat)
    requires ValidLengths(dists) && Kraft(dists) <= Pow2(MAX_BITS) && Used(dists, d)
    requires DistanceCode(d, dist)
    ensures HasBits(v, c, DistanceBits(dists, d, dist)) <==>
      Symbol(dists, At(v, c)) == d
      && ReadDistance(v, c, len, dists) == Tok(Match(len, dist), c + |DistanceBits(dists, d, dist)|)
  {
    hide HasBits, Kraft, Pow2, DistBase, Symbol, WithExtra, At;
    HasConcat(v, c, CodeBits(dists, d), NumberBits(dist - DistBase(d), DistExtra(d)));
    CodeHeld(v, c, dists, d);
    ExtraHeld(v, c + dists[d], DistBase(d), DistExtra(d), dist);
  }

  lemma LengthHeld(v: nat, c: nat, lens: Lengths, z: nat, len: nat)
    requires ValidLengths(lens) && Kraft(lens) <= Pow2(MAX_BITS) && Used(lens, 257 + z)
    requires LengthCode(z, len)
    ensures HasBits(v, c, LengthBits(lens, z, len)) <==>
      Symbol(lens, At(v, c)) == 257 + z
      && WithExtra(v, c + lens[257 + z], LengthBase(z), LengthExtra(z)) == len
  {
    hide HasBits, Kraft, Pow2, LengthBase, Symbol, WithExtra, At;
    HasConcat(v, c, CodeBits(lens, 257 + z), NumberBits(len - LengthBase(z), LengthExtra(z)));
    CodeHeld(v, c, lens, 257 + z);
    ExtraHeld(v, c + lens[257 + z], LengthBase(z), LengthExtra(z), len);
  }

  /** Bits that spell a token are read as that token, up to their end. */
  lemma SpelledIsRead(v: nat, c: nat, lens: Lengths, dists: Lengths, t: Token, bits: seq<bool>)
    requires PrefixCodes(lens, dists) && Spells(lens, dists, t, bits) && HasBits(v, c, bits)
    ensures ReadItem(v, c, lens, dists) == Tok(t, c + |bits|)
  {
    hide HasBits, Kraft, Pow2, LengthBase, LengthExtra, DistBase, Symbol, WithExtra, At, ReadDistance,
         LengthBits, DistanceBits, LengthCode, DistanceCode;
    match t
    case Literal(b) => CodeHeld(v, c, lens, b);
    case Match(len, dist) =>
      var z, d :| SpellsMatch(lens, dists, len, dist, z, d, bits);
      var front, back := LengthBits(lens, z, len), DistanceBits(dists, d, dist);
      HasConcat(v, c, front, back);
      LengthHeld(v, c, lens, z, len);
      DistanceHeld(v, c + |front|, len, dists, d, dist);
      LengthSize(lens, z, len);
  }

  lemma LengthSize(lens: Lengths, z: nat, len: nat)
    requires LengthCode(z, len) && 257 + z < |lens|
    ensures |LengthBits(lens, z, len)| == lens[257 + z] + LengthExtra(z) && z < 29
  {
  }

  /** Conversely a token that is read was spelled there. */
  lemma ReadIsSpelled(v: nat, c: nat, lens: Lengths, dists: Lengths, t: Token, next: nat)
    returns (bits: seq<bool>)
    requires PrefixCodes(lens, dists) && ReadItem(v, c, lens, dists) == Tok(t, next)
    ensures Spells(lens, dists, t, bits) && HasBits(v, c, bits) && next == c + |bits|
  {
    var s := Symbol(lens, At(v, c));
    hide HasBits, Kraft, Pow2, LengthBase, LengthExtra, DistBase, DistExtra, At, Shr, Low;
    CodeHeld(v, c, lens, s);
    if s < 256 {
      bits := CodeBits(lens, s);
    } else {
      var z := s - 257;
      var c1 := c + lens[s] + LengthExtra(z);
      var d := Symbol(dists, At(v, c1));
      InRange(v, c + lens[s], LengthBase(z), LengthExtra(z));
      InRange(v, c1 + dists[d], DistBase(d), DistExtra(d));
      hide Symbol, WithExtra;
      LengthHeld(v, c, lens, z, t.len);
      LengthSize(lens, z, t.len);
      DistanceHeld(v, c1, t.len, dists, d, t.dist);
      HasConcat(v, c, LengthBits(lens, z, t.len), DistanceBits(dists, d, t.dist));
      bits := LengthBits(lens, z, t.len) + DistanceBits(dists, d, t.dist);
      assert SpellsMatch(lens, dists, t.len, t.dist, z, d, bits);
    }
  }

  lemma InRange(v: nat, c: nat, base: nat, extra: nat)
    ensures base <= WithExtra(v, c, base, extra) < base + Pow2(extra)
  {
  }

  /** A token and its end are read exactly where bits that spell the token stand. */
  lemma TokenReadIff(v: nat, c: nat, lens: Lengths, dists: Lengths, t: Token, next: nat)
    requires PrefixCodes(lens, dists)
    ensures ReadItem(v, c, lens, dists) == Tok(t, next) <==>
      exists bits :: Spells(lens, dists, t, bits) && HasBits(v, c, bits) && next == c + |bits|
  {
    hide ReadItem, Spells, HasBits, PrefixCodes;
    if ReadItem(v, c, lens, dists) == Tok(t, next) {
      var bits := ReadIsSpelled(v, c, lens, dists, t, next);
    }
    forall bits | Spells(lens, dists, t, bits) && HasBits(v, c, bits) && next == c + |bits|
      ensures ReadItem(v, c, lens, dists) == Tok(t, next)
    {
      SpelledIsRead(v, c, lens, dists, t, bits);
    }
  }

  /** The end of a block is read exactly where the code of symbol 256 stands. */
  lemma EndReadIff(v: nat, c: nat, lens: Lengths, dists: Lengths)
    requires PrefixCodes(lens, dists) && Used(lens, 256)
    ensures HasBits(v, c, CodeBits(lens, 256)) <==>
      ReadItem(v, c, lens, dists) == EndOfBlock(c + lens[256])
  {
    hide HasBits, Kraft, Pow2, At, ReadMatch;
    CodeHeld(v, c, lens, 256);
    assert ReadItem(v, c, lens, dists).EndOfBlock? ==> Symbol(lens, At(v, c)) == 256 by {
      hide *;
      NoEnd(v, c, lens, dists);
    }
  }

  lemma NoEnd(v: nat, c: nat, lens: Lengths, dists: Lengths)
    ensures ReadItem(v, c, lens, dists).EndOfBlock? ==> Symbol(lens, At(v, c)) == 256
  {
  }

  // ---------------------------------------------------------------- whole blocks

  /** The bits spell the tokens one after another. */
  ghost predicate SpellsAll(lens: Lengths, dists: Lengths, toks: seq<Token>, bits: seq<bool>)
    decreases |toks|
  {
    if toks == [] then bits == []
    else
      exists k: nat :: k <= |bits|
        && SpellsAll(lens, dists, toks[..|toks| - 1], bits[..k])
        && Spells(lens, dists, toks[|toks| - 1], bits[k..])
  }

  lemma LastSpelled(lens: Lengths, dists: Lengths, toks: seq<Token>, bits: seq<bool>) returns (k: nat)
    requires toks != [] && SpellsAll(lens, dists, toks, bits)
    ensures k <= |bits| && bits == bits[..k] + bits[k..]
    ensures SpellsAll(lens, dists, toks[..|toks| - 1], bits[..k])
    ensures Spells(lens, dists, toks[|toks| - 1], bits[k..])
  {
    hide Spells;
    k :| k <= |bits| && SpellsAll(lens, dists, toks[..|toks| - 1], bits[..k])
      && Spells(lens, dists, toks[|toks| - 1], bits[k..]);
  }

  /** Reading undoes spelling, for every list of tokens. */
  lemma {:induction false} AllSpelledIsRead(v: nat, c: nat, lens: Lengths, dists: Lengths,
                                            toks: seq<Token>, bits: seq<bool>)
    requires PrefixCodes(lens, dists) && SpellsAll(lens, dists, toks, bits) && HasBits(v, c, bits)
    ensures After(v, c, lens, dists, toks) == Some(c + |bits|)
    decreases |toks|
  {
    if toks == [] {
      hide HasBits, Spells, ReadItem, PrefixCodes;
    } else {
      hide *;
      var init, t := toks[..|toks| - 1], toks[|toks| - 1];
      var k := LastSpelled(lens, dists, toks, bits);
      OneMoreRead(v, c, lens, dists, toks);
      HasConcat(v, c, bits[..k], bits[k..]);
      AllSpelledIsRead(v, c, lens, dists, init, bits[..k]);
      SpelledIsRead(v, c + k, lens, dists, t, bits[k..]);
    }
  }

  lemma OneMoreRead(v: nat, c: nat, lens: Lengths, dists: Lengths, toks: seq<Token>)
    requires toks != []
    ensures var mid := After(v, c, lens, dists, toks[..|toks| - 1]);
      mid.Some? ==> forall next: nat ::
        ReadItem(v, mid.value, lens, dists) == Tok(toks[|toks| - 1], next)
        ==> After(v, c, lens, dists, toks) == Some(next)
  {
    hide ReadItem;
  }

  /** Every literal and every match of the standard can be spelled when its symbols have codes. */
  lemma CanBeSpelled(lens: Lengths, dists: Lengths, t: Token) returns (bits: seq<bool>)
    requires t.Literal? ==> Used(lens, t.byte)
    requires t.Match? ==> 3 <= t.len <= 258 && 1 <= t.dist <= 32768
    requires t.Match? ==> forall s: nat :: 257 <= s < 286 ==> Used(lens, s)
    requires t.Match? ==> forall d: nat :: d < 30 ==> Used(dists, d)
    ensures Spells(lens, dists, t, bits)
  {
    hide LengthBase, DistBase, Pow2;
    match t
    case Literal(b) => bits := CodeBits(lens, b);
    case Match(len, dist) =>
      var z := LengthsCovered(len);
      var d := DistancesCovered(dist);
      assert Used(lens, 257 + z) && Used(dists, d);
      bits := LengthBits(lens, z, len) + DistanceBits(dists, d, dist);
      assert SpellsMatch(lens, dists, len, dist, z, d, bits);
  }

  /**
   Decompression undoes compression: a stream that holds the bits of a block's tokens and of its end,
   and 16 bits of data from there on, has to be decoded to exactly those tokens when their output fits.
   */
  lemma BlockRoundTrip(v: nat, n: nat, c0: nat, f0: nat, out0: seq<Byte>, room: nat,
                       lens: Lengths, dists: Lengths,
                       end: BlockEnd, toks: seq<Token>, at: nat,
                       spelled: seq<Token>, bits: seq<bool>)
    requires PrefixCodes(lens, dists) && Used(lens, 256)
    requires Explains(v, n, c0, f0, out0, room, lens, dists, end, toks, at)
    requires SpellsAll(lens, dists, spelled, bits)
    requires HasBits(v, c0, bits + CodeBits(lens, 256)) && c0 + |bits| + 16 <= 8 * n
    requires Lz77(out0, spelled).Some? && |Lz77(out0, spelled).value| <= room
    ensures end == Finished && toks == spelled && at == c0 + |bits|
  {
    hide HasBits, PrefixCodes, Explains, SpellsAll, Supplied, After, ReadItem, Lz77, CodeBits;
    HasConcat(v, c0, bits, CodeBits(lens, 256));
    AllSpelledIsRead(v, c0, lens, dists, spelled, bits);
    EndReadIff(v, c0 + |bits|, lens, dists);
    SixteenBitsSupply(v, n, c0, f0, lens, dists, spelled, c0 + |bits|);
    CompleteBlock(v, n, c0, f0, out0, room, lens, dists, end, toks, at, spelled, c0 + |bits|,
                  c0 + |bits| + lens[256]);
  }

  // ---------------------------------------------------------------- what a report says of the stream

  /** No code of the alphabet stands at bit c. */
  ghost predicate NoCodeAt(v: nat, c: nat, lens: Lengths)
    requires ValidLengths(lens)
  {
    forall s: nat :: Used(lens, s) ==> !HasBits(v, c, CodeBits(lens, s))
  }

  lemma NoSymbol(v: nat, c: nat, lens: Lengths)
    requires ValidLengths(lens) && Kraft(lens) <= Pow2(MAX_BITS)
    ensures Symbol(lens, At(v, c)) == -1 ==> NoCodeAt(v, c, lens)
    ensures Symbol(lens, At(v, c)) >= 0 ==>
      Used(lens, Symbol(lens, At(v, c))) && HasBits(v, c, CodeBits(lens, Symbol(lens, At(v, c))))
  {
    hide HasBits, Kraft, Pow2, At;
    var m := Symbol(lens, At(v, c));
    forall s: nat | Used(lens, s) ensures HasBits(v, c, CodeBits(lens, s)) <==> m == s {
      CodeHeld(v, c, lens, s);
    }
  }

  /** A length stands at bit c, spelled by these bits. */
  ghost predicate LengthAt(v: nat, c: nat, lens: Lengths, z: nat, len: nat, bits: seq<bool>)
  {
    && LengthCode(z, len) && Used(lens, 257 + z)
    && bits == LengthBits(lens, z, len) && HasBits(v, c, bits)
  }

  /** A token stands at bit c, spelled by these bits. */
  ghost predicate TokenAt(v: nat, c: nat, lens: Lengths, dists: Lengths, t: Token, bits: seq<bool>)
  {
    Spells(lens, dists, t, bits) && HasBits(v, c, bits)
  }

  /** No code stands at bit c, or a length does with no distance code behind it. */
  ghost predicate Undecodable(v: nat, c: nat, lens: Lengths, dists: Lengths)
    requires ValidLengths(lens) && ValidLengths(dists)
  {
    NoCodeAt(v, c, lens)
    || exists z, len, bits :: LengthAt(v, c, lens, z, len, bits) && NoCodeAt(v, c + |bits|, dists)
  }

  ghost predicate CodeAt(v: nat, c: nat, lens: Lengths, s: nat)
  {
    Used(lens, s) && HasBits(v, c, CodeBits(lens, s))
  }

  /** The code of a symbol the standard reserves stands at bit c, or behind a length there. */
  ghost predicate ReservedAt(v: nat, c: nat, lens: Lengths, dists: Lengths)
  {
    || CodeFrom(v, c, lens, 286)
    || exists z, len, bits :: LengthAt(v, c, lens, z, len, bits) && CodeFrom(v, c + |bits|, dists, 30)
  }

  /** The code of a symbol not below the given one stands at bit c. */
  ghost predicate CodeFrom(v: nat, c: nat, lens: Lengths, low: nat)
  {
    exists s :: s >= low && CodeAt(v, c, lens, s)
  }

  lemma ItemMeans(v: nat, c: nat, lens: Lengths, dists: Lengths)
    requires PrefixCodes(lens, dists)
    ensures ReadItem(v, c, lens, dists) == NoCode ==> Undecodable(v, c, lens, dists)
    ensures ReadItem(v, c, lens, dists) == Reserved ==> ReservedAt(v, c, lens, dists)
    ensures ReadItem(v, c, lens, dists).EndOfBlock? ==> CodeAt(v, c, lens, 256)
  {
    hide HasBits, Kraft, Pow2, LengthBase, LengthExtra, DistBase, DistExtra, At, WithExtra, NoCodeAt, Symbol;
    NoSymbol(v, c, lens);
    var s := Symbol(lens, At(v, c));
    if s >= 286 {
      assert CodeAt(v, c, lens, s);
    } else if s > 256 {
      var z := s - 257;
      var len := WithExtra(v, c + lens[s], LengthBase(z), LengthExtra(z));
      InRange(v, c + lens[s], LengthBase(z), LengthExtra(z));
      LengthHeld(v, c, lens, z, len);
      LengthSize(lens, z, len);
      var bits := LengthBits(lens, z, len);
      assert LengthAt(v, c, lens, z, len, bits);
      NoSymbol(v, c + |bits|, dists);
      var d := Symbol(dists, At(v, c + |bits|));
      assert d >= 30 ==> CodeAt(v, c + |bits|, dists, d);
    }
  }

  /**
   What a report of the block decoder says of the stream, in bits: those of the tokens carried out
   stand there one after another, and what stands behind them is the end of the block, a match that
   reaches before the output, a token whose output does not fit, a reserved symbol, or no code at
   all, unless a code there is looked up with fewer than 16 bits buffered and no byte left.
   */
  lemma ReportMeans(v: nat, n: nat, c0: nat, f0: nat, out0: seq<Byte>, room: nat,
                    lens: Lengths, dists: Lengths,
                    end: BlockEnd, toks: seq<Token>, at: nat) returns (bits: seq<bool>)
    requires PrefixCodes(lens, dists)
    requires Explains(v, n, c0, f0, out0, room, lens, dists, end, toks, at)
    ensures SpellsAll(lens, dists, toks, bits) && HasBits(v, c0, bits) && at == c0 + |bits|
    ensures Lz77(out0, toks).Some? && |Lz77(out0, toks).value| <= room
    ensures var out := Lz77(out0, toks).value;
      match end
      case Finished => CodeAt(v, at, lens, 256)
      case BadDistance => exists t, b :: TokenAt(v, at, lens, dists, t, b) && TooFar(t, |out|)
      case OutputLimit =>
        exists t, b :: TokenAt(v, at, lens, dists, t, b) && !TooFar(t, |out|) && |out| + TokenSize(t) > room
      case ReservedSymbol => ReservedAt(v, at, lens, dists)
      case BadCode => Undecodable(v, at, lens, dists) || !Supplied(v, n, c0, f0, lens, dists, toks)
  {
    hide *;
    ExplainsParts(v, n, c0, f0, out0, room, lens, dists, end, toks, at);
    bits := AllReadIsSpelled(v, c0, lens, dists, toks, at);
    var item, out := ReadItem(v, at, lens, dists), Lz77(out0, toks).value;
    ItemMeans(v, at, lens, dists);
    if item.Tok? && (end == BadDistance || end == OutputLimit) {
      var b := ReadIsSpelled(v, at, lens, dists, item.token, item.next);
      HereIs(v, at, lens, dists, item.token, b);
      EmitIff(lens, dists, item.token, b, out);
      assert TokenAt(v, at, lens, dists, item.token, b);
    }
  }

  lemma HereIs(v: nat, c: nat, lens: Lengths, dists: Lengths, t: Token, bits: seq<bool>)
    requires Spells(lens, dists, t, bits) && HasBits(v, c, bits)
    ensures TokenAt(v, c, lens, dists, t, bits)
  {
  }

  /** A spelled token has a meaning exactly when it does not reach before the output. */
  lemma EmitIff(lens: Lengths, dists: Lengths, t: Token, bits: seq<bool>, out: seq<Byte>)
    requires Spells(lens, dists, t, bits)
    ensures Emit(out, t) == None <==> TooFar(t, |out|)
  {
    hide DistBase, LengthBase, LengthBits, DistanceBits, CopyBytes;
  }

  lemma ExplainsParts(v: nat, n: nat, c0: nat, f0: nat, out0: seq<Byte>, room: nat,
                      lens: Lengths, dists: Lengths,
                      end: BlockEnd, toks: seq<Token>, at: nat)
    requires Explains(v, n, c0, f0, out0, room, lens, dists, end, toks, at)
    ensures After(v, c0, lens, dists, toks) == Some(at)
    ensures Lz77(out0, toks).Some? && |Lz77(out0, toks).value| <= room
    ensures var item, out := ReadItem(v, at, lens, dists), Lz77(out0, toks).value;
      match end
      case Finished => item.EndOfBlock?
      case BadDistance => item.Tok? && Emit(out, item.token) == None
      case OutputLimit =>
        item.Tok? && Emit(out, item.token).Some? && |out| + TokenSize(item.token) > room
      case ReservedSymbol => item == Reserved
      case BadCode => item == NoCode || !Supplied(v, n, c0, f0, lens, dists, toks)
  {
    hide After, TokensLoad, ItemLoads, Lz77, ReadItem, Emit;
  }

  lemma {:induction false} AllReadIsSpelled(v: nat, c: nat, lens: Lengths, dists: Lengths,
                                            toks: seq<Token>, at: nat) returns (bits: seq<bool>)
    requires PrefixCodes(lens, dists) && After(v, c, lens, dists, toks) == Some(at)
    ensures SpellsAll(lens, dists, toks, bits) && HasBits(v, c, bits) && at == c + |bits|
    decreases |toks|
  {
    hide *;
    LastRead(v, c, lens, dists, toks);
    if toks == [] {
      bits := [];
      NothingSpelled(v, c, lens, dists);
    } else {
      var init, t := toks[..|toks| - 1], toks[|toks| - 1];
      var mid := After(v, c, lens, dists, init).value;
      var a := AllReadIsSpelled(v, c, lens, dists, init, mid);
      var b := ReadIsSpelled(v, mid, lens, dists, t, at);
      bits := a + b;
      HasConcat(v, c, a, b);
      OneMoreSpelled(lens, dists, toks, a, b);
    }
  }

  lemma LastRead(v: nat, c: nat, lens: Lengths, dists: Lengths, toks: seq<Token>)
    requires After(v, c, lens, dists, toks).Some?
    ensures toks == [] ==> After(v, c, lens, dists, toks) == Some(c)
    ensures toks != [] ==>
      var mid := After(v, c, lens, dists, toks[..|toks| - 1]);
      mid.Some? && ReadItem(v, mid.value, lens, dists)
                   == Tok(toks[|toks| - 1], After(v, c, lens, dists, toks).value)
  {
    hide ReadItem;
  }

  lemma NothingSpelled(v: nat, c: nat, lens: Lengths, dists: Lengths)
    ensures SpellsAll(lens, dists, [], []) && HasBits(v, c, [])
  {
  }

  lemma OneMoreSpelled(lens: Lengths, dists: Lengths, toks: seq<Token>, a: seq<bool>, b: seq<bool>)
    requires toks != [] && SpellsAll(lens, dists, toks[..|toks| - 1], a)
    requires Spells(lens, dists, toks[|toks| - 1], b)
    ensures SpellsAll(lens, dists, toks, a + b)
  {
    hide Spells;
    var bits, k := a + b, |a|;
    assert bits[..k] == a && bits[k..] == b;
  }

  /** The match reaches before the output. */
  predicate TooFar(t: Token, size: nat)
  {
    t.Match? && t.dist > size
  }
}
