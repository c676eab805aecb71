/**
 The fixed code of section 3.2.6 of RFC 1951 and a whole raw DEFLATE stream in it that the decoder
 refuses: the code of its end is looked up with fewer than 16 bits left.
 */
module FixedBlock {
  import opened Common
  import opened Words
  import opened CanonicalCode
  import opened KraftSum
  import opened ZHuffman
  import opened ZStream
  import opened Inflate
  import opened ZBlock

  /** The table of default lengths for literals and lengths. */
  function FixedLengths(): (r: Lengths)
    ensures |r| == 288 && ValidLengths(r)
  {
    seq(288, (i: int) => if i < 144 then 8 else if i < 256 then 9 else if i < 280 then 7 else 8)
  }

  /** The table of default lengths for distances. */
  function FixedDistances(): (r: Lengths)
    ensures |r| == 32 && ValidLengths(r)
  {
    seq(32, _ => 5)
  }

  /** How many of n are among the numbers from lo up to but not including hi. */
  function Among(n: int, lo: int, hi: int): int
  {
    if n < lo then 0 else if n < hi then n - lo else hi - lo
  }

  lemma {:induction false} FixedRank(s: nat, n: nat)
    requires n <= 288
    ensures Rank(FixedLengths(), s, n) ==
      if s == 7 then Among(n, 256, 280)
      else if s == 8 then Among(n, 0, 144) + Among(n, 280, 288)
      else if s == 9 then Among(n, 144, 256)
      else 0
    decreases n
  {
    if n > 0 {
      FixedRank(s, n - 1);
    }
  }

  lemma {:induction false} NoShorterCodes(lens: Lengths, s: nat, t: nat)
    requires s < t && forall i :: 0 <= i < |lens| ==> lens[i] >= t
    ensures End(lens, s) == 0
  {
    if s > 0 {
      NoShorterCodes(lens, s - 1, t);
      NoneOfLength(lens, s, |lens|);
    }
  }

  lemma {:induction false} NoneOfLength(lens: Lengths, s: nat, n: nat)
    requires n <= |lens| && forall i :: 0 <= i < |lens| ==> lens[i] != s
    ensures Rank(lens, s, n) == 0
    decreases n
  {
    if n > 0 {
      NoneOfLength(lens, s, n - 1);
    }
  }

  /** The codes the standard lists for the fixed code. */
  lemma FixedCodes(i: nat)
    requires i < 288
    ensures Code(FixedLengths(), i) ==
      if i < 144 then 0x30 + i
      else if i < 256 then 0x190 + (i - 144)
      else if i < 280 then i - 256
      else 0xC0 + (i - 280)
  {
    var lens := FixedLengths();
    NoShorterCodes(lens, 6, 7);
    FixedRank(7, 288);
    FixedRank(8, 288);
    FixedRank(lens[i], i);
    hide FixedLengths, Rank;
    assert First(lens, 7) == 0 && First(lens, 8) == 48 && First(lens, 9) == 400;
  }

  /** "hi", compressed without a zlib header: the final block, in the fixed code. */
  const RAW_HI: seq<Byte> := [0xCB, 0xC8, 0x04, 0x00]

  const HI: seq<Token> := [Literal(0x68), Literal(0x69)]

  lemma HiStream()
    ensures Stream(RAW_HI) == 0x4C8CB
  {
    assert RAW_HI[1..] == [0xC8, 0x04, 0x00] && RAW_HI[1..][1..] == [0x04, 0x00];
    assert RAW_HI[1..][1..][1..] == [0x00] && RAW_HI[1..][1..][1..][1..] == [];
    assert Stream([0x00]) == 0;
    assert Stream([0x04, 0x00]) == 4;
    assert Stream([0xC8, 0x04, 0x00]) == 0x4C8;
  }

  lemma FixedSymbol(w: nat, i: nat)
    requires i < 288 && Prefix(w, FixedLengths()[i]) == Code(FixedLengths(), i)
    ensures Symbol(FixedLengths(), w) == i
  {
    SymbolIff(FixedLengths(), w, i);
  }

  /** What is left of the stream where its three codes start, and the bits found there. */
  lemma HiBits()
    ensures Shr(0x4C8CB, 3) == 0x9919 && Shr(0x4C8CB, 11) == 0x99 && Shr(0x4C8CB, 19) == 0
    ensures Prefix(0x9919, 8) == 0x98 && Prefix(0x99, 8) == 0x99 && Prefix(0, 7) == 0
  {
    HiFirst();
    HiSecond();
    HiEnd();
  }

  lemma HiFirst()
    ensures Shr(0x4C8CB, 3) == 0x9919 && Prefix(0x9919, 8) == 0x98
  {
    assert Prefix(0x9919, 4) == 9;
  }

  lemma HiSecond()
    ensures Shr(0x4C8CB, 11) == 0x99 && Prefix(0x99, 8) == 0x99
  {
    assert Prefix(0x99, 4) == 9;
  }

  lemma HiEnd()
    ensures Shr(0x4C8CB, 19) == 0 && Prefix(0, 7) == 0
  {
    HiSecond();
    ShrShr(0x4C8CB, 11, 8);
    assert Shr(0x99, 8) == 0;
  }

  /** After its 3 header bits the stream spells the two letters and the end of the block, 26 bits in all. */
  lemma HiIsWhole()
    ensures var v, lens, dists := Stream(RAW_HI), FixedLengths(), FixedDistances();
      && ReadItem(v, 3, lens, dists) == Tok(Literal(0x68), 11)
      && ReadItem(v, 11, lens, dists) == Tok(Literal(0x69), 19)
      && ReadItem(v, 19, lens, dists) == EndOfBlock(26)
  {
    HiStream();
    HiBits();
    hide Shr, Prefix, Code, Stream, Symbol;
    FixedCodes(0x68);
    FixedCodes(0x69);
    FixedCodes(256);
    FixedSymbol(0x9919, 0x68);
    FixedSymbol(0x99, 0x69);
    FixedSymbol(0, 256);
  }

  /**
   The one right report about this block is a bad code, however much room there is for its two bytes:
   the 7-bit code at bit 19 is complete, but only 13 bits are buffered and no byte is left.
   */
  lemma HiIsRefused(room: nat, end: BlockEnd, toks: seq<Token>, at: nat)
    requires room >= 2
    requires Explains(Stream(RAW_HI), |RAW_HI|, 3, 4, [], room, FixedLengths(), FixedDistances(),
                      end, toks, at)
    ensures end == BadCode
  {
    var v, lens, dists := Stream(RAW_HI), FixedLengths(), FixedDistances();
    HiIsWhole();
    hide FixedLengths, FixedDistances, ReadItem, ItemLoads, Stream;
    HiStarves();
    HiMeaning();
    CompleteBlock(v, |RAW_HI|, 3, 4, [], room, lens, dists, end, toks, at, HI, 19, 26);
  }

  lemma HiMeaning()
    ensures Lz77([], HI) == Some([0x68, 0x69])
  {
    var first := HI[..1];
    assert first == [Literal(0x68)] && first[..0] == [];
    var none: seq<Byte> := [];
    assert none + [0x68] == [0x68] && Lz77(none, []) == Some(none);
    assert Lz77(none, first) == Some([0x68]);
    assert [0x68] + [0x69] == [0x68, 0x69];
  }

  /** The two letters are read with the four bytes one refill loads; the code behind them is not. */
  lemma HiStarves()
    ensures var v, lens, dists := Stream(RAW_HI), FixedLengths(), FixedDistances();
      && After(v, 3, lens, dists, HI) == Some(19)
      && !Supplied(v, 4, 3, 4, lens, dists, HI)
  {
    var v, lens, dists := Stream(RAW_HI), FixedLengths(), FixedDistances();
    HiIsWhole();
    hide FixedLengths, FixedDistances, Stream, Symbol;
    var first := HI[..1];
    assert first == [Literal(0x68)] && first[..0] == [];
    LiteralLoads(v, 4, 3, 4, lens, dists);
    LiteralLoads(v, 4, 11, 4, lens, dists);
    hide ReadItem, ItemLoads;
    assert After(v, 3, lens, dists, first) == Some(11);
    assert TokensLoad(v, 4, 3, 4, lens, dists, first) == Some(4);
    assert ItemLoads(v, 4, 19, 4, lens, dists) == None by {
      EndStarves(v, 4, 19, 4, lens, dists);
    }
  }

  lemma LiteralLoads(v: nat, n: nat, c: nat, f: nat, lens: Lengths, dists: Lengths)
    requires ReadItem(v, c, lens, dists).Tok? && ReadItem(v, c, lens, dists).token.Literal?
    requires c + 16 <= 8 * f
    ensures ItemLoads(v, n, c, f, lens, dists) == Some(f)
  {
  }

  /** Whatever code stands there, it is not looked at. */
  lemma EndStarves(v: nat, n: nat, c: nat, f: nat, lens: Lengths, dists: Lengths)
    requires 8 * f < c + 16 && n <= f
    ensures ItemLoads(v, n, c, f, lens, dists) == None
  {
  }

  /** Both fixed codes are complete, so the tables can be built. */
  lemma FixedComplete()
    ensures Kraft(FixedLengths()) == Pow2(MAX_BITS) && Kraft(FixedDistances()) == Pow2(MAX_BITS)
  {
    hide FixedLengths, FixedDistances, KraftUpTo, End, Pow2;
    KnownPowers();
    FixedEnd();
    DistanceEnd();
    KraftIsEnd(FixedLengths(), MAX_BITS);
    KraftIsEnd(FixedDistances(), MAX_BITS);
  }

  lemma FixedCounts()
    ensures var lens := FixedLengths();
      && End(lens, 6) == 0
      && Count(lens, 7) == 24 && Count(lens, 8) == 152 && Count(lens, 9) == 112
      && forall i :: 0 <= i < |lens| ==> lens[i] <= 9
  {
    NoShorterCodes(FixedLengths(), 6, 7);
    FixedRank(7, 288);
    FixedRank(8, 288);
    FixedRank(9, 288);
    hide End, Rank;
  }

  lemma FixedEnd()
    ensures End(FixedLengths(), MAX_BITS) == 0x8000
  {
    hide FixedLengths, End, Rank;
    FixedCounts();
    EndOfNine(FixedLengths());
    EndDoubles(FixedLengths(), 9, MAX_BITS);
    assert Shl(512, 6) == 0x8000;
  }

  lemma EndOfNine(lens: Lengths)
    requires End(lens, 6) == 0 && Count(lens, 7) == 24 && Count(lens, 8) == 152 && Count(lens, 9) == 112
    ensures End(lens, 9) == 512
  {
    hide Rank;
    assert End(lens, 7) == 24 && End(lens, 8) == 200;
  }

  lemma DistanceEnd()
    ensures End(FixedDistances(), MAX_BITS) == 0x8000
  {
    NoShorterCodes(FixedDistances(), 4, 5);
    AllOfLength(FixedDistances(), 5, 32);
    EndOfFive(FixedDistances());
    assert forall i :: 0 <= i < |FixedDistances()| ==> FixedDistances()[i] <= 5;
    hide FixedDistances, End, Rank;
    EndDoubles(FixedDistances(), 5, MAX_BITS);
    assert Shl(32, 10) == 0x8000;
  }

  lemma EndOfFive(lens: Lengths)
    requires End(lens, 4) == 0 && Count(lens, 5) == 32
    ensures End(lens, 5) == 32
  {
    hide Rank;
  }

  lemma {:induction false} AllOfLength(lens: Lengths, s: nat, n: nat)
    requires n <= |lens| && forall i :: 0 <= i < |lens| ==> lens[i] == s
    ensures Rank(lens, s, n) == n
    decreases n
  {
    if n > 0 {
      AllOfLength(lens, s, n - 1);
    }
  }

  /** Lengths nobody has double the end of the codes. */
  lemma {:induction false} EndDoubles(lens: Lengths, s: nat, t: nat)
    requires s <= t && forall i :: 0 <= i < |lens| ==> lens[i] <= s
    ensures End(lens, t) == Shl(End(lens, s), t - s)
    decreases t
  {
    if s < t {
      EndDoubles(lens, s, t - 1);
      NoneOfLength(lens, t, |lens|);
    }
  }

  /** The tables of a block in the fixed code; building them cannot fail. */
  method FixedTables() returns (lengths: Tables, distances: Tables)
    ensures lengths.Shape() && lengths.Holds(FixedLengths())
    ensures distances.Shape() && distances.Holds(FixedDistances())
    ensures fresh(lengths.Arrays()) && fresh(distances.Arrays())
  {
    hide FixedLengths, FixedDistances, Kraft, Pow2, Represents;
    FixedComplete();
    lengths := new Tables();
    var built := lengths.Build(FixedLengths());
    distances := new Tables();
    built := distances.Build(FixedDistances());
  }

  /** One refill, for the first header bit, loads all four bytes. */
  lemma HeaderLoads()
    ensures Loaded(0, 1, 0) == 4 && Loaded(1, 2, 4) == 4
  {
  }

  /** The bit reader on those bytes after the three bits of the block header. */
  method ReadHeader() returns (bits: ZBits)
    ensures fresh(bits) && bits.Valid() && bits.data == RAW_HI && bits.consumed == 3 && bits.fed == 4
  {
    hide *;
    HeaderLoads();
    bits := new ZBits(RAW_HI);
    var final := bits.Receive(1);
    var kind := bits.Receive(2);
  }

  /** The modelled decoder, run on those bytes as raw DEFLATE with room for the output. */
  method DecodeHi(room: nat, expandable: bool) returns (end: BlockEnd)
    requires 2 <= room <= UINT_MAX
    ensures end == BadCode
  {
    hide Stream, FixedLengths, FixedDistances, Room, Shr, Low, Explains, Represents;
    var lengths, distances := FixedTables();
    var bits := ReadHeader();
    var z := new ZBuf(bits, lengths, distances, room, expandable, FixedLengths(), FixedDistances());
    ghost var toks, at;
    end, toks, at := z.ParseBlock(FixedLengths(), FixedDistances());
    HiIsRefused(Room(room, expandable), end, toks, at);
  }
}
