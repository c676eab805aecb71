/**
 The bit reader of the zlib decoder in stb_image. The compressed bytes are one little-endian
 number, the stream; the reader's `codeBuffer` is always a window of that number, whatever the
 pattern of refills, and reads past the end see zero bits.
 */
module ZStream {
  import opened Common
  import opened Words
  import opened CanonicalCode
  import opened ZHuffman

  const BYTE_BITS: nat := 8

  /** The bytes as one number, read from its least significant bit, followed by zeros. */
  function Stream(data: seq<Byte>): nat
  {
    if data == [] then 0 else data[0] + Shl(Stream(data[1..]), 8)
  }

  function ByteAt(data: seq<Byte>, n: nat): Byte
  {
    if n < |data| then data[n] else 0
  }

  lemma StreamHead(data: seq<Byte>, k: nat)
    requires k == 8 && data != []
    ensures Shr(Stream(data), k) == Stream(data[1..]) && Low(Stream(data), k) == data[0]
  {
    KnownPowers();
    hide Shr, Low, Pow2, Shl;
    ShrOfSum(data[0], Stream(data[1..]), k);
  }

  lemma {:induction false} StreamByte(data: seq<Byte>, n: nat, k: nat)
    requires k == 8
    ensures Low(Shr(Stream(data), 8 * n), k) == ByteAt(data, n)
    decreases n
  {
    hide *;
    ByteFacts(data, n);
    if data == [] {
      ShrZero(8 * n);
      LowIdentity(0, k);
    } else {
      StreamHead(data, k);
      if n > 0 {
        ShrShr(Stream(data), k, 8 * (n - 1));
        StreamByte(data[1..], n - 1, k);
      }
    }
  }

  lemma ByteFacts(data: seq<Byte>, n: nat)
    ensures data == [] ==> Stream(data) == 0 && ByteAt(data, n) == 0 && 0 < Pow2(8)
    ensures data != [] && n == 0 ==> ByteAt(data, n) == data[0] && Shr(Stream(data), 0) == Stream(data)
    ensures data != [] && n > 0 ==> ByteAt(data, n) == ByteAt(data[1..], n - 1)
  {
  }

  lemma {:induction false} ShrZero(k: nat)
    ensures Shr(0, k) == 0
    decreases k
  {
    if k > 0 {
      ShrZero(k - 1);
    }
  }

  /** The symbol whose canonical code starts the stream w, or -1 when no code does. */
  ghost function Symbol(lens: Lengths, w: nat): (r: int)
    ensures r == -1 || (r >= 0 && Matches(lens, r, w))
  {
    if m: nat :| Matches(lens, m, w) then m else -1
  }

  /** Symbol is the only symbol that matches, and -1 only when none does. */
  lemma SymbolIff(lens: Lengths, w: nat, m: nat)
    requires ValidLengths(lens)
    ensures Matches(lens, m, w) <==> Symbol(lens, w) == m
  {
    if Matches(lens, m, w) {
      MatchUnique(lens, m, Symbol(lens, w), w);
    }
  }

  /** Loading the next byte above the window extends the window by its bits. */
  lemma WindowGrows(w: nat, window: nat, bits: nat, k: nat, b: nat)
    requires window == Low(w, bits) && b == Low(Shr(w, bits), k)
    ensures Or(window, Shl(b, bits)) == Low(w, bits + k)
  {
    LowSplit(w, bits, k);
    OrShifted(window, b, bits);
  }

  /** Taking n bits off the window leaves the window of the stream n bits later. */
  lemma WindowShrinks(w: nat, bits: nat, n: nat)
    requires n <= bits
    ensures And(Low(w, bits), Pow2(n) - 1) == Low(w, n)
    ensures Shr(Low(w, bits), n) == Low(Shr(w, n), bits - n)
  {
    AndOnes(Low(w, bits), n);
    LowLow(w, n, bits);
    ShrLow(w, n, bits);
  }

  // ---------------------------------------------------------------- how far the data is loaded

  /** Bytes loaded by a refill at bit p, counting the zeros past the end: over 24 bits are buffered. */
  function Refilled(p: nat): nat
  {
    p / 8 + 4
  }

  /** Bytes loaded after reading k bits at bit p, of which f were loaded before. */
  function Loaded(p: nat, k: nat, f: nat): nat
  {
    if p + k <= 8 * f then f else Refilled(p)
  }

  /**
   Bytes loaded after looking a code up at bit p of n bytes, of which f were loaded before; None when
   fewer than 16 bits are buffered and there is no more data, which is reported as an error.
   */
  function Lookup(n: nat, p: nat, f: nat): Option<nat>
  {
    if p + 16 <= 8 * f then Some(f) else if f < n then Some(Refilled(p)) else None
  }

  class ZBits {
    const data: seq<Byte>
    /** Index of the next byte to load. */
    var zbuffer: nat
    var numBits: nat
    var codeBuffer: nat
    /** Bits handed out so far, and bytes loaded so far counting the zeros past the end. */
    ghost var consumed: nat
    ghost var fed: nat

    ghost predicate Valid()
      reads this
    {
      && zbuffer <= |data| && numBits <= 32
      && consumed + numBits == 8 * fed
      && (if zbuffer < |data| then fed == zbuffer else fed >= |data|)
      && codeBuffer == Low(Rest(), numBits)
    }

    /** What is still to be read. */
    ghost function Rest(): nat
      reads this
    {
      Shr(Stream(data), consumed)
    }

    constructor (data: seq<Byte>)
      ensures Valid() && this.data == data && consumed == 0 && fed == 0
    {
      this.data := data;
      zbuffer, numBits, codeBuffer := 0, 0, 0;
      consumed, fed := 0, 0;
    }

    method Get8() returns (b: Byte)
      requires zbuffer <= |data|
      modifies `zbuffer
      ensures b == ByteAt(data, old(zbuffer))
      ensures zbuffer == if old(zbuffer) < |data| then old(zbuffer) + 1 else old(zbuffer)
    {
      if zbuffer >= |data| {
        return 0;
      }
      b := data[zbuffer];
      zbuffer := zbuffer + 1;
    }

    /** Loads bytes until more than 24 bits are buffered; the stream position does not change. */
    method FillBits()
      requires Valid() && numBits <= 24
      modifies `zbuffer, `numBits, `codeBuffer, `fed
      ensures Valid() && numBits > 24 && fed == Refilled(consumed)
    {
      while true
        invariant Valid() && numBits <= 24
        decreases 24 - numBits
      {
        if codeBuffer >= Pow2(numBits) {
          assert false;  // the buffer never holds bits above numBits, so this guard is idle
        }
        LoadByte();
        if numBits > 24 {
          break;
        }
      }
    }

    method LoadByte()
      requires Valid() && numBits <= 24
      modifies `zbuffer, `numBits, `codeBuffer, `fed
      ensures Valid() && numBits == old(numBits) + 8
    {
      hide Shr, Low, Shl, Or, Pow2, Stream;
      ByteBeyondEnd();
      StreamByte(data, fed, BYTE_BITS);
      ShrShr(Stream(data), consumed, numBits);
      WindowGrows(Rest(), codeBuffer, numBits, BYTE_BITS, ByteAt(data, fed));
      var b := Get8();
      codeBuffer := Or(codeBuffer, Shl(b, numBits));
      numBits := numBits + 8;
      fed := fed + 1;
    }

    lemma ByteBeyondEnd()
      requires Valid()
      ensures ByteAt(data, zbuffer) == ByteAt(data, fed)
    {
    }

    /** Reads n bits, least significant first. */
    method Receive(n: nat) returns (k: nat)
      requires Valid() && n <= 13
      modifies `zbuffer, `numBits, `codeBuffer, `fed, `consumed
      ensures Valid() && consumed == old(consumed) + n
      ensures k == Low(old(Rest()), n) && fed == Loaded(old(consumed), n, old(fed))
    {
      hide Shr, Low, Stream;
      if numBits < n {
        FillBits();
      }
      WindowShrinks(Rest(), numBits, n);
      k := And(codeBuffer, Pow2(n) - 1);
      Skip(n);
    }

    /**
     Decodes one symbol through the tables. The result is the symbol canonical decoding gives, and
     exactly the bits of its code are consumed; nothing is consumed when no code matches, or when
     fewer than 16 bits are buffered and the data has run out, even if a code matches.
     */
    method Decode(z: Tables, ghost lens: Lengths) returns (r: int)
      requires Valid() && z.Shape() && z.Holds(lens)
      modifies `zbuffer, `numBits, `codeBuffer, `fed, `consumed
      ensures Valid()
      ensures match Lookup(|data|, old(consumed), old(fed))
        case None => r == -1
        case Some(f) => r == Symbol(lens, old(Rest())) && fed == f
      ensures consumed == old(consumed) + if r >= 0 then lens[r] else 0
    {
      hide Shr, Stream, Prefix, Top, First, End, FirstSymbol;
      if numBits < 16 {
        if zbuffer >= |data| {
          return -1;
        }
        FillBits();
      }
      ghost var w := Rest();
      KnownPowers();
      AndOnes(codeBuffer, FAST_BITS);
      LowLow(w, FAST_BITS, numBits);
      FastLookup(z.fast[..], lens, w);
      var b := z.fast[And(codeBuffer, 0x1FF)];
      if b != 0 {
        var s := b / 512;
        r := b % 512;
        SymbolIff(lens, w, r);
        Skip(s);
        return;
      }
      r := DecodeSlow(z, lens);
    }

    /** Drops s buffered bits: what every reader does after looking at them. */
    method Skip(s: nat)
      requires Valid() && s <= numBits
      modifies `numBits, `codeBuffer, `consumed
      ensures Valid() && consumed == old(consumed) + s
    {
      hide Shr, Low, Pow2, Stream;
      WindowShrinks(Rest(), numBits, s);
      ShrShr(Stream(data), consumed, s);
      codeBuffer := Shr(codeBuffer, s);
      numBits := numBits - s;
      consumed := consumed + s;
    }

    /** The search by preshifted end codes, for codes of more than 9 bits. */
    method DecodeSlow(z: Tables, ghost lens: Lengths) returns (r: int)
      requires Valid() && z.Shape() && z.Holds(lens) && numBits >= 16
      requires forall i: nat :: Matches(lens, i, Rest()) ==> lens[i] > FAST_BITS
      modifies `numBits, `codeBuffer, `consumed
      ensures Valid()
      ensures r == Symbol(lens, old(Rest()))
      ensures consumed == old(consumed) + if r >= 0 then lens[r] else 0
    {
      hide Stream, Prefix, Low, First, End, FirstSymbol, Rank;
      ghost var w := Rest();
      var k := BitReverse(codeBuffer, 16);
      BitReverseIsPrefix(codeBuffer, WINDOW);
      PrefixLow(w, numBits, WINDOW);
      PrefixBound(w, WINDOW);
      KnownPowers();
      var s := FirstAbove(z.maxcode, k);
      if s >= 16 {
        SlowMiss(z.maxcode[..], lens, w);
        return -1;
      }
      ghost var m := SlowLookup(z.firstcode[..], z.maxcode[..], z.firstsymbol[..],
                                z.size[..], z.value[..], lens, w, s);
      var b := Shr(k, 16 - s) - z.firstcode[s] + z.firstsymbol[s];
      if b >= NSYMS || z.size[b] != s {
        assert false;  // the slot always lies inside the tables and holds a code of s bits
      }
      r := z.value[b];
      SymbolIff(lens, w, m);
      Skip(s);
    }

    /** The smallest length above 9 whose preshifted end is above k; 16 is the sentinel. */
    method FirstAbove(maxcode: array<nat>, k: nat) returns (s: nat)
      requires maxcode.Length == 17 && k < maxcode[16]
      ensures FAST_BITS < s <= 16 && k < maxcode[s]
      ensures forall t :: FAST_BITS < t < s ==> maxcode[t] <= k
    {
      s := FAST_BITS + 1;
      while k >= maxcode[s]
        invariant FAST_BITS < s <= 16
        invariant forall t :: FAST_BITS < t < s ==> maxcode[t] <= k
        decreases 16 - s
      {
        s := s + 1;
      }
    }
  }
}
