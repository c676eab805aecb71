/**
 The block decoder of stb_image's zlib: Huffman symbols are read through the tables, matches are
 copied inside one output buffer, and the buffer is relocated whenever it is full.
 */
module ZBlock {
  import opened Common
  import opened Words
  import opened CanonicalCode
  import opened ZHuffman
  import opened ZStream
  import opened Inflate

  /** How decoding a block can end. Reserved symbols leave the modelled behaviour. */
  datatype BlockEnd = Finished | BadCode | BadDistance | OutputLimit | ReservedSymbol

  // ---------------------------------------------------------------- how far the data is loaded

  /** Bytes loaded after reading a distance at bit c; None when its code meets the end of the data. */
  ghost function DistanceLoads(v: nat, n: nat, c: nat, f: nat, dists: Lengths): Option<nat>
  {
    match Lookup(n, c, f)
    case None => None
    case Some(f') =>
      var d := Symbol(dists, At(v, c));
      if 0 <= d < 30 then Some(Loaded(c + dists[d], DistExtra(d), f')) else Some(f')
  }

  /** The same for the rest of a match whose length code is 257 + z. */
  ghost function MatchLoads(v: nat, n: nat, c: nat, f: nat, z: nat, dists: Lengths): Option<nat>
  {
    DistanceLoads(v, n, c + LengthExtra(z), Loaded(c, LengthExtra(z), f), dists)
  }

  /** The same for the item at bit c. */
  ghost function ItemLoads(v: nat, n: nat, c: nat, f: nat, lens: Lengths, dists: Lengths): Option<nat>
  {
    match Lookup(n, c, f)
    case None => None
    case Some(f') =>
      var s := Symbol(lens, At(v, c));
      if 257 <= s < 286 then MatchLoads(v, n, c + lens[s], f', s - 257, dists) else Some(f')
  }

  /** The same for the tokens from bit c on. */
  ghost function TokensLoad(v: nat, n: nat, c: nat, f: nat, lens: Lengths, dists: Lengths,
                            toks: seq<Token>): Option<nat>
  {
    if toks == [] then Some(f)
    else
      var init := toks[..|toks| - 1];
      match (After(v, c, lens, dists, init), TokensLoad(v, n, c, f, lens, dists, init))
      case (Some(mid), Some(g)) => ItemLoads(v, n, mid, g, lens, dists)
      case _ => None
  }

  /** No code of the tokens, nor the one at their end, meets the end of the data. */
  ghost predicate Supplied(v: nat, n: nat, c: nat, f: nat, lens: Lengths, dists: Lengths,
                           toks: seq<Token>)
  {
    match (After(v, c, lens, dists, toks), TokensLoad(v, n, c, f, lens, dists, toks))
    case (Some(last), Some(g)) => ItemLoads(v, n, last, g, lens, dists).Some?
    case _ => false
  }

  // ---------------------------------------------------------------- how far the output can grow

  /** The largest size a buffer reaches: a growing one doubles as long as 32 bits hold its size. */
  function Room(size: nat, expandable: bool): (r: nat)
    requires 0 < size <= UINT_MAX
    ensures size <= r <= UINT_MAX
    ensures if expandable then r > UINT_MAX / 2 else r == size
    decreases UINT_MAX - size
  {
    if !expandable || size > UINT_MAX / 2 then size else Room(2 * size, expandable)
  }

  // ---------------------------------------------------------------- what has to be reported

  /**
   What the decoder reports about an item when `out` has been written; None when it carries the item
   out and goes on. `loads` is what reading the item loads.
   */
  ghost function Verdict(item: Item, loads: Option<nat>, out: seq<Byte>, room: nat): Option<BlockEnd>
  {
    if loads == None then Some(BadCode)
    else
      match item
      case NoCode => Some(BadCode)
      case Reserved => Some(ReservedSymbol)
      case EndOfBlock(_) => Some(Finished)
      case Tok(t, _) =>
        if Emit(out, t) == None then Some(BadDistance)
        else if |out| + TokenSize(t) > room then Some(OutputLimit)
        else None
  }

  /**
   What decoding a block from bit c0 of an n-byte stream v, with f0 bytes loaded and output out0, has
   to report: the tokens carried out end at `at` and mean an output that fits, and `end` is the
   verdict on what stands there.
   */
  ghost predicate Explains(v: nat, n: nat, c0: nat, f0: nat, out0: seq<Byte>, room: nat,
                           lens: Lengths, dists: Lengths,
                           end: BlockEnd, toks: seq<Token>, at: nat)
  {
    && After(v, c0, lens, dists, toks) == Some(at)
    && Lz77(out0, toks).Some? && |Lz77(out0, toks).value| <= room
    && TokensLoad(v, n, c0, f0, lens, dists, toks).Some?
    && var loads := TokensLoad(v, n, c0, f0, lens, dists, toks).value;
       Verdict(ReadItem(v, at, lens, dists), ItemLoads(v, n, at, loads, lens, dists),
               Lz77(out0, toks).value, room) == Some(end)
  }

  ghost function TokenSize(t: Token): nat
  {
    match t
    case Literal(_) => 1
    case Match(len, _) => len
  }

  // ---------------------------------------------------------------- the reference has one answer

  lemma {:induction false} PrefixRead(v: nat, c: nat, lens: Lengths, dists: Lengths,
                                      toks: seq<Token>, n: nat)
    requires n <= |toks| && After(v, c, lens, dists, toks).Some?
    ensures After(v, c, lens, dists, toks[..n]).Some?
    ensures n < |toks| ==>
      var item := ReadItem(v, After(v, c, lens, dists, toks[..n]).value, lens, dists);
      item.Tok? && item.token == toks[n]
    decreases |toks|
  {
    if n == |toks| {
      assert toks[..n] == toks;
    } else {
      var init := toks[..|toks| - 1];
      if n < |init| {
        PrefixRead(v, c, lens, dists, init, n);
        assert init[..n] == toks[..n] && init[n] == toks[n];
      } else {
        assert toks[..n] == init;
      }
    }
  }

  /** Tokens read from one place agree: the shorter list is a prefix of the longer one. */
  lemma {:induction false} SameTokens(v: nat, c: nat, lens: Lengths, dists: Lengths,
                                      a: seq<Token>, b: seq<Token>)
    requires |a| <= |b|
    requires After(v, c, lens, dists, a).Some? && After(v, c, lens, dists, b).Some?
    ensures a == b[..|a|]
    decreases |a|
  {
    if a != [] {
      hide *;
      var n := |a| - 1;
      PrefixRead(v, c, lens, dists, a, n);
      PrefixRead(v, c, lens, dists, b, n);
      SameTokens(v, c, lens, dists, a[..n], b);
      LongerPrefix(a, b, n);
    }
  }

  lemma LongerPrefix(a: seq<Token>, b: seq<Token>, n: nat)
    requires |a| == n + 1 <= |b| && a[..n] == b[..n] && a[n] == b[n]
    ensures a == b[..|a|]
  {
    forall i | 0 <= i < n ensures a[i] == b[i] {
      assert a[..n][i] == b[..n][i];
    }
  }

  lemma {:induction false} PrefixDecodes(out: seq<Byte>, toks: seq<Token>, n: nat)
    requires n <= |toks| && Lz77(out, toks).Some?
    ensures Lz77(out, toks[..n]).Some?
    ensures n < |toks| ==> Emit(Lz77(out, toks[..n]).value, toks[n]).Some?
    decreases |toks|
  {
    if n == |toks| {
      assert toks[..n] == toks;
    } else {
      var init := toks[..|toks| - 1];
      if n < |init| {
        PrefixDecodes(out, init, n);
        assert init[..n] == toks[..n] && init[n] == toks[n];
      } else {
        assert toks[..n] == init;
      }
    }
  }

  lemma {:induction false} AfterMonotone(v: nat, c: nat, lens: Lengths, dists: Lengths,
                                         toks: seq<Token>, n: nat)
    requires n <= |toks| && After(v, c, lens, dists, toks).Some?
    ensures After(v, c, lens, dists, toks[..n]).Some?
    ensures After(v, c, lens, dists, toks[..n]).value <= After(v, c, lens, dists, toks).value
    decreases |toks|
  {
    PrefixRead(v, c, lens, dists, toks, n);
    if n == |toks| {
      assert toks[..n] == toks;
    } else {
      var init := toks[..|toks| - 1];
      AfterMonotone(v, c, lens, dists, init, n);
      assert init[..n] == toks[..n];
    }
  }

  /** Each token adds its size to the output. */
  lemma {:induction false} OutputSize(out: seq<Byte>, toks: seq<Token>, n: nat)
    requires n <= |toks| && Lz77(out, toks).Some?
    ensures Lz77(out, toks[..n]).Some?
    ensures |Lz77(out, toks[..n]).value| <= |Lz77(out, toks).value|
    ensures n < |toks| ==>
      |Lz77(out, toks[..n]).value| + TokenSize(toks[n]) <= |Lz77(out, toks).value|
    decreases |toks|
  {
    if n == |toks| {
      assert toks[..n] == toks;
    } else {
      var init := toks[..|toks| - 1];
      if n < |init| {
        OutputSize(out, init, n);
        assert init[..n] == toks[..n] && init[n] == toks[n];
      } else {
        assert toks[..n] == init;
      }
    }
  }

  lemma {:induction false} PrefixLoads(v: nat, n: nat, c: nat, f: nat, lens: Lengths, dists: Lengths,
                                       toks: seq<Token>, k: nat)
    requires k <= |toks| && TokensLoad(v, n, c, f, lens, dists, toks).Some?
    ensures TokensLoad(v, n, c, f, lens, dists, toks[..k]).Some?
    ensures k < |toks| ==> Supplied(v, n, c, f, lens, dists, toks[..k])
    decreases |toks|
  {
    if k == |toks| {
      assert toks[..k] == toks;
    } else {
      hide ItemLoads;
      var init := toks[..|toks| - 1];
      if k < |init| {
        PrefixLoads(v, n, c, f, lens, dists, init, k);
        assert init[..k] == toks[..k];
      } else {
        assert toks[..k] == init;
      }
    }
  }

  /** A report that stops inside a longer list of tokens has a verdict on the next one of them. */
  lemma StoppedBefore(v: nat, n: nat, c0: nat, f0: nat, out0: seq<Byte>, room: nat,
                      lens: Lengths, dists: Lengths,
                      end: BlockEnd, toks: seq<Token>, at: nat, longer: seq<Token>)
    requires Explains(v, n, c0, f0, out0, room, lens, dists, end, toks, at)
    requires |toks| < |longer|
    requires After(v, c0, lens, dists, longer).Some? && Lz77(out0, longer).Some?
    ensures end == BadCode || end == OutputLimit
    ensures end == BadCode ==> TokensLoad(v, n, c0, f0, lens, dists, longer) == None
    ensures end == OutputLimit ==> |Lz77(out0, longer).value| > room
  {
    hide ReadItem, ItemLoads, After, TokensLoad, Lz77;
    SameTokens(v, c0, lens, dists, toks, longer);
    PrefixRead(v, c0, lens, dists, longer, |toks|);
    PrefixDecodes(out0, longer, |toks|);
    OutputSize(out0, longer, |toks|);
    if TokensLoad(v, n, c0, f0, lens, dists, longer).Some? {
      PrefixLoads(v, n, c0, f0, lens, dists, longer, |toks|);
    }
  }

  /** There is one right report: the same tokens, the same place and the same end. */
  lemma OneReport(v: nat, n: nat, c0: nat, f0: nat, out0: seq<Byte>, room: nat,
                  lens: Lengths, dists: Lengths,
                  end: BlockEnd, toks: seq<Token>, at: nat,
                  end': BlockEnd, toks': seq<Token>, at': nat)
    requires Explains(v, n, c0, f0, out0, room, lens, dists, end, toks, at)
    requires Explains(v, n, c0, f0, out0, room, lens, dists, end', toks', at')
    ensures end == end' && toks == toks' && at == at'
  {
    hide ReadItem, ItemLoads, After, TokensLoad, Lz77, Verdict;
    if |toks| < |toks'| {
      StoppedBefore(v, n, c0, f0, out0, room, lens, dists, end, toks, at, toks');
    } else if |toks'| < |toks| {
      StoppedBefore(v, n, c0, f0, out0, room, lens, dists, end', toks', at', toks);
    } else {
      SameTokens(v, c0, lens, dists, toks, toks');
      assert toks'[..|toks|] == toks';
    }
  }

  /**
   When the stream spells a whole block whose distances are all in range, the decoder finishes, with
   exactly its tokens, if and only if no code of the block meets the end of the data and the whole
   output fits. Otherwise it reports one of the two that does not hold.
   */
  lemma CompleteBlock(v: nat, n: nat, c0: nat, f0: nat, out0: seq<Byte>, room: nat,
                      lens: Lengths, dists: Lengths,
                      end: BlockEnd, toks: seq<Token>, at: nat,
                      spelled: seq<Token>, last: nat, after: nat)
    requires Explains(v, n, c0, f0, out0, room, lens, dists, end, toks, at)
    requires After(v, c0, lens, dists, spelled) == Some(last)
    requires ReadItem(v, last, lens, dists) == EndOfBlock(after)
    requires Lz77(out0, spelled).Some?
    ensures end == Finished <==>
      Supplied(v, n, c0, f0, lens, dists, spelled) && |Lz77(out0, spelled).value| <= room
    ensures end == Finished ==> toks == spelled && at == last
    ensures end == Finished || end == BadCode || end == OutputLimit
    ensures end == BadCode ==> !Supplied(v, n, c0, f0, lens, dists, spelled)
    ensures end == OutputLimit ==> |Lz77(out0, spelled).value| > room
  {
    hide ReadItem, ItemLoads, After, TokensLoad, Lz77;
    if |spelled| < |toks| {
      SameTokens(v, c0, lens, dists, spelled, toks);
      PrefixRead(v, c0, lens, dists, toks, |spelled|);
      assert false;
    }
    if |toks| == |spelled| {
      SameTokens(v, c0, lens, dists, toks, spelled);
      assert spelled[..|toks|] == spelled;
    } else {
      StoppedBefore(v, n, c0, f0, out0, room, lens, dists, end, toks, at, spelled);
    }
  }

  /** Reading an item only moves forwards, and so do the codes inside it. */
  lemma CodesAhead(v: nat, n: nat, c: nat, f: nat, lens: Lengths, dists: Lengths)
    requires ReadItem(v, c, lens, dists).Tok?
    requires ReadItem(v, c, lens, dists).next + 16 <= 8 * n
    ensures ItemLoads(v, n, c, f, lens, dists).Some?
  {
  }

  lemma {:induction false} TokensAhead(v: nat, n: nat, c: nat, f: nat, lens: Lengths, dists: Lengths,
                                       toks: seq<Token>)
    requires After(v, c, lens, dists, toks).Some?
    requires After(v, c, lens, dists, toks).value + 16 <= 8 * n
    ensures TokensLoad(v, n, c, f, lens, dists, toks).Some?
    decreases |toks|
  {
    if toks != [] {
      hide ReadItem, ItemLoads;
      var init := toks[..|toks| - 1];
      AfterMonotone(v, c, lens, dists, toks, |init|);
      var mid := After(v, c, lens, dists, init).value;
      TokensAhead(v, n, c, f, lens, dists, init);
      CodesAhead(v, n, mid, TokensLoad(v, n, c, f, lens, dists, init).value, lens, dists);
    }
  }

  /**
   Sixteen bits of data from the end-of-block code on are enough to read every code of the block,
   however many bytes were loaded before it. The zlib checksum behind the last block has 32.
   */
  lemma SixteenBitsSupply(v: nat, n: nat, c0: nat, f0: nat, lens: Lengths, dists: Lengths,
                          spelled: seq<Token>, last: nat)
    requires After(v, c0, lens, dists, spelled) == Some(last)
    requires ReadItem(v, last, lens, dists).EndOfBlock? && last + 16 <= 8 * n
    ensures Supplied(v, n, c0, f0, lens, dists, spelled)
  {
    TokensAhead(v, n, c0, f0, lens, dists, spelled);
  }

  // ---------------------------------------------------------------- the decoder

  datatype MatchRead = MatchOf(len: nat, dist: nat) | NoMatchCode | ReservedDistance

  /** What reading a match says about the item: now and loaded are where the reader stands after it. */
  ghost predicate MatchExplained(r: MatchRead, item: Item, loads: Option<nat>, now: nat, loaded: nat)
  {
    match r
    case MatchOf(len, dist) =>
      item == Tok(Match(len, dist), now) && loads == Some(loaded) && len >= 3 && dist >= 1
    case NoMatchCode => item == NoCode || loads == None
    case ReservedDistance => item == Reserved && loads.Some?
  }

  /** One step of the decoder: it either emits a token and goes on at zo, or stops. */
  datatype Progress = Continue(zo: nat) | Stop(end: BlockEnd)

  /** One more token extends both the reading and its meaning. */
  lemma TokenRead(v: nat, n: nat, c0: nat, f0: nat, lens: Lengths, dists: Lengths,
                  toks: seq<Token>, t: Token, at: nat, next: nat, loads: nat, loads': nat,
                  out0: seq<Byte>, out: seq<Byte>, out': seq<Byte>)
    requires After(v, c0, lens, dists, toks) == Some(at) && Lz77(out0, toks) == Some(out)
    requires ReadItem(v, at, lens, dists) == Tok(t, next) && Emit(out, t) == Some(out')
    requires TokensLoad(v, n, c0, f0, lens, dists, toks) == Some(loads)
    requires ItemLoads(v, n, at, loads, lens, dists) == Some(loads')
    ensures TokensLoad(v, n, c0, f0, lens, dists, toks + [t]) == Some(loads')
    ensures After(v, c0, lens, dists, toks + [t]) == Some(next)
    ensures Lz77(out0, toks + [t]) == Some(out')
  {
    assert (toks + [t])[..|toks|] == toks;
  }

  class ZBuf {
    const bits: ZBits
    const lengthTables: Tables
    const distanceTables: Tables
    const expandable: bool
    var start: array<Byte>
    var zout: nat

    ghost predicate Valid(lens: Lengths, dists: Lengths)
      reads this, bits, lengthTables.Arrays(), distanceTables.Arrays()
    {
      && bits.Valid()
      && lengthTables.Shape() && lengthTables.Holds(lens)
      && distanceTables.Shape() && distanceTables.Holds(dists)
      && BufferValid()
    }

    ghost predicate BufferValid()
      reads this
    {
      && zout <= start.Length && 0 < start.Length <= UINT_MAX
      && start !in lengthTables.Arrays() && start !in distanceTables.Arrays()
    }

    /** The largest size the buffer can reach. */
    ghost function Capacity(): nat
      reads this
      requires BufferValid()
    {
      Room(start.Length, expandable)
    }

    ghost function Output(): seq<Byte>
      reads this, start
      requires BufferValid()
    {
      start[..zout]
    }

    constructor (bits: ZBits, lengthTables: Tables, distanceTables: Tables, size: nat,
                 expandable: bool, ghost lens: Lengths, ghost dists: Lengths)
      requires bits.Valid() && 0 < size <= UINT_MAX
      requires lengthTables.Shape() && lengthTables.Holds(lens)
      requires distanceTables.Shape() && distanceTables.Holds(dists)
      ensures Valid(lens, dists) && Output() == []
      ensures this.bits == bits && this.expandable == expandable
      ensures Capacity() == Room(size, expandable) && fresh(start)
    {
      this.bits := bits;
      this.lengthTables := lengthTables;
      this.distanceTables := distanceTables;
      this.expandable := expandable;
      start := new Byte[size];
      zout := 0;
    }

    /**
     Makes room for n bytes after position at, relocating the buffer, exactly when the buffer may grow
     and they fit in the largest size it can reach. The bytes before that position keep their values;
     the doubling stops for a buffer that starts with some room.
     */
    method Expand(at: nat, n: nat) returns (ok: bool)
      requires BufferValid() && at <= start.Length
      modifies `start, `zout
      ensures BufferValid() && zout == at
      ensures start == old(start) || fresh(start)
      ensures ok <==> expandable && at + n <= old(Capacity())
      ensures Capacity() == old(Capacity())
      ensures ok ==> fresh(start) && at + n <= start.Length
      ensures ok ==> start[..at] == old(start[..at])
      ensures !ok ==> start == old(start)
    {
      zout := at;
      if !expandable {
        return false;
      }
      var limit := start.Length;
      if UINT_MAX - at < n {
        return false;
      }
      while at + n > limit
        invariant start.Length <= limit <= UINT_MAX && Room(limit, true) == Capacity()
        decreases UINT_MAX - limit
      {
        if limit > UINT_MAX / 2 {
          return false;
        }
        limit := 2 * limit;
      }
      var q := new Byte[limit];
      forall i | 0 <= i < start.Length {
        q[i] := start[i];
      }
      start := q;
      return true;
    }

    /** Copies len bytes from dist back to position at, front to back. */
    method CopyMatch(at: nat, len: nat, dist: nat) returns (end: nat)
      requires 1 <= dist <= at && at + len <= start.Length
      modifies start
      ensures end == at + len
      ensures start[..end] == CopyBytes(old(start[..at]), dist, len)
    {
      hide *;
      ghost var out := start[..at];
      CopyNothing(out, dist);
      var zout := at;
      var p := at - dist;
      if dist == 1 {
        var v := start[p];
        while zout < at + len
          invariant at <= zout <= at + len
          invariant start[..zout] == CopyBytes(out, 1, zout - at)
          invariant zout > 0 && start[zout - 1] == v
        {
          start[zout] := v;
          CopyStep(start[..zout], start[..zout + 1], out, dist, zout - at);
          zout := zout + 1;
        }
      } else {
        while zout < at + len
          invariant at <= zout <= at + len && p == zout - dist
          invariant start[..zout] == CopyBytes(out, dist, zout - at)
        {
          start[zout] := start[p];
          CopyStep(start[..zout], start[..zout + 1], out, dist, zout - at);
          zout := zout + 1;
          p := p + 1;
        }
      }
      end := zout;
    }

    lemma CopyNothing(out: seq<Byte>, dist: nat)
      requires 1 <= dist <= |out|
      ensures CopyBytes(out, dist, 0) == out
    {
    }

    lemma CopyStep(before: seq<Byte>, now: seq<Byte>, out: seq<Byte>, dist: nat, done: nat)
      requires 1 <= dist <= |out| && before == CopyBytes(out, dist, done)
      requires now == before + [before[|before| - dist]]
      ensures now == CopyBytes(out, dist, done + 1)
    {
    }

    /** Reads a length or distance whose code has the given base and number of extra bits. */
    method ReadExtra(base: nat, extra: nat) returns (x: nat)
      requires bits.Valid() && extra <= 13
      modifies bits
      ensures bits.Valid() && bits.consumed == old(bits.consumed) + extra
      ensures bits.fed == Loaded(old(bits.consumed), extra, old(bits.fed))
      ensures x == WithExtra(Stream(bits.data), old(bits.consumed), base, extra)
    {
      x := base;
      if extra != 0 {
        var more := bits.Receive(extra);
        x := x + more;
      }
    }

    /** Reads the distance of a match of length len. */
    method ReadDistanceBody(len: nat, ghost dists: Lengths) returns (r: MatchRead)
      requires bits.Valid() && distanceTables.Shape() && distanceTables.Holds(dists) && len >= 3
      modifies bits
      ensures bits.Valid()
      ensures var v, c, f := Stream(bits.data), old(bits.consumed), old(bits.fed);
        MatchExplained(r, ReadDistance(v, c, len, dists), DistanceLoads(v, |bits.data|, c, f, dists),
                       bits.consumed, bits.fed)
    {
      hide DistBase, DistExtra, Shr, Low, Stream, Represents, Lookup, Loaded;
      ghost var v, c := Stream(bits.data), bits.consumed;
      ghost var item := ReadDistance(v, c, len, dists);
      var d := bits.Decode(distanceTables, dists);
      if d < 0 {
        return NoMatchCode;
      }
      if d >= 30 {
        assert item == Reserved;
        return ReservedDistance;
      }
      var base, extra := DistanceCode(d);
      var dist := ReadExtra(base, extra);
      assert item == Tok(Match(len, dist), bits.consumed);
      return MatchOf(len, dist);
    }

    /** Reads the rest of a match whose length code is 257 + z. */
    method ReadMatchBody(z: nat, ghost dists: Lengths) returns (r: MatchRead)
      requires bits.Valid() && distanceTables.Shape() && distanceTables.Holds(dists) && z < 29
      modifies bits
      ensures bits.Valid()
      ensures var v, c, f := Stream(bits.data), old(bits.consumed), old(bits.fed);
        MatchExplained(r, ReadMatch(v, c, z, dists), MatchLoads(v, |bits.data|, c, f, z, dists),
                       bits.consumed, bits.fed)
    {
      hide LengthBase, LengthExtra, ReadDistance, DistanceLoads, Shr, Low, Stream, Represents, Loaded;
      var base, extra := LengthCode(z);
      var len := ReadExtra(base, extra);
      r := ReadDistanceBody(len, dists);
    }

    method LengthCode(z: nat) returns (base: nat, extra: nat)
      requires z < 29
      ensures base == LengthBase(z) && extra == LengthExtra(z) <= 5
    {
      LengthTable(z);
      base, extra := LENGTH_BASE[z], LENGTH_EXTRA[z];
    }

    method DistanceCode(d: nat) returns (base: nat, extra: nat)
      requires d < 30
      ensures base == DistBase(d) && extra == DistExtra(d) <= 13
    {
      DistTable(d);
      base, extra := DIST_BASE[d], DIST_EXTRA[d];
    }

    /** Appends one byte at zo, expanding the buffer when it is full; refuses only what cannot fit. */
    method EmitLiteral(zo: nat, b: Byte) returns (ok: bool)
      requires BufferValid() && zo <= start.Length
      modifies `start, `zout, start
      ensures BufferValid() && (start == old(start) || fresh(start))
      ensures ok ==> zo + 1 <= start.Length && start[..zo + 1] == old(start[..zo]) + [b]
      ensures ok <==> zo + 1 <= old(Capacity())
      ensures Capacity() == old(Capacity())
    {
      ok := true;
      if zo >= start.Length {
        ok := Expand(zo, 1);
        if !ok {
          return;
        }
      }
      start[zo] := b;
      assert start[..zo + 1] == start[..zo] + [b];
    }

    /** Appends a match at zo, expanding the buffer when it is too small; refuses only what cannot fit. */
    method EmitMatch(zo: nat, len: nat, dist: nat) returns (ok: bool)
      requires BufferValid() && zo <= start.Length && 1 <= dist <= zo
      modifies `start, `zout, start
      ensures BufferValid() && (start == old(start) || fresh(start))
      ensures ok ==> zo + len <= start.Length
                     && start[..zo + len] == CopyBytes(old(start[..zo]), dist, len)
      ensures ok <==> zo + len <= old(Capacity())
      ensures Capacity() == old(Capacity())
    {
      ok := true;
      if zo + len > start.Length {
        ok := Expand(zo, len);
        if !ok {
          return;
        }
      }
      var end := CopyMatch(zo, len, dist);
    }

    /** Decodes one item and carries it out. */
    method ParseItem(zo: nat, ghost lens: Lengths, ghost dists: Lengths)
      returns (p: Progress, ghost t: Token)
      requires Valid(lens, dists) && zo <= start.Length
      modifies this, bits, start
      ensures bits.Valid()
      ensures var v, c, f := Stream(bits.data), old(bits.consumed), old(bits.fed);
        var item, loads := ReadItem(v, c, lens, dists), ItemLoads(v, |bits.data|, c, f, lens, dists);
        && TurnDone(p, t, item, loads, old(start[..zo]), old(Capacity()), lens, dists)
        && (p.Continue? ==> start == old(start) || fresh(start))
        && (p == Stop(Finished) ==>
              && Valid(lens, dists) && start == old(start) && zout == zo
              && start[..zo] == old(start[..zo])
              && item == EndOfBlock(bits.consumed) && loads == Some(bits.fed))
    {
      hide ReadMatch, MatchLoads, Shr, Low, Stream, Represents, Lookup, Room;
      ghost var v, n, c, f := Stream(bits.data), |bits.data|, bits.consumed, bits.fed;
      ghost var item, loads := ReadItem(v, c, lens, dists), ItemLoads(v, n, c, f, lens, dists);
      ghost var out := start[..zo];
      t := Literal(0);
      var z := bits.Decode(lengthTables, lens);
      if z < 256 {
        if z < 0 {
          return Stop(BadCode), t;
        }
        t := Literal(z);
        assert item == Tok(t, bits.consumed) && Emit(out, t) == Some(out + [z]);
        var ok := EmitLiteral(zo, z);
        p := if ok then Continue(zo + 1) else Stop(OutputLimit);
      } else if z == 256 {
        assert item == EndOfBlock(bits.consumed);
        zout := zo;
        p := Stop(Finished);
      } else if z >= 286 {
        assert item == Reserved;
        p := Stop(ReservedSymbol);
      } else {
        assert item == ReadMatch(v, bits.consumed, z - 257, dists);
        assert loads == MatchLoads(v, n, bits.consumed, bits.fed, z - 257, dists);
        p, t := ParseMatch(zo, z - 257, lens, dists);
      }
    }

    /** One turn of the loop did what the verdict on its item asks for. */
    ghost predicate TurnDone(p: Progress, t: Token, item: Item, loads: Option<nat>, out: seq<Byte>,
                             room: nat, lens: Lengths, dists: Lengths)
      reads this, bits, start, lengthTables.Arrays(), distanceTables.Arrays()
    {
      match p
      case Continue(zo) =>
        && Valid(lens, dists) && Capacity() == room && |out| < zo <= start.Length
        && Verdict(item, loads, out, room) == None
        && item == Tok(t, bits.consumed) && loads == Some(bits.fed)
        && Emit(out, t) == Some(start[..zo])
      case Stop(end) => Verdict(item, loads, out, room) == Some(end)
    }

    /** Decodes the rest of a match and copies it. */
    method ParseMatch(zo: nat, z: nat, ghost lens: Lengths, ghost dists: Lengths)
      returns (p: Progress, ghost t: Token)
      requires Valid(lens, dists) && zo <= start.Length && z < 29
      modifies this, bits, start
      ensures bits.Valid() && p != Stop(Finished)
      ensures var v, c, f := Stream(bits.data), old(bits.consumed), old(bits.fed);
        var item, loads := ReadMatch(v, c, z, dists), MatchLoads(v, |bits.data|, c, f, z, dists);
        && TurnDone(p, t, item, loads, old(start[..zo]), old(Capacity()), lens, dists)
        && (p.Continue? ==> start == old(start) || fresh(start))
    {
      hide ReadMatch, MatchLoads, Shr, Low, Stream, Represents, Room;
      t := Literal(0);
      var m := ReadMatchBody(z, dists);
      match m
      case NoMatchCode => p := Stop(BadCode);
      case ReservedDistance => p := Stop(ReservedSymbol);
      case MatchOf(len, dist) =>
        t := Match(len, dist);
        if zo < dist {
          return Stop(BadDistance), t;
        }
        var ok := EmitMatch(zo, len, dist);
        p := if ok then Continue(zo + len) else Stop(OutputLimit);
    }

    /**
     Decodes one block. What it reports is the one right report about the stream and the room left
     (Explains, OneReport); a finished block leaves exactly the LZ77 meaning of its tokens in the
     output and the stream just after it.
     */
    method ParseBlock(ghost lens: Lengths, ghost dists: Lengths)
      returns (end: BlockEnd, ghost toks: seq<Token>, ghost at: nat)
      requires Valid(lens, dists)
      modifies this, bits, start
      ensures bits.Valid()
      ensures Explains(Stream(bits.data), |bits.data|, old(bits.consumed), old(bits.fed),
                       old(Output()), old(Capacity()), lens, dists, end, toks, at)
      ensures end == Finished ==>
                && Valid(lens, dists) && Lz77(old(Output()), toks) == Some(Output())
                && ReadItem(Stream(bits.data), at, lens, dists) == EndOfBlock(bits.consumed)
    {
      hide ReadItem, ItemLoads, TokensLoad, After, Lz77, Shr, Low, Stream, Represents, Room, Verdict;
      ghost var v, n, c0, f0 := Stream(bits.data), |bits.data|, bits.consumed, bits.fed;
      ghost var out0, room := Output(), Capacity();
      NothingRead(v, n, c0, f0, lens, dists, out0);
      var zo := zout;
      toks := [];
      while true
        invariant Valid(lens, dists) && zo <= start.Length && Capacity() == room
        invariant start == old(start) || fresh(start)
        invariant After(v, c0, lens, dists, toks) == Some(bits.consumed)
        invariant TokensLoad(v, n, c0, f0, lens, dists, toks) == Some(bits.fed)
        invariant Lz77(out0, toks) == Some(start[..zo])
        decreases UINT_MAX - zo
      {
        at := bits.consumed;
        ghost var loads, out := bits.fed, start[..zo];
        var p: Progress;
        ghost var t;
        p, t := ParseItem(zo, lens, dists);
        match p
        case Stop(e) => return e, toks, at;
        case Continue(zo') =>
          TokenRead(v, n, c0, f0, lens, dists, toks, t, at, bits.consumed, loads, bits.fed,
                    out0, out, start[..zo']);
          toks := toks + [t];
          zo := zo';
      }
    }
  }

  lemma NothingRead(v: nat, n: nat, c0: nat, f0: nat, lens: Lengths, dists: Lengths, out0: seq<Byte>)
    ensures After(v, c0, lens, dists, []) == Some(c0) && Lz77(out0, []) == Some(out0)
    ensures TokensLoad(v, n, c0, f0, lens, dists, []) == Some(f0)
  {
  }
}
