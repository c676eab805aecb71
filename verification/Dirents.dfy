/**
 Directory listing: entries are packed into 512-byte blocks of variable-length records, and the
 image is handed out block by block over successive calls. The name hash stored in each record is
 a parameter: nothing here depends on its value.
 */
module Dirents {
  import opened Common
  import opened Words

  const BLOCK: nat := 512
  const META: nat := 8

  /** A directory entry; the name is 1 to 255 bytes. */
  datatype Entry = Entry(name: seq<Byte>, isFile: bool)

  ghost predicate ValidName(e: Entry)
  {
    1 <= |e.name| <= 255
  }

  ghost predicate ValidEntries(entries: seq<Entry>)
  {
    forall i :: 0 <= i < |entries| ==> ValidName(entries[i])
  }

  type Hash = seq<Byte> -> nat

  // ---------------------------------------------------------------- alignment

  function AlignDown(value: nat, alignment: nat): nat
    requires value < Pow2(64) && alignment < Pow2(64)
  {
    if alignment != 0 then And(value, Not(alignment - 1, 64)) else value
  }

  function AlignUp(value: nat, alignment: nat): nat
    requires value + alignment < Pow2(64)
  {
    if alignment != 0 then And(value + alignment - 1, Not(alignment - 1, 64)) else value
  }

  lemma MaskBit(v: nat, k: nat, i: nat)
    requires v < Pow2(64) && k < 64 && Pow2(k) <= Pow2(64)
    ensures Bit(And(v, Not(Pow2(k) - 1, 64)), i) == Bit(Shl(Shr(v, k), k), i)
  {
    hide Bit, And, Shl, Shr, Pow2, Not;
    AndBit(v, Not(Pow2(k) - 1, 64), i);
    NotBit(Pow2(k) - 1, 64, i);
    OnesBit(k, i);
    ShlBit(Shr(v, k), k, i);
    if i >= k {
      ShrBit(v, k, i - k);
    }
    if i >= 64 {
      HighBit(v, 64, i);
    }
  }

  /** Masking the low bits off rounds down to the multiple below. */
  lemma MaskRoundsDown(v: nat, k: nat)
    requires v < Pow2(64) && k < 64
    ensures Pow2(k) <= Pow2(64) && And(v, Not(Pow2(k) - 1, 64)) == Shl(Shr(v, k), k)
  {
    Pow2Monotone(k, 64);
    hide Bit, And, Not, Shl, Shr, Pow2;
    var a, b := And(v, Not(Pow2(k) - 1, 64)), Shl(Shr(v, k), k);
    forall i: nat ensures Bit(a, i) == Bit(b, i) {
      MaskBit(v, k, i);
    }
    SameBits(a, b);
  }

  lemma BlockRounding(v: nat)
    requires v < 0x1_0000_0000
    ensures v < Pow2(64) && BLOCK < Pow2(64)
    ensures AlignDown(v, BLOCK) == v / 512 * 512
  {
    WordSize();
    KnownPowers();
    MaskRoundsDown(v, 9);
    ShlIsMul(Shr(v, 9), 9);
    assert Shr(v, 9) == v / 512 by {
      assert Shr(v, 9) == v / 2 / 2 / 2 / 2 / 2 / 2 / 2 / 2 / 2;
    }
  }

  lemma WordRounding(v: nat)
    requires v < 0x1_0000
    ensures v + 4 < Pow2(64)
    ensures AlignUp(v, 4) == (v + 3) / 4 * 4
  {
    WordSize();
    assert Pow2(2) == 4;
    MaskRoundsDown(v + 3, 2);
    ShlIsMul(Shr(v + 3, 2), 2);
    assert Shr(v + 3, 2) == (v + 3) / 2 / 2;
  }

  // ---------------------------------------------------------------- records and their layout

  /** A record: an entry and the number of bytes it occupies. */
  datatype Record = Record(entry: Entry, len: nat)

  /** The bytes a name needs: header, name, terminator, rounded up to 4. */
  function Need(e: Entry): nat
  {
    (META + |e.name| + 1 + 3) / 4 * 4
  }

  function Zeros(n: nat): (z: seq<Byte>)
    ensures |z| == n && forall i :: 0 <= i < n ==> z[i] == 0
  {
    seq(n, _ => 0)
  }

  function Low16(n: nat): (b: seq<Byte>)
    ensures |b| == 2
  {
    [n % 256, n / 256 % 256]
  }

  function Low32(n: nat): (b: seq<Byte>)
    ensures |b| == 4
  {
    [n % 256, n / 256 % 256, n / 65536 % 256, n / 16777216 % 256]
  }

  /** The image of one record: hash, length, type, name length, name, zeros. */
  function RecordBytes(r: Record, hash: Hash): (b: seq<Byte>)
    requires ValidName(r.entry) && r.len >= META + |r.entry.name| + 1
    ensures |b| == r.len
  {
    var e := r.entry;
    Low32(hash(e.name)) + Low16(r.len) + [if e.isFile then 8 else 4, |e.name|] + e.name
      + Zeros(r.len - META - |e.name|)
  }

  ghost predicate ValidRecord(r: Record)
  {
    ValidName(r.entry) && r.len >= Need(r.entry)
  }

  ghost predicate ValidRecords(rs: seq<Record>)
  {
    forall i :: 0 <= i < |rs| ==> ValidRecord(rs[i])
  }

  function Image(rs: seq<Record>, hash: Hash): (b: seq<Byte>)
    requires ValidRecords(rs)
    ensures |b| == Size(rs)
  {
    if rs == [] then []
    else Image(rs[..|rs| - 1], hash) + RecordBytes(rs[|rs| - 1], hash)
  }

  /** Total length, which is also where the next record starts. */
  function Size(rs: seq<Record>): nat
  {
    if rs == [] then 0 else Size(rs[..|rs| - 1]) + rs[|rs| - 1].len
  }

  /** Records placed so far, and the end of the block being filled. */
  datatype Layout = Layout(records: seq<Record>, ceiling: nat)

  /** The slack of the current block goes to its last record. */
  function Fold(l: Layout): seq<Record>
  {
    var rs := l.records;
    if rs == [] || l.ceiling < Size(rs) then rs
    else rs[..|rs| - 1] + [rs[|rs| - 1].(len := rs[|rs| - 1].len + (l.ceiling - Size(rs)))]
  }

  function Place(l: Layout, e: Entry): Layout
  {
    if Size(l.records) + Need(e) > l.ceiling then
      Layout(Fold(l) + [Record(e, Need(e))], l.ceiling + BLOCK)
    else
      Layout(l.records + [Record(e, Need(e))], l.ceiling)
  }

  function Placed(entries: seq<Entry>): Layout
  {
    if entries == [] then Layout([], 0)
    else Place(Placed(entries[..|entries| - 1]), entries[|entries| - 1])
  }

  /** The final records of a directory. */
  function Records(entries: seq<Entry>): seq<Record>
  {
    Fold(Placed(entries))
  }

  // ---------------------------------------------------------------- what the layout guarantees

  predicate Fours(n: int)
  {
    n % 4 == 0
  }

  predicate Blocks(n: int)
  {
    n % BLOCK == 0
  }

  /** Record i lies inside one block. */
  ghost predicate InOneBlock(rs: seq<Record>, i: nat)
    requires i < |rs|
  {
    rs[i].len > 0 && Size(rs[..i]) / BLOCK == (Size(rs[..i]) + rs[i].len - 1) / BLOCK
  }

  /** Record i holds entry i, in a length the format allows and inside one block. */
  ghost predicate GoodRecord(rs: seq<Record>, entries: seq<Entry>, i: nat)
    requires i < |rs| == |entries|
  {
    && ValidRecord(rs[i]) && rs[i].entry == entries[i]
    && Fours(rs[i].len) && rs[i].len <= BLOCK && InOneBlock(rs, i)
  }

  ghost predicate GoodRecords(rs: seq<Record>, entries: seq<Entry>)
  {
    |rs| == |entries| && forall i :: 0 <= i < |rs| ==> GoodRecord(rs, entries, i)
  }

  ghost predicate GoodLayout(l: Layout, entries: seq<Entry>)
  {
    && GoodRecords(l.records, entries)
    && Blocks(l.ceiling) && Fours(Size(l.records))
    && (if entries == [] then l.ceiling == 0
        else l.ceiling - BLOCK < Size(l.records) <= l.ceiling)
  }

  lemma NeedBounds(e: Entry)
    requires ValidName(e)
    ensures META + |e.name| + 1 <= Need(e) <= 264 && Fours(Need(e))
  {
  }

  lemma SizeAppend(rs: seq<Record>, r: Record)
    ensures Size(rs + [r]) == Size(rs) + r.len
  {
    assert (rs + [r])[..|rs|] == rs;
  }

  /** What record i says depends only on the records up to it. */
  lemma GoodRecordPrefix(rs: seq<Record>, rs': seq<Record>, entries: seq<Entry>,
                         entries': seq<Entry>, i: nat)
    requires i < |rs| == |entries| && i < |rs'| == |entries'|
    requires rs[..i + 1] == rs'[..i + 1] && entries[i] == entries'[i]
    requires GoodRecord(rs, entries, i)
    ensures GoodRecord(rs', entries', i)
  {
    assert rs[i] == rs[..i + 1][i] == rs'[..i + 1][i] == rs'[i];
    assert rs[..i] == rs[..i + 1][..i] == rs'[..i + 1][..i] == rs'[..i];
  }

  /** A last record from the end of the others to at most the end of the block. */
  lemma GoodLast(init: seq<Record>, r: Record, entries: seq<Entry>, ceiling: nat)
    requires |entries| == |init| + 1 && r.entry == entries[|init|] && ValidRecord(r)
    requires Fours(r.len) && 0 < r.len && Blocks(ceiling)
    requires ceiling - BLOCK <= Size(init) && Size(init) + r.len <= ceiling
    ensures GoodRecord(init + [r], entries, |init|)
  {
    assert (init + [r])[..|init|] == init;
    SameBlock(Size(init), ceiling, r.len);
  }

  lemma GoodSnoc(init: seq<Record>, r: Record, entries: seq<Entry>)
    requires |entries| == |init| + 1
    requires GoodRecords(init, entries[..|init|]) && GoodRecord(init + [r], entries, |init|)
    ensures GoodRecords(init + [r], entries)
  {
    hide GoodRecord;
    forall i | 0 <= i < |entries| ensures GoodRecord(init + [r], entries, i) {
      if i < |init| {
        assert (init + [r])[..i + 1] == init[..i + 1];
        GoodRecordPrefix(init, init + [r], entries[..|init|], entries, i);
      }
    }
  }

  lemma GoodInit(rs: seq<Record>, entries: seq<Entry>)
    requires rs != [] && GoodRecords(rs, entries)
    ensures GoodRecords(rs[..|rs| - 1], entries[..|rs| - 1])
  {
    hide GoodRecord;
    var init, es := rs[..|rs| - 1], entries[..|rs| - 1];
    forall i | 0 <= i < |init| ensures GoodRecord(init, es, i) {
      assert rs[..i + 1] == init[..i + 1];
      GoodRecordPrefix(rs, init, entries, es, i);
    }
  }

  /** Appending a record that starts and ends inside one block. */
  lemma AppendGood(rs: seq<Record>, entries: seq<Entry>, e: Entry, ceiling: nat)
    requires GoodRecords(rs, entries) && ValidName(e) && Fours(Size(rs))
    requires Blocks(ceiling)
    requires ceiling - BLOCK <= Size(rs) && Size(rs) + Need(e) <= ceiling
    ensures GoodLayout(Layout(rs + [Record(e, Need(e))], ceiling), entries + [e])
  {
    var r := Record(e, Need(e));
    NeedBounds(e);
    SizeAppend(rs, r);
    SumOfFours(Size(rs), Need(e));
    hide GoodRecord, GoodRecords, Size, Need, Fours, Blocks;
    assert (entries + [e])[..|entries|] == entries;
    GoodLength(rs, entries);
    GoodLast(rs, r, entries + [e], ceiling);
    GoodSnoc(rs, r, entries + [e]);
  }

  lemma BlocksAreFours(n: nat)
    requires Blocks(n)
    ensures Fours(n) && Blocks(n + BLOCK)
  {
    assert n == 512 * (n / 512);
  }

  lemma SumOfFours(a: nat, b: nat)
    requires Fours(a) && Fours(b)
    ensures Fours(a + b)
  {
  }

  lemma GoodLength(rs: seq<Record>, entries: seq<Entry>)
    requires GoodRecords(rs, entries)
    ensures |rs| == |entries|
  {
  }

  lemma SameBlock(start: nat, ceiling: nat, len: nat)
    requires Blocks(ceiling) && ceiling - BLOCK <= start && 0 < len && start + len <= ceiling
    ensures start / BLOCK == (start + len - 1) / BLOCK
  {
    var q := ceiling / 512;
    assert ceiling == 512 * q;
    assert start / 512 == q - 1;
    assert (start + len - 1) / 512 == q - 1;
  }

  /** Folding the slack into the last record fills the block exactly and keeps everything else. */
  lemma FoldGood(l: Layout, entries: seq<Entry>)
    requires GoodLayout(l, entries)
    ensures GoodLayout(Layout(Fold(l), l.ceiling), entries) && Size(Fold(l)) == l.ceiling
  {
    var rs := l.records;
    if rs != [] {
      var init, last := rs[..|rs| - 1], rs[|rs| - 1];
      var r := last.(len := last.len + (l.ceiling - Size(rs)));
      assert Fold(l) == init + [r] && Size(rs) == Size(init) + last.len;
      SizeAppend(init, r);
      GoodInit(rs, entries);
      assert GoodRecord(rs, entries, |init|);
      LastInBlock(rs, entries, l.ceiling);
      hide Fold, Size, GoodRecord, GoodRecords, Fours, Blocks;
      GoodLast(init, r, entries, l.ceiling);
      GoodSnoc(init, r, entries);
      BlocksAreFours(l.ceiling);
    }
  }

  /** The last record starts inside the block that ends at the ceiling. */
  lemma LastInBlock(rs: seq<Record>, entries: seq<Entry>, ceiling: nat)
    requires rs != [] && GoodRecords(rs, entries) && Blocks(ceiling) && Fours(Size(rs))
    requires ceiling - BLOCK < Size(rs) <= ceiling
    ensures var init, last := rs[..|rs| - 1], rs[|rs| - 1];
      && ceiling - BLOCK <= Size(init) && last.entry == entries[|init|] && ValidRecord(last)
      && last.len > 0 && Fours(last.len + (ceiling - Size(rs)))
  {
    var init, last := rs[..|rs| - 1], rs[|rs| - 1];
    assert GoodRecord(rs, entries, |init|);
    assert Size(rs) == Size(init) + last.len;
    StartInBlock(Size(init), last.len, ceiling);
  }

  lemma StartInBlock(start: nat, len: nat, ceiling: nat)
    requires Blocks(ceiling) && ceiling - BLOCK < start + len <= ceiling
    requires len > 0 && start / BLOCK == (start + len - 1) / BLOCK
    requires Fours(start + len) && Fours(len)
    ensures ceiling - BLOCK <= start && Fours(len + (ceiling - (start + len)))
  {
    var q := ceiling / 512;
    assert ceiling == 512 * q;
    assert (start + len - 1) / 512 == q - 1;
  }

  lemma {:induction false} PlacedGood(entries: seq<Entry>)
    requires ValidEntries(entries)
    ensures GoodLayout(Placed(entries), entries)
  {
    if entries == [] {
      EmptyGood();
    } else {
      var init, e := entries[..|entries| - 1], entries[|entries| - 1];
      hide GoodLayout, Place, Placed;
      PlacedGood(init);
      PlacedUnfolds(entries);
      assert entries == init + [e];
      PlaceGood(Placed(init), init, e);
    }
  }

  /** Placing one more entry, in the current block or in a new one. */
  lemma PlaceGood(l: Layout, init: seq<Entry>, e: Entry)
    requires GoodLayout(l, init) && ValidName(e)
    ensures GoodLayout(Place(l, e), init + [e])
  {
    NeedBounds(e);
    FoldGood(l, init);
    GoodBounds(l, init);
    assert GoodRecords(l.records, init) && GoodRecords(Fold(l), init);
    BlocksAreFours(l.ceiling);
    assert Fours(Size(l.records));
    hide GoodLayout, GoodRecords, Fold, Size, Need, Fours, Blocks;
    if Size(l.records) + Need(e) > l.ceiling {
      var ceiling := l.ceiling + BLOCK;
      AppendGood(Fold(l), init, e, ceiling);
    } else {
      AppendGood(l.records, init, e, l.ceiling);
    }
  }

  lemma PlacedUnfolds(entries: seq<Entry>)
    ensures Placed([]) == Layout([], 0)
    ensures entries != [] ==>
              Placed(entries) == Place(Placed(entries[..|entries| - 1]), entries[|entries| - 1])
  {
  }

  lemma EmptyGood()
    ensures GoodLayout(Layout([], 0), [])
  {
  }

  lemma GoodBounds(l: Layout, entries: seq<Entry>)
    requires GoodLayout(l, entries)
    ensures Blocks(l.ceiling) && Size(l.records) <= l.ceiling
    ensures l.ceiling - BLOCK <= Size(l.records)
  {
  }

  /**
   The final records hold the entries in order, tile a whole number of blocks, have lengths that are
   multiples of 4 and at most 512, and never cross a block.
   */
  lemma RecordsTile(entries: seq<Entry>)
    requires ValidEntries(entries)
    ensures GoodRecords(Records(entries), entries) && Blocks(Size(Records(entries)))
    ensures Size(Records(entries)) == Placed(entries).ceiling
  {
    PlacedGood(entries);
    FoldGood(Placed(entries), entries);
  }
}
