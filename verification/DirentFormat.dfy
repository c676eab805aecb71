/**
 The byte format of a listed directory, stated on the bytes alone: where each record starts, what
 every byte of it is, and when a record has to leave the rest of its block unused. The packed image
 is proved to be the one byte string of that format.
 */
module DirentFormat {
  import opened Common
  import Quotients
  import opened Words
  import opened Dirents
  import opened DirentPager

  // ---------------------------------------------------------------- the format

  /** What an entry needs: the least multiple of 4 with room for 8 bytes, the name and a zero. */
  function Slot(e: Entry): (n: nat)
    ensures n % 4 == 0 && 9 + |e.name| <= n < 13 + |e.name|
  {
    (12 + |e.name|) / 4 * 4
  }

  /** Four bytes read as a little-endian number. */
  function Get32(d: seq<Byte>, at: nat): nat
    requires at + 4 <= |d|
  {
    var b0: nat, b1: nat, b2: nat, b3: nat := d[at], d[at + 1], d[at + 2], d[at + 3];
    b0 + 0x100 * b1 + 0x1_0000 * b2 + 0x100_0000 * b3
  }

  /** The bytes from a to b are the record of the entry. */
  ghost predicate IsDirent(d: seq<Byte>, a: nat, b: nat, e: Entry, hash: Hash)
  {
    && a + 9 + |e.name| <= b <= |d|
    && Get32(d, a) == hash(e.name) % 0x1_0000_0000
    && Get16(d, a + 4) == b - a
    && d[a + 6] == (if e.isFile then 8 else 4)
    && d[a + 7] == |e.name|
    && (forall j :: 0 <= j < |e.name| ==> d[a + 8 + j] == e.name[j])
    && (forall j :: a + 8 + |e.name| <= j < b ==> d[j] == 0)
  }

  /**
   Record i lies in one block. If it ends inside the block it takes just what it needs, and another
   one follows; if it ends with the block, the next entry has no room behind it.
   */
  ghost predicate Cut(entries: seq<Entry>, starts: seq<nat>, i: nat)
    requires i < |entries| == |starts| - 1
  {
    var a, b := starts[i], starts[i + 1];
    && a + Slot(entries[i]) <= b && a / 512 == (b - 1) / 512
    && (b % 512 != 0 ==> b == a + Slot(entries[i]) && i + 1 < |entries|)
    && (b % 512 == 0 && i + 1 < |entries| ==>
          a + Slot(entries[i]) + Slot(entries[i + 1]) > b)
  }

  /** The records start there. */
  ghost predicate Cuts(entries: seq<Entry>, starts: seq<nat>)
  {
    |starts| == |entries| + 1 && starts[0] == 0 && forall i :: 0 <= i < |entries| ==> Cut(entries, starts, i)
  }

  /** The bytes list the entries. */
  ghost predicate Lists(d: seq<Byte>, entries: seq<Entry>, hash: Hash, starts: seq<nat>)
  {
    && Cuts(entries, starts) && starts[|entries|] == |d|
    && forall i :: 0 <= i < |entries| ==> IsDirent(d, starts[i], starts[i + 1], entries[i], hash)
  }

  // ---------------------------------------------------------------- it has one solution

  /** The format leaves no choice where a record ends. */
  lemma NextStart(entries: seq<Entry>, starts: seq<nat>, other: seq<nat>, i: nat)
    requires Cuts(entries, starts) && Cuts(entries, other)
    requires i < |entries| && starts[i] == other[i]
    ensures starts[i + 1] <= other[i + 1]
  {
    assert Cut(entries, starts, i) && Cut(entries, other, i);
    var a, b, c := starts[i], starts[i + 1], other[i + 1];
    if c % 512 == 0 {
      EndOfBlock(a, c, b);
    } else if b % 512 == 0 {
      assert Cut(entries, other, i + 1);
      SameBlock(a, c);
      EndOfBlock(a, b, other[i + 2]);
      assert false;
    }
  }

  /** Nothing that starts in the block of a reaches past the end of that block. */
  lemma EndOfBlock(a: nat, end: nat, other: nat)
    requires end > 0 && end % 512 == 0 && a / 512 == (end - 1) / 512
    requires other > 0 && a / 512 == (other - 1) / 512
    ensures other <= end
  {
    var q := a / 512;
    assert 512 * q <= end - 1 < 512 * q + 512 && 512 * q <= other - 1 < 512 * q + 512;
    assert end == 512 * (end / 512);
  }

  lemma SameBlock(a: nat, b: nat)
    requires b > 0 && b % 512 != 0 && a / 512 == (b - 1) / 512
    ensures b / 512 == a / 512
  {
  }

  lemma {:induction false} StartsAgree(entries: seq<Entry>, starts: seq<nat>, other: seq<nat>, i: nat)
    requires Cuts(entries, starts) && Cuts(entries, other) && i <= |entries|
    ensures starts[i] == other[i]
  {
    if i > 0 {
      StartsAgree(entries, starts, other, i - 1);
      NextStart(entries, starts, other, i - 1);
      NextStart(entries, other, starts, i - 1);
    }
  }

  /** The same record again: its bytes are all determined. */
  lemma SameRecord(d: seq<Byte>, d': seq<Byte>, a: nat, b: nat, e: Entry, hash: Hash, j: nat)
    requires IsDirent(d, a, b, e, hash) && IsDirent(d', a, b, e, hash) && a <= j < b
    ensures d[j] == d'[j]
  {
    if j < a + 4 {
      DigitsAgree(d, d', a);
    } else if j < a + 6 {
      LowDigit(d[a + 4], d[a + 5], d'[a + 4], d'[a + 5]);
    } else if a + 8 <= j < a + 8 + |e.name| {
      var i := j - (a + 8);
      assert d[a + 8 + i] == e.name[i] == d'[a + 8 + i];
    }
  }

  /** A number has one last digit. */
  lemma LowDigit(low: Byte, high: nat, low': Byte, high': nat)
    requires low + 256 * high == low' + 256 * high'
    ensures low == low' && high == high'
  {
  }

  lemma DigitsAgree(d: seq<Byte>, d': seq<Byte>, at: nat)
    requires at + 4 <= |d| && at + 4 <= |d'| && Get32(d, at) == Get32(d', at)
    ensures d[at] == d'[at] && d[at + 1] == d'[at + 1]
    ensures d[at + 2] == d'[at + 2] && d[at + 3] == d'[at + 3]
  {
    var b1: nat, b2: nat, b3: nat := d[at + 1], d[at + 2], d[at + 3];
    var c1: nat, c2: nat, c3: nat := d'[at + 1], d'[at + 2], d'[at + 3];
    LowDigit(d[at], b1 + 256 * (b2 + 256 * b3), d'[at], c1 + 256 * (c2 + 256 * c3));
    LowDigit(d[at + 1], b2 + 256 * b3, d'[at + 1], c2 + 256 * c3);
    LowDigit(d[at + 2], b3, d'[at + 2], c3);
  }

  /** Which record a byte belongs to. */
  lemma {:induction false} RecordOf(starts: seq<nat>, n: nat, j: nat) returns (i: nat)
    requires n < |starts| && starts[0] == 0 && j < starts[n]
    ensures i < n && starts[i] <= j < starts[i + 1]
  {
    if starts[n - 1] <= j {
      i := n - 1;
    } else {
      i := RecordOf(starts, n - 1, j);
    }
  }

  /** Two byte strings that list the same entries are the same. */
  lemma ListsOnce(d: seq<Byte>, d': seq<Byte>, entries: seq<Entry>, hash: Hash,
                  starts: seq<nat>, other: seq<nat>)
    requires Lists(d, entries, hash, starts) && Lists(d', entries, hash, other)
    ensures d == d'
  {
    hide Cut, IsDirent;
    var n := |entries|;
    StartsAgree(entries, starts, other, n);
    forall j | 0 <= j < |d| ensures d[j] == d'[j] {
      var i := RecordOf(starts, n, j);
      StartsAgree(entries, starts, other, i);
      StartsAgree(entries, starts, other, i + 1);
      SameRecord(d, d', starts[i], starts[i + 1], entries[i], hash, j);
    }
  }

  // ---------------------------------------------------------------- the packed image has it

  lemma NeedIsSlot(e: Entry)
    ensures Need(e) == Slot(e)
  {
  }

  /** Where the records of a list start, and where the last one ends. */
  function Starts(rs: seq<Record>): (starts: seq<nat>)
    ensures |starts| == |rs| + 1 && forall i :: 0 <= i <= |rs| ==> starts[i] == Size(rs[..i])
  {
    seq(|rs| + 1, (i: nat) requires i <= |rs| => Size(rs[..i]))
  }

  /** A record's bytes, inside an image. */
  lemma RecordIsDirent(r: Record, hash: Hash)
    requires ValidRecord(r) && r.len <= 512
    ensures r.len >= META + |r.entry.name| + 1
    ensures IsDirent(RecordBytes(r, hash), 0, r.len, r.entry, hash)
  {
    NeedFits(r);
    var d := RecordBytes(r, hash);
    var e, h := r.entry, hash(r.entry.name);
    assert d[0] == Low32(h)[0] && d[1] == Low32(h)[1] && d[2] == Low32(h)[2] && d[3] == Low32(h)[3];
    Digits(h);
    RecordFields(r, [], hash);
    assert d + [] == d;
    forall j | 0 <= j < |e.name| ensures d[8 + j] == e.name[j] {
      assert d[META..META + |e.name|][j] == e.name[j];
    }
    hide Need;
  }

  lemma Digits(h: nat)
    ensures h % 256 + 0x100 * (h / 256 % 256) + 0x1_0000 * (h / 65536 % 256)
            + 0x100_0000 * (h / 16777216 % 256) == h % 0x1_0000_0000
  {
    var q1 := h / 256;
    var q2 := q1 / 256;
    var q3 := q2 / 256;
    var q4 := q3 / 256;
    assert h == h % 256 + 0x100 * (q1 % 256) + 0x1_0000 * (q2 % 256) + 0x100_0000 * (q3 % 256)
                + 0x1_0000_0000 * q4;
    Quotients.QuotientUnique(h, 65536, q2);
    Quotients.QuotientUnique(h, 16777216, q3);
    Quotients.QuotientUnique(h, 0x1_0000_0000, q4);
  }

  /** Record i takes what it needs, or ends a block in which the next entry has no room. */
  ghost predicate TightAt(rs: seq<Record>, entries: seq<Entry>, i: nat)
    requires i < |rs| == |entries|
  {
    var a, b := Size(rs[..i]), Size(rs[..i + 1]);
    && (b % 512 != 0 ==> rs[i].len == Slot(entries[i]))
    && (b % 512 == 0 && i + 1 < |rs| ==> a + Slot(entries[i]) + Slot(entries[i + 1]) > b)
  }

  ghost predicate AllTight(rs: seq<Record>, entries: seq<Entry>)
  {
    |rs| == |entries| && forall i :: 0 <= i < |rs| ==> TightAt(rs, entries, i)
  }

  /** While packing, the last record has not been given any slack yet. */
  ghost predicate LastTight(l: Layout, entries: seq<Entry>)
  {
    && AllTight(l.records, entries)
    && (entries != [] ==> l.records[|l.records| - 1].len == Slot(entries[|entries| - 1]))
  }

  /** What record i says depends on the records up to it and on whether another one follows. */
  lemma TightPrefix(rs: seq<Record>, rs': seq<Record>, entries: seq<Entry>, entries': seq<Entry>,
                    i: nat)
    requires i + 1 < |rs| == |entries| && i + 1 < |rs'| == |entries'|
    requires rs[..i + 1] == rs'[..i + 1]
    requires entries[i] == entries'[i] && entries[i + 1] == entries'[i + 1]
    requires TightAt(rs, entries, i)
    ensures TightAt(rs', entries', i)
  {
    hide Size;
    assert rs[i] == rs[..i + 1][i] == rs'[..i + 1][i] == rs'[i];
    assert rs[..i] == rs[..i + 1][..i] == rs'[..i + 1][..i] == rs'[..i];
  }

  /** Giving the last record the slack of its block, and the record behind it. */
  lemma FoldTight(l: Layout, entries: seq<Entry>)
    requires GoodLayout(l, entries) && LastTight(l, entries)
    ensures AllTight(Fold(l), entries)
    ensures entries != [] ==>
      Size(Fold(l)[..|entries| - 1]) + Slot(entries[|entries| - 1]) == Size(l.records)
  {
    FoldGood(l, entries);
    var rs, n := l.records, |entries|;
    if n > 0 {
      var init, last := rs[..n - 1], rs[n - 1];
      var folded := init + [last.(len := last.len + (l.ceiling - Size(rs)))];
      assert Fold(l) == folded && Size(rs) == Size(init) + last.len;
      assert folded[..n - 1] == init && folded[..n] == folded;
      assert Size(folded) % 512 == 0;
      hide Size, Fold, GoodLayout;
      forall i | 0 <= i < n ensures TightAt(folded, entries, i) {
        assert TightAt(rs, entries, i);
        if i + 1 < n {
          assert rs[..i + 1] == folded[..i + 1];
          TightPrefix(rs, folded, entries, entries, i);
        }
      }
    }
  }

  /** Placing one more entry. */
  lemma PlaceTight(l: Layout, init: seq<Entry>, e: Entry)
    requires GoodLayout(l, init) && LastTight(l, init) && ValidName(e)
    ensures LastTight(Place(l, e), init + [e])
  {
    NeedIsSlot(e);
    FoldTight(l, init);
    FoldGood(l, init);
    var r, n, full := Record(e, Need(e)), |init|, Size(l.records) + Need(e) > l.ceiling;
    var rs := if full then Fold(l) else l.records;
    assert Place(l, e).records == rs + [r];
    assert |rs| == n && AllTight(rs, init);
    BeforeLast(l, init, full);
    hide Place, Fold, GoodLayout, Need, AllTight;
    var entries, all := init + [e], rs + [r];
    AppendTight(rs, init, r, e, Size(l.records), full);
  }

  /** Where the records so far end: with their block if it is full, else inside it. */
  lemma BeforeLast(l: Layout, init: seq<Entry>, full: bool)
    requires GoodLayout(l, init)
    ensures Size(Fold(l)) % 512 == 0 && Size(Fold(l)) == l.ceiling
    ensures init != [] && Size(l.records) < l.ceiling ==> Size(l.records) % 512 != 0
  {
    FoldGood(l, init);
    hide Size, GoodRecords, Fold;
    if init != [] && Size(l.records) < l.ceiling {
      BetweenBlocks(Size(l.records), l.ceiling);
    }
  }

  lemma BetweenBlocks(n: nat, end: nat)
    requires end % 512 == 0 && end - 512 < n < end
    ensures n % 512 != 0
  {
    assert end == 512 * (end / 512);
  }

  lemma AppendTight(rs: seq<Record>, init: seq<Entry>, r: Record, e: Entry, used: nat, full: bool)
    requires AllTight(rs, init) && r.len == Slot(e)
    requires init != [] ==>
      if full then
        && Size(rs) % 512 == 0 && used + Slot(e) > Size(rs)
        && Size(rs[..|rs| - 1]) + Slot(init[|init| - 1]) == used
      else Size(rs) % 512 != 0
    ensures AllTight(rs + [r], init + [e])
  {
    hide Size;
    var entries, all, n := init + [e], rs + [r], |rs|;
    forall i | 0 <= i <= n ensures TightAt(all, entries, i) {
      assert all[..i] == rs[..i];
      if i < n {
        assert TightAt(rs, init, i);
        assert all[..i + 1] == rs[..i + 1];
        if i + 1 < n {
          TightPrefix(rs, all, init, entries, i);
        } else {
          assert rs[..n] == rs;
        }
      }
    }
  }

  lemma {:induction false} PlacedTight(entries: seq<Entry>)
    requires ValidEntries(entries)
    ensures LastTight(Placed(entries), entries)
  {
    PlacedUnfolds(entries);
    if entries != [] {
      var init, e := entries[..|entries| - 1], entries[|entries| - 1];
      hide GoodLayout, Place, Placed, LastTight;
      PlacedTight(init);
      PlacedGood(init);
      assert entries == init + [e];
      PlaceTight(Placed(init), init, e);
    }
  }

  /** The records of the packed directory start where the format says. */
  lemma RecordsCut(entries: seq<Entry>)
    requires ValidEntries(entries)
    ensures |Records(entries)| == |entries| && Cuts(entries, Starts(Records(entries)))
  {
    hide *;
    var rs := Records(entries);
    RecordsTile(entries);
    AllRecordsTight(entries);
    WholeStarts(rs);
    forall i | 0 <= i < |entries| ensures Cut(entries, Starts(rs), i) {
      OneCut(rs, entries, i);
    }
    AllCut(entries, Starts(rs));
  }

  lemma AllRecordsTight(entries: seq<Entry>)
    requires ValidEntries(entries)
    ensures AllTight(Records(entries), entries) && |Records(entries)| == |entries|
  {
    PlacedTight(entries);
    PlacedGood(entries);
    FoldTight(Placed(entries), entries);
  }

  lemma WholeStarts(rs: seq<Record>)
    ensures |Starts(rs)| == |rs| + 1 && Starts(rs)[0] == 0 && Starts(rs)[|rs|] == Size(rs)
  {
    assert rs[..0] == [] && rs[..|rs|] == rs;
  }

  lemma AllCut(entries: seq<Entry>, starts: seq<nat>)
    requires |starts| == |entries| + 1 && starts[0] == 0
    requires forall i :: 0 <= i < |entries| ==> Cut(entries, starts, i)
    ensures Cuts(entries, starts)
  {
  }

  lemma OneCut(rs: seq<Record>, entries: seq<Entry>, i: nat)
    requires GoodRecords(rs, entries) && AllTight(rs, entries) && Blocks(Size(rs)) && i < |entries|
    ensures Cut(entries, Starts(rs), i)
  {
    assert GoodRecord(rs, entries, i) && TightAt(rs, entries, i);
    NeedIsSlot(entries[i]);
    assert i + 1 == |rs| ==> rs[..i + 1] == rs;
    assert Size(rs[..i + 1]) == Size(rs[..i]) + rs[i].len by {
      assert rs[..i + 1][..i] == rs[..i];
    }
    hide Size, Need, Slot;
  }

  /**
   The packed image lists the directory: for every record its hash, length, type, name length, name
   and zeros byte by byte, cut as the format says.
   */
  lemma ImageLists(entries: seq<Entry>, hash: Hash)
    requires ValidEntries(entries)
    ensures ValidRecords(Records(entries))
    ensures Lists(Image(Records(entries), hash), entries, hash, Starts(Records(entries)))
  {
    var rs := Records(entries);
    PlacedFacts(entries);
    RecordsTile(entries);
    RecordsCut(entries);
    var d, starts := Image(rs, hash), Starts(rs);
    assert rs[..|rs|] == rs;
    forall i | 0 <= i < |entries| ensures IsDirent(d, starts[i], starts[i + 1], entries[i], hash) {
      assert GoodRecord(rs, entries, i);
      hide Image, Records, RecordBytes, IsDirent, Size, Cuts;
      RecordInImage(rs, hash, i);
      RecordIsDirent(rs[i], hash);
      Shifted(d, starts[i], starts[i + 1], entries[i], hash);
    }
  }

  lemma Shifted(d: seq<Byte>, a: nat, b: nat, e: Entry, hash: Hash)
    requires a <= b <= |d| && IsDirent(d[a..b], 0, b - a, e, hash)
    ensures IsDirent(d, a, b, e, hash)
  {
    var part := d[a..b];
    assert forall j :: 0 <= j < b - a ==> part[j] == d[a + j];
    forall j | 0 <= j < |e.name| ensures d[a + 8 + j] == e.name[j] {
      assert part[0 + 8 + j] == e.name[j];
    }
    forall j | a + 8 + |e.name| <= j < b ensures d[j] == 0 {
      assert part[j - a] == 0;
    }
  }

  /** The packed image is the only byte string that lists the directory. */
  lemma ListsIffImage(d: seq<Byte>, entries: seq<Entry>, hash: Hash)
    requires ValidEntries(entries)
    ensures ValidRecords(Records(entries))
    ensures d == Image(Records(entries), hash) <==> exists starts :: Lists(d, entries, hash, starts)
  {
    hide *;
    ImageLists(entries, hash);
    var image := Image(Records(entries), hash);
    forall starts | Lists(d, entries, hash, starts) ensures d == image {
      ListsOnce(d, image, entries, hash, starts, Starts(Records(entries)));
    }
  }
}
