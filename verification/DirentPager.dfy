/**
 KernelGetdirentries: the byte buffer is built in place record by record, re-parsed through the
 record lengths, and handed out from the directory's offset. The packed image is the layout of
 Dirents, walking it recovers the entries, and successive calls return it piece by piece.
 */
module DirentPager {
  import opened Common
  import opened Words
  import opened Dirents

  // ---------------------------------------------------------------- the byte buffer

  /** d with the given bytes written at position `at`. */
  function Put(d: seq<Byte>, at: nat, bytes: seq<Byte>): (r: seq<Byte>)
    requires at + |bytes| <= |d|
    ensures |r| == |d|
  {
    d[..at] + bytes + d[at + |bytes|..]
  }

  function Get16(d: seq<Byte>, at: nat): nat
    requires at + 2 <= |d|
  {
    var low: nat, high: nat := d[at], d[at + 1];
    low + 256 * high
  }

  lemma Get16Low16(d: seq<Byte>, at: nat, n: nat)
    requires at + 2 <= |d| && d[at..at + 2] == Low16(n) && n < 0x1_0000
    ensures Get16(d, at) == n
  {
    assert d[at] == d[at..at + 2][0] && d[at + 1] == d[at..at + 2][1];
  }

  lemma ImageAppend(rs: seq<Record>, r: Record, hash: Hash)
    requires ValidRecords(rs) && ValidRecord(r)
    ensures ValidRecords(rs + [r]) && Image(rs + [r], hash) == Image(rs, hash) + RecordBytes(r, hash)
  {
    assert (rs + [r])[..|rs|] == rs;
  }

  lemma Associate(a: seq<Byte>, b: seq<Byte>, c: seq<Byte>)
    ensures (a + b) + c == a + (b + c)
  {
  }

  lemma {:induction false} ImageCons(rs: seq<Record>, hash: Hash)
    requires ValidRecords(rs) && rs != []
    ensures ValidRecords(rs[1..])
    ensures Image(rs, hash) == RecordBytes(rs[0], hash) + Image(rs[1..], hash)
  {
    var tail := rs[1..];
    if tail == [] {
      assert rs[..|rs| - 1] == [];
    } else {
      var init, last := rs[..|rs| - 1], rs[|rs| - 1];
      ImageCons(init, hash);
      var middle := init[1..];
      assert middle == tail[..|tail| - 1] && tail[|tail| - 1] == last;
      assert Image(rs, hash) == Image(init, hash) + RecordBytes(last, hash);
      assert Image(tail, hash) == Image(middle, hash) + RecordBytes(last, hash);
      hide RecordBytes, Image;
      Associate(RecordBytes(rs[0], hash), Image(middle, hash), RecordBytes(last, hash));
    }
  }

  /** The fixed part of a record. */
  function Header(e: Entry, len: nat, hash: Hash): (h: seq<Byte>)
    requires ValidName(e)
    ensures |h| == META
  {
    Low32(hash(e.name)) + Low16(len) + [if e.isFile then 8 else 4, |e.name|]
  }

  lemma PutFront(done: seq<Byte>, bytes: seq<Byte>, n: nat)
    requires |bytes| <= n
    ensures Put(done + Zeros(n), |done|, bytes) == done + bytes + Zeros(n - |bytes|)
  {
  }

  /** The header, the name and its terminator written one after another. */
  function WriteFields(d: seq<Byte>, at: nat, header: seq<Byte>, name: seq<Byte>): (r: seq<Byte>)
    requires at + |header| + |name| + 1 <= |d|
    ensures |r| == |d|
  {
    Put(Put(Put(d, at, header), at + |header|, name), at + |header| + |name|, [0])
  }

  /** Writing the fields of a record into zeros produces the record's bytes. */
  lemma FieldsMakeRecord(e: Entry, hash: Hash)
    requires ValidName(e)
    ensures META + |e.name| + 1 <= Need(e)
    ensures WriteFields(Zeros(Need(e)), 0, Header(e, Need(e), hash), e.name)
         == RecordBytes(Record(e, Need(e)), hash)
  {
    NeedBounds(e);
    RecordParts(e, Need(e), hash);
    hide Need, WriteFields, Zeros, Header, RecordBytes;
    WriteFieldsOnZeros(Header(e, Need(e), hash), e.name, Need(e));
  }

  lemma WriteFieldsOnZeros(h: seq<Byte>, name: seq<Byte>, n: nat)
    requires |h| + |name| + 1 <= n
    ensures WriteFields(Zeros(n), 0, h, name) == h + name + Zeros(n - |h| - |name|)
  {
    hide Put, Zeros;
    var k := n - |h| - |name|;
    PutFront([], h, n);
    assert [] + Zeros(n) == Zeros(n) && [] + h == h;
    PutFront(h, name, n - |h|);
    PutFront(h + name, [0], k);
    ZeroFirst(k);
    Associate(h + name, [0], Zeros(k - 1));
  }

  lemma ZeroFirst(k: nat)
    requires k > 0
    ensures [0] + Zeros(k - 1) == Zeros(k)
  {
  }

  lemma RecordParts(e: Entry, n: nat, hash: Hash)
    requires ValidName(e) && n >= META + |e.name| + 1
    ensures RecordBytes(Record(e, n), hash)
         == Header(e, n, hash) + e.name + Zeros(n - META - |e.name|)
  {
  }

  /** A write inside a part of a buffer leaves the rest. */
  lemma PutInside(a: seq<Byte>, b: seq<Byte>, c: seq<Byte>, at: nat, bytes: seq<Byte>)
    requires at + |bytes| <= |b|
    ensures Put(a + b + c, |a| + at, bytes) == a + Put(b, at, bytes) + c
  {
  }

  /** Raising the stored length of the last record by the slack after it. */
  lemma ExtendRecord(r: Record, slack: nat, hash: Hash)
    requires ValidRecord(r) && r.len + slack <= BLOCK
    ensures ValidRecord(r.(len := r.len + slack))
    ensures Get16(RecordBytes(r, hash), 4) == r.len
    ensures Put(RecordBytes(r, hash) + Zeros(slack), 4, Low16(r.len + slack))
         == RecordBytes(r.(len := r.len + slack), hash)
  {
    assert RecordBytes(r, hash)[4..6] == Low16(r.len);
    Get16Low16(RecordBytes(r, hash), 4, r.len);
    hide Need;
  }

  lemma WriteFieldsInside(a: seq<Byte>, b: seq<Byte>, c: seq<Byte>, header: seq<Byte>,
                          name: seq<Byte>)
    requires |header| + |name| + 1 <= |b|
    ensures WriteFields(a + b + c, |a|, header, name) == a + WriteFields(b, 0, header, name) + c
  {
    hide Put;
    var b1 := Put(b, 0, header);
    var b2 := Put(b1, |header|, name);
    PutInside(a, b, c, 0, header);
    PutInside(a, b1, c, |header|, name);
    PutInside(a, b2, c, |header| + |name|, [0]);
  }

  /** Writing one more record at the end of the records so far. */
  lemma RecordWritten(rs: seq<Record>, e: Entry, hash: Hash, pad: nat)
    requires ValidRecords(rs) && ValidName(e) && Need(e) <= pad
    ensures META + |e.name| + 1 <= Need(e) && ValidRecords(rs + [Record(e, Need(e))])
    ensures WriteFields(Image(rs, hash) + Zeros(pad), Size(rs), Header(e, Need(e), hash), e.name)
         == Image(rs + [Record(e, Need(e))], hash) + Zeros(pad - Need(e))
  {
    NeedBounds(e);
    FieldsMakeRecord(e, hash);
    ImageAppend(rs, Record(e, Need(e)), hash);
    var n, h, a := Need(e), Header(e, Need(e), hash), Image(rs, hash);
    hide Need, WriteFields, Zeros, Header, RecordBytes, Image, Size, ValidRecords;
    ZerosSplit(n, pad);
    Associate(a, Zeros(n), Zeros(pad - n));
    WriteFieldsInside(a, Zeros(n), Zeros(pad - n), h, e.name);
  }

  lemma ZerosSplit(n: nat, m: nat)
    requires n <= m
    ensures Zeros(m) == Zeros(n) + Zeros(m - n)
  {
  }

  /** Folding the slack of a full block into its last record. */
  lemma SlackFolded(l: Layout, hash: Hash)
    requires ValidRecords(l.records) && l.records != [] && Size(l.records) <= l.ceiling
    requires l.records[|l.records| - 1].len + (l.ceiling - Size(l.records)) <= BLOCK
    ensures var rs, slack := l.records, l.ceiling - Size(l.records);
      var at := Size(rs[..|rs| - 1]) + 4;
      var d := Image(rs, hash) + Zeros(slack);
      && ValidRecords(Fold(l)) && at + 2 <= |d|
      && Get16(d, at) == rs[|rs| - 1].len
      && Put(d, at, Low16(Get16(d, at) + slack)) == Image(Fold(l), hash)
  {
    hide Need, Put, Zeros, RecordBytes, Image, Low16, Fold, ValidRecords, Size, ValidRecord, Get16;
    var rs, slack := l.records, l.ceiling - Size(l.records);
    var init, last := rs[..|rs| - 1], rs[|rs| - 1];
    var last' := last.(len := last.len + slack);
    LastParts(l, hash);
    ExtendRecord(last, slack, hash);
    ImageAppend(init, last', hash);
    var a, b, c := Image(init, hash), RecordBytes(last, hash), Zeros(slack);
    Associate(a, b, c);
    PutLast(a, b + c, 4, Low16(last.len + slack));
    Get16Inside(a, b, c, 4);
  }

  lemma LastParts(l: Layout, hash: Hash)
    requires ValidRecords(l.records) && l.records != [] && Size(l.records) <= l.ceiling
    ensures var rs := l.records;
      var init, last := rs[..|rs| - 1], rs[|rs| - 1];
      && ValidRecords(init) && ValidRecord(last) && ValidName(last.entry)
      && last.len >= META + |last.entry.name| + 1
      && Size(rs) == Size(init) + last.len
      && Image(rs, hash) == Image(init, hash) + RecordBytes(last, hash)
      && Fold(l) == init + [last.(len := last.len + (l.ceiling - Size(rs)))]
  {
    hide RecordBytes;
  }

  lemma PutLast(a: seq<Byte>, b: seq<Byte>, at: nat, bytes: seq<Byte>)
    requires at + |bytes| <= |b|
    ensures Put(a + b, |a| + at, bytes) == a + Put(b, at, bytes)
  {
  }

  lemma Get16Inside(a: seq<Byte>, b: seq<Byte>, c: seq<Byte>, at: nat)
    requires at + 2 <= |b|
    ensures Get16(a + b + c, |a| + at) == Get16(b, at)
  {
  }

  // ---------------------------------------------------------------- packing

  /** The buffer and the packing loop's variables when the layout so far is l. */
  ghost predicate Packed(d: seq<Byte>, ceiling: nat, offset: nat, lastReclen: int, l: Layout,
                         hash: Hash)
  {
    && ValidRecords(l.records) && ceiling == l.ceiling && offset == Size(l.records) <= ceiling
    && d == Image(l.records, hash) + Zeros(ceiling - offset)
    && lastReclen == (if l.records == [] then -1
                      else Size(l.records[..|l.records| - 1]) + 4)
  }

  /** The last record, if there is one, can take the slack of its block. */
  ghost predicate SlackFits(l: Layout)
  {
    l.records != [] ==>
      l.records[|l.records| - 1].len + (l.ceiling - Size(l.records)) <= BLOCK
  }

  /** What one turn of the loop needs to know about the layout so far. */
  ghost predicate Ready(l: Layout)
  {
    && SlackFits(l) && ValidRecords(Fold(l)) && Size(Fold(l)) == l.ceiling
    && (l.records == [] ==> l.ceiling == 0)
  }

  lemma PlacedFacts(entries: seq<Entry>)
    requires ValidEntries(entries)
    ensures var l := Placed(entries);
      ValidRecords(l.records) && SlackFits(l) && Size(l.records) <= l.ceiling
      && ValidRecords(Fold(l)) && Size(Fold(l)) == l.ceiling
      && (l.records == [] <==> entries == []) && Blocks(l.ceiling)
  {
    PlacedGood(entries);
    var l := Placed(entries);
    FoldGood(l, entries);
    if entries != [] {
      LastInBlock(l.records, entries, l.ceiling);
      assert GoodRecord(l.records, entries, |entries| - 1);
    }
    forall i | 0 <= i < |l.records| ensures ValidRecord(l.records[i]) {
      assert GoodRecord(l.records, entries, i);
    }
    forall i | 0 <= i < |Fold(l)| ensures ValidRecord(Fold(l)[i]) {
      assert GoodRecord(Fold(l), entries, i);
    }
  }

  /** Adds the slack to the stored length of the last record, if there is one. */
  method FoldSlack(d: seq<Byte>, lastReclen: int, ceiling: nat, offset: nat, ghost l: Layout,
                   hash: Hash)
    returns (r: seq<Byte>)
    requires Packed(d, ceiling, offset, lastReclen, l, hash) && Ready(l)
    ensures ValidRecords(Fold(l)) && r == Image(Fold(l), hash)
  {
    hide Packed, SlackFits, Image, Size, Fold, Zeros, Low16, Put, Get16, ValidRecords, Ready;
    PackedParts(d, ceiling, offset, lastReclen, l, hash);
    if lastReclen >= 0 {
      SlackFolded(l, hash);
      var len := Get16(d, lastReclen) + (ceiling - offset);
      SmallMod(len, 0x1_0000);
      r := Put(d, lastReclen, Low16(len % 0x1_0000));
    } else {
      r := d;
    }
  }

  lemma PackedParts(d: seq<Byte>, ceiling: nat, offset: nat, lastReclen: int, l: Layout,
                    hash: Hash)
    requires Packed(d, ceiling, offset, lastReclen, l, hash) && Ready(l)
    ensures ValidRecords(Fold(l))
    ensures lastReclen < 0 <==> l.records == []
    ensures ceiling == l.ceiling && offset == Size(l.records) <= ceiling && ValidRecords(l.records)
    ensures d == Image(l.records, hash) + Zeros(ceiling - offset)
    ensures l.records == [] ==> d == Image(Fold(l), hash)
    ensures l.records != [] ==>
              lastReclen == Size(l.records[..|l.records| - 1]) + 4
              && l.records[|l.records| - 1].len + (ceiling - offset) <= BLOCK
  {
  }

  lemma PackedEmpty(hash: Hash)
    ensures Packed([], 0, 0, -1, Placed([]), hash)
  {
  }

  lemma PlacedStep(entries: seq<Entry>, i: nat)
    requires ValidEntries(entries) && i < |entries|
    ensures Ready(Placed(entries[..i])) && ValidName(entries[i])
    ensures Placed(entries[..i + 1]) == Place(Placed(entries[..i]), entries[i])
  {
    var next := entries[..i + 1];
    assert next[..i] == entries[..i] && next[i] == entries[i];
    PlacedUnfolds(next);
    PlacedFacts(entries[..i]);
    PlacedEmptyCeiling(entries[..i]);
  }

  lemma PlacedEmptyCeiling(entries: seq<Entry>)
    requires ValidEntries(entries)
    ensures Placed(entries).records == [] ==> Placed(entries).ceiling == 0
  {
    PlacedFacts(entries);
  }

  lemma PlacedAll(entries: seq<Entry>)
    requires ValidEntries(entries)
    ensures entries[..|entries|] == entries && entries[..0] == []
    ensures Ready(Placed(entries)) && ValidRecords(Records(entries))
  {
    assert entries[..|entries|] == entries;
    PlacedFacts(entries);
    PlacedEmptyCeiling(entries);
  }

  /** Packs the entries into blocks; the image is the layout's. */
  method Pack(entries: seq<Entry>, hash: Hash) returns (dirents: seq<Byte>)
    requires ValidEntries(entries)
    ensures ValidRecords(Records(entries)) && dirents == Image(Records(entries), hash)
  {
    PlacedAll(entries);
    PackedEmpty(hash);
    hide Packed, Placed, Ready, Image;
    var nextCeiling, offset, lastReclen := 0, 0, -1;
    dirents := [];
    for i := 0 to |entries|
      invariant Packed(dirents, nextCeiling, offset, lastReclen, Placed(entries[..i]), hash)
    {
      PlacedStep(entries, i);
      dirents, nextCeiling, offset, lastReclen :=
        PackOne(dirents, nextCeiling, offset, lastReclen, entries[i], Placed(entries[..i]), hash);
    }
    dirents := FoldSlack(dirents, lastReclen, nextCeiling, offset, Placed(entries), hash);
  }

  /** One turn of the packing loop. */
  method PackOne(d: seq<Byte>, ceiling: nat, at: nat, last: int, e: Entry, ghost l: Layout,
                 hash: Hash)
    returns (dirents: seq<Byte>, nextCeiling: nat, offset: nat, lastReclen: int)
    requires Packed(d, ceiling, at, last, l, hash) && ValidName(e) && Ready(l)
    ensures Packed(dirents, nextCeiling, offset, lastReclen, Place(l, e), hash)
  {
    hide Packed, Image, Need, Zeros, Fold, Size, ValidRecords, ValidName, Ready, Place;
    var reclen := RecordLength(e);
    PackedParts(d, ceiling, at, last, l, hash);
    PlaceCases(l, e);
    var slackFolded := FoldSlackIfFull(d, last, ceiling, at, reclen, l, hash);
    if at + reclen > ceiling {
      nextCeiling := ceiling + BLOCK;
      lastReclen := ceiling + 4;
      offset := ceiling + reclen;
      dirents := AppendRecord(slackFolded, nextCeiling, ceiling, reclen, e, Fold(l), hash);
    } else {
      nextCeiling := ceiling;
      lastReclen := at + 4;
      offset := at + reclen;
      dirents := AppendRecord(d, ceiling, at, reclen, e, l.records, hash);
    }
  }

  /** Closes a full block: its slack is folded in and the next block is added as zeros. */
  method FoldSlackIfFull(d: seq<Byte>, last: int, ceiling: nat, at: nat, reclen: nat,
                         ghost l: Layout, hash: Hash) returns (r: seq<Byte>)
    requires Packed(d, ceiling, at, last, l, hash) && Ready(l)
    ensures at + reclen > ceiling ==>
      ValidRecords(Fold(l)) && Size(Fold(l)) == ceiling && r == Image(Fold(l), hash) + Zeros(BLOCK)
  {
    r := d;
    if at + reclen > ceiling {
      r := FoldSlack(d, last, ceiling, at, l, hash);
      r := r + Zeros(BLOCK);
    }
  }

  lemma PlaceCases(l: Layout, e: Entry)
    ensures Size(l.records) + Need(e) > l.ceiling ==>
              Place(l, e) == Layout(Fold(l) + [Record(e, Need(e))], l.ceiling + BLOCK)
    ensures Size(l.records) + Need(e) <= l.ceiling ==>
              Place(l, e) == Layout(l.records + [Record(e, Need(e))], l.ceiling)
  {
  }

  method RecordLength(e: Entry) returns (reclen: nat)
    requires ValidName(e)
    ensures reclen == Need(e) <= BLOCK
  {
    NeedBounds(e);
    WordRounding(META + |e.name| + 1);
    hide AlignUp;
    reclen := AlignUp(META + |e.name| + 1, 4);
  }

  /** Writes the record of e at the end of the records rs. */
  method AppendRecord(d: seq<Byte>, ceiling: nat, at: nat, reclen: nat, e: Entry,
                      ghost rs: seq<Record>, hash: Hash) returns (dirents: seq<Byte>)
    requires ValidRecords(rs) && ValidName(e) && at == Size(rs) && reclen == Need(e)
    requires at + reclen <= ceiling && d == Image(rs, hash) + Zeros(ceiling - at)
    ensures Packed(dirents, ceiling, at + reclen, at + 4,
                   Layout(rs + [Record(e, reclen)], ceiling), hash)
  {
    hide Packed, Image, Need, RecordBytes, Zeros, Header, WriteFields, Size, ValidRecords;
    NeedBounds(e);
    RecordWritten(rs, e, hash, ceiling - at);
    SizeAppend(rs, Record(e, reclen));
    SmallMod(reclen, 0x1_0000);
    dirents := WriteFields(d, at, Header(e, reclen % 0x1_0000, hash), e.name);
    PackedNow(dirents, ceiling, at + reclen, at + 4, rs, Record(e, reclen), hash);
  }

  lemma PackedNow(d: seq<Byte>, ceiling: nat, offset: nat, lastReclen: int, rs: seq<Record>,
                  r: Record, hash: Hash)
    requires ValidRecords(rs + [r]) && offset == Size(rs + [r]) <= ceiling
    requires d == Image(rs + [r], hash) + Zeros(ceiling - offset)
    requires lastReclen == Size(rs) + 4
    ensures Packed(d, ceiling, offset, lastReclen, Layout(rs + [r], ceiling), hash)
  {
    assert (rs + [r])[..|rs|] == rs;
  }

  // ---------------------------------------------------------------- walking the image

  /** Following the record lengths from the start of an image, as the pager's loop does. */
  function Walk(d: seq<Byte>): seq<Entry>
    decreases |d|
  {
    if |d| < META then []
    else
      var reclen, namlen := Get16(d, 4), d[7];
      if namlen == 0 || reclen == 0 || |d| < reclen || |d| < META + namlen then []
      else [Entry(d[META..META + namlen], d[6] == 8)] + Walk(d[reclen..])
  }

  /** The fields at the front of a record. */
  lemma RecordFields(r: Record, rest: seq<Byte>, hash: Hash)
    requires ValidRecord(r) && r.len < 0x1_0000
    ensures META + |r.entry.name| + 1 <= r.len
    ensures var d := RecordBytes(r, hash) + rest;
      && Get16(d, 4) == r.len && d[7] == |r.entry.name| && (d[6] == 8 <==> r.entry.isFile)
      && d[META..META + |r.entry.name|] == r.entry.name && d[r.len..] == rest
  {
    NeedBounds(r.entry);
    var d := RecordBytes(r, hash) + rest;
    assert d[4..6] == Low16(r.len);
    Get16Low16(d, 4, r.len);
    hide Need, Get16;
  }

  lemma WalkStep(r: Record, rest: seq<Byte>, hash: Hash)
    requires ValidRecord(r) && r.len < 0x1_0000
    ensures META + |r.entry.name| + 1 <= r.len
    ensures Walk(RecordBytes(r, hash) + rest) == [r.entry] + Walk(rest)
  {
    hide RecordBytes, Get16, Need;
    RecordFields(r, rest, hash);
    var d := RecordBytes(r, hash) + rest;
    assert Entry(d[META..META + |r.entry.name|], d[6] == 8) == r.entry;
  }

  /** The entries of a list of records. */
  function EntriesOf(rs: seq<Record>): (es: seq<Entry>)
    ensures |es| == |rs| && forall i :: 0 <= i < |rs| ==> es[i] == rs[i].entry
  {
    if rs == [] then [] else [rs[0].entry] + EntriesOf(rs[1..])
  }

  lemma {:induction false} WalkRecords(rs: seq<Record>, hash: Hash)
    requires ValidRecords(rs)
    requires forall i :: 0 <= i < |rs| ==> rs[i].len < 0x1_0000
    ensures Walk(Image(rs, hash)) == EntriesOf(rs)
  {
    if rs == [] {
      assert Image(rs, hash) == [];
    } else {
      assert ValidRecord(rs[0]) && ValidRecords(rs[1..]);
      hide Image, RecordBytes, Walk, ValidRecords, ValidRecord;
      ImageCons(rs, hash);
      NeedFits(rs[0]);
      WalkStep(rs[0], Image(rs[1..], hash), hash);
      WalkRecords(rs[1..], hash);
    }
  }

  lemma NeedFits(r: Record)
    requires ValidRecord(r)
    ensures ValidName(r.entry) && META + |r.entry.name| + 1 <= r.len
  {
  }

  /** Walking the packed image of a directory gives its names and types back, in order. */
  lemma WalkRecoversEntries(entries: seq<Entry>, hash: Hash)
    requires ValidEntries(entries)
    ensures ValidRecords(Records(entries))
    ensures Walk(Image(Records(entries), hash)) == entries
  {
    RecordsTile(entries);
    PlacedFacts(entries);
    var rs := Records(entries);
    forall i | 0 <= i < |rs| ensures rs[i].len < 0x1_0000 && rs[i].entry == entries[i] {
      assert GoodRecord(rs, entries, i);
    }
    hide Records, Image, Walk;
    WalkRecords(rs, hash);
  }

  // ---------------------------------------------------------------- paging

  /** Record i occupies [Size(rs[..i]), Size(rs[..i + 1])) of the image. */
  lemma {:induction false} RecordInImage(rs: seq<Record>, hash: Hash, i: nat)
    requires ValidRecords(rs) && i < |rs|
    ensures Size(rs[..i + 1]) == Size(rs[..i]) + rs[i].len <= Size(rs)
    ensures ValidRecord(rs[i]) && rs[i].len >= META + |rs[i].entry.name| + 1
    ensures Image(rs, hash)[Size(rs[..i])..Size(rs[..i + 1])] == RecordBytes(rs[i], hash)
    decreases |rs|
  {
    hide *;
    var init := rs[..|rs| - 1];
    ImageOfLast(rs, hash);
    if i < |init| {
      assert init[..i] == rs[..i] && init[..i + 1] == rs[..i + 1] && init[i] == rs[i];
      RecordInImage(init, hash, i);
      PrefixSlice(Image(init, hash), RecordBytes(rs[|init|], hash), Size(rs[..i]), Size(rs[..i + 1]));
    } else {
      assert rs[..i + 1] == rs && rs[..i] == init;
    }
  }

  /** The image of the records is that of all but the last followed by the last. */
  lemma ImageOfLast(rs: seq<Record>, hash: Hash)
    requires ValidRecords(rs) && rs != []
    ensures var n := |rs| - 1;
      && ValidRecords(rs[..n]) && ValidRecord(rs[n]) && rs[n].len >= META + |rs[n].entry.name| + 1
      && Size(rs) == Size(rs[..n]) + rs[n].len
      && Image(rs, hash) == Image(rs[..n], hash) + RecordBytes(rs[n], hash)
  {
  }

  lemma PrefixSlice(a: seq<Byte>, b: seq<Byte>, lo: nat, hi: nat)
    requires lo <= hi <= |a|
    ensures (a + b)[lo..hi] == a[lo..hi]
  {
  }

  /** The fields the pager reads at the start of record i. */
  lemma FieldsInImage(rs: seq<Record>, hash: Hash, i: nat)
    requires ValidRecords(rs) && i < |rs| && rs[i].len < 0x1_0000
    ensures Size(rs[..i + 1]) == Size(rs[..i]) + rs[i].len <= Size(rs)
    ensures Size(rs[..i]) + META <= Size(rs) && rs[i].len > 0
    ensures Get16(Image(rs, hash), Size(rs[..i]) + 4) == rs[i].len
    ensures Image(rs, hash)[Size(rs[..i]) + 7] == |rs[i].entry.name| > 0
  {
    hide Image, RecordBytes, Size, ValidRecords;
    RecordInImage(rs, hash, i);
    RecordFields(rs[i], [], hash);
    var d, at, len := Image(rs, hash), Size(rs[..i]), rs[i].len;
    var b := d[at..at + len];
    assert b + [] == b;
    assert b[4] == d[at + 4] && b[5] == d[at + 5] && b[7] == d[at + 7];
  }

  /** Where a block-aligned offset falls: a record that reaches past it starts at it. */
  lemma StartsAtOffset(at: nat, len: nat, offset: nat)
    requires len > 0 && at / BLOCK == (at + len - 1) / BLOCK && Blocks(offset)
    requires at <= offset < at + len
    ensures at == offset
  {
    assert offset == 512 * (offset / 512);
  }

  /** A record that starts before a block boundary ends at or before it. */
  lemma EndsBefore(at: nat, len: nat, boundary: nat)
    requires len > 0 && at / BLOCK == (at + len - 1) / BLOCK && Blocks(boundary) && at < boundary
    ensures at + len <= boundary
  {
    assert boundary == 512 * (boundary / 512);
  }

  lemma SumOfBlocks(a: nat, b: nat)
    requires Blocks(a) && Blocks(b)
    ensures Blocks(a + b)
  {
  }

  function Min(a: nat, b: nat): nat
  {
    if a < b then a else b
  }

  /** How many bytes a call with the given aligned count returns. */
  function PageLength(size: nat, offset: nat, count: nat): nat
  {
    if offset >= size then 0 else Min(count, size - offset)
  }

  /**
   The pager's loop: finds the record at the offset by walking record lengths and copies whole
   records while they fit. It copies exactly the next count bytes of the image, or what is left.
   */
  method CopyOut(d: seq<Byte>, ghost entries: seq<Entry>, hash: Hash, offset: nat, count: nat,
                 buf: array<Byte>)
    returns (written: nat)
    requires ValidEntries(entries) && ValidRecords(Records(entries))
    requires d == Image(Records(entries), hash)
    requires Blocks(offset) && offset < |d| && Blocks(count) && count <= buf.Length
    modifies buf
    ensures written == PageLength(|d|, offset, count)
    ensures offset + written <= |d| && written <= buf.Length
    ensures forall j :: 0 <= j < written ==> buf[j] == d[offset + j]
    ensures forall j :: written <= j < buf.Length ==> buf[j] == old(buf[j])
  {
    ghost var rs := Records(entries);
    RecordsTile(entries);
    hide Image, Records, Size, GoodRecords, Blocks, ValidRecords, Phase, PageLength, WithinBlock, StartsAt;
    var working, at := offset, 0;
    written := 0;
    ghost var k := 0;
    SizeEnds(rs);
    PhaseStart(offset);
    while at < |d|
      invariant StartsAt(rs, k, at) && at <= |d| && written <= count
      invariant Phase(at, working, offset, written) && offset + written <= |d|
      invariant forall j :: 0 <= j < written ==> buf[j] == d[offset + j]
      invariant forall j :: written <= j < buf.Length ==> buf[j] == old(buf[j])
      decreases |d| - at
    {
      var reclen := ReadLength(d, at, entries, rs, hash, k);
      k := k + 1;
      PhaseStep(at, reclen, working, offset, written, count);
      if working >= reclen {
        at := at + reclen;
        working := working - reclen;
      } else if written + reclen > count {
        break;
      } else {
        var n := reclen - working;
        Copy(d, at + working, n, buf, written, offset);
        written := written + n;
        at := at + reclen;
        working := 0;
      }
    }
    PhaseEnd(at, working, offset, written, |d|, count);
  }

  ghost predicate StartsAt(rs: seq<Record>, k: nat, at: nat)
  {
    k <= |rs| && at == Size(rs[..k])
  }

  /** Reads the length of the record at `at`; a record without length or name would end the loop. */
  method ReadLength(d: seq<Byte>, at: nat, ghost entries: seq<Entry>, ghost rs: seq<Record>,
                    hash: Hash, ghost k: nat)
    returns (reclen: nat)
    requires ValidRecords(rs) && GoodRecords(rs, entries) && d == Image(rs, hash)
    requires StartsAt(rs, k, at) && at < |d|
    ensures StartsAt(rs, k + 1, at + reclen) && at + reclen <= |d|
    ensures reclen > 0 && WithinBlock(at, reclen)
  {
    hide Image, Size, GoodRecords, Get16, ValidRecords;
    SizeAtEnd(rs, k);
    RecordRead(entries, rs, hash, k);
    reclen := Get16(d, at + 4);
    var namlen := d[at + 7];
    if namlen == 0 || reclen == 0 {
      assert false;  // every record has a name and a length
    }
  }

  /** len bytes from `at` lie inside one block. */
  ghost predicate WithinBlock(at: nat, len: nat)
  {
    len > 0 && at / BLOCK == (at + len - 1) / BLOCK
  }

  /** The pager first skips to the offset, then copies from it. */
  ghost predicate Phase(at: nat, working: nat, offset: nat, written: nat)
  {
    (written == 0 && at + working == offset) || (working == 0 && at == offset + written)
  }

  lemma PhaseStart(offset: nat)
    ensures Phase(0, offset, offset, 0)
  {
  }

  lemma PhaseEnd(at: nat, working: nat, offset: nat, written: nat, size: nat, count: nat)
    requires Phase(at, working, offset, written) && offset + written <= size && written <= count
    requires at >= size || written == count
    requires offset < size
    ensures written == PageLength(size, offset, count)
  {
  }

  /**
   What the pager decides at a record that lies in one block: it skips whole records up to the
   offset, starts copying exactly there, and stops only when the count is exhausted.
   */
  lemma PhaseStep(at: nat, len: nat, working: nat, offset: nat, written: nat, count: nat)
    requires Phase(at, working, offset, written) && written <= count
    requires len > 0 && WithinBlock(at, len) && Blocks(offset) && Blocks(count)
    ensures working >= len ==> Phase(at + len, working - len, offset, written)
    ensures working < len ==> working == 0 && at == offset + written
    ensures working < len ==> Phase(at + len, 0, offset, written + len)
    ensures working < len && written + len > count ==> written == count
  {
    if working < len {
      if working > 0 {
        StartsAtOffset(at, len, offset);
      }
      if written < count {
        SumOfBlocks(offset, count);
        EndsBefore(at, len, offset + count);
      }
    }
  }

  lemma SizeAtEnd(rs: seq<Record>, k: nat)
    requires k <= |rs| && Size(rs[..k]) < Size(rs)
    ensures k < |rs|
  {
    assert rs[..|rs|] == rs;
  }

  /** CopyOut in terms of whole sequences. */
  method CopyPage(d: seq<Byte>, ghost entries: seq<Entry>, hash: Hash, offset: nat, count: nat,
                  buf: array<Byte>)
    returns (written: nat)
    requires ValidEntries(entries) && ValidRecords(Records(entries))
    requires d == Image(Records(entries), hash)
    requires Blocks(offset) && offset < |d| && Blocks(count) && count <= buf.Length
    modifies buf
    ensures written == PageLength(|d|, offset, count)
    ensures offset + written <= |d| && written <= buf.Length
    ensures buf[..written] == d[offset..offset + written] && buf[written..] == old(buf[written..])
  {
    hide Image, Records, Blocks, PageLength;
    written := CopyOut(d, entries, hash, offset, count, buf);
    assert buf[..written] == d[offset..offset + written];
    assert buf[written..] == old(buf[written..]);
  }

  lemma SizeEnds(rs: seq<Record>)
    ensures StartsAt(rs, 0, 0)
  {
  }

  /** What reading record k of a directory's image gives, and where it lies. */
  lemma RecordRead(entries: seq<Entry>, rs: seq<Record>, hash: Hash, k: nat)
    requires ValidRecords(rs) && GoodRecords(rs, entries) && k < |rs|
    ensures Size(rs[..k + 1]) == Size(rs[..k]) + rs[k].len <= Size(rs)
    ensures Size(rs[..k]) + META <= Size(rs) && rs[k].len > 0
    ensures Get16(Image(rs, hash), Size(rs[..k]) + 4) == rs[k].len
    ensures Image(rs, hash)[Size(rs[..k]) + 7] > 0
    ensures Size(rs[..k]) / BLOCK == (Size(rs[..k]) + rs[k].len - 1) / BLOCK
  {
    assert GoodRecord(rs, entries, k);
    assert InOneBlock(rs, k);
    hide Image, Size, Get16;
    FieldsInImage(rs, hash, k);
  }

  /** memcpy(buf + to, d + from, n), where the source runs `shift` ahead of the destination. */
  method Copy(d: seq<Byte>, from: nat, n: nat, buf: array<Byte>, to: nat, ghost shift: nat)
    requires from + n <= |d| && to + n <= buf.Length && from == shift + to
    modifies buf
    ensures forall j :: 0 <= j < to || to + n <= j < buf.Length ==> buf[j] == old(buf[j])
    ensures forall j :: to <= j < to + n ==> buf[j] == d[shift + j]
  {
    for i := 0 to n
      invariant forall j :: 0 <= j < to || to + i <= j < buf.Length ==> buf[j] == old(buf[j])
      invariant forall j :: to <= j < to + i ==> buf[j] == d[shift + j]
    {
      buf[to + i] := d[from + i];
    }
  }

  datatype Reply = Done(bytes: nat) | InvalidArgument

  /** The part of an open directory file that listing it uses. */
  class DirectoryFile {
    const dents: seq<Entry>
    const hash: Hash
    var dentsOffset: nat

    ghost predicate Valid()
      reads this
    {
      ValidEntries(dents) && Blocks(dentsOffset)
    }

    /** The packed image every call works from. */
    ghost function Packed(): (d: seq<Byte>)
      requires ValidEntries(dents)
    {
      PlacedAll(dents);
      Image(Records(dents), hash)
    }

    constructor (dents: seq<Entry>, hash: Hash)
      requires ValidEntries(dents)
      ensures Valid() && dentsOffset == 0 && this.dents == dents && this.hash == hash
    {
      this.dents := dents;
      this.hash := hash;
      dentsOffset := 0;
    }

    /**
     Returns the next whole blocks of the image that fit in nbytes, or what is left, and moves the
     offset past them; fewer than 512 bytes of room is an error.
     */
    method GetDirentries(buf: array<Byte>, nbytes: int) returns (r: Reply, base: nat)
      requires Valid() && nbytes <= buf.Length && nbytes < 0x8000_0000
      modifies this, buf
      ensures Valid() && base == old(dentsOffset)
      ensures nbytes < BLOCK ==>
                r == InvalidArgument && dentsOffset == old(dentsOffset) && buf[..] == old(buf[..])
      ensures nbytes >= BLOCK ==>
        var n := PageLength(|Packed()|, base, nbytes / BLOCK * BLOCK);
        && r == Done(n) && dentsOffset == base + n && n <= buf.Length
        && (n > 0 ==> base + n <= |Packed()| && buf[..n] == Packed()[base..base + n])
        && buf[n..] == old(buf[n..])
    {
      hide Image, Blocks, Records, PageLength, AlignDown, ValidRecords;
      base := dentsOffset;
      if nbytes < BLOCK {
        return InvalidArgument, base;
      }
      PastTheEnd(|Packed()|, dentsOffset, nbytes / BLOCK * BLOCK);
      var dirents := Pack(dents, hash);
      assert dirents == Packed();
      if dentsOffset >= |dirents| {
        return Done(0), base;
      }
      BlockRounding(nbytes);
      var count := AlignDown(nbytes, BLOCK);
      CountIsBlocks(nbytes);
      var n := CopyPage(dirents, dents, hash, dentsOffset, count, buf);
      PackedIsBlocks();
      PageIsBlocks(|dirents|, dentsOffset, count);
      dentsOffset := dentsOffset + n;
      return Done(n), base;
    }

    lemma PackedIsBlocks()
      requires ValidEntries(dents)
      ensures Blocks(|Packed()|)
    {
      RecordsTile(dents);
    }
  }

  lemma PastTheEnd(size: nat, offset: nat, count: nat)
    ensures offset >= size ==> PageLength(size, offset, count) == 0
  {
  }

  lemma CountIsBlocks(n: nat)
    requires n >= BLOCK
    ensures Blocks(n / BLOCK * BLOCK) && BLOCK <= n / BLOCK * BLOCK <= n
  {
  }

  lemma PageIsBlocks(size: nat, offset: nat, count: nat)
    requires Blocks(size) && Blocks(offset) && Blocks(count)
    ensures Blocks(PageLength(size, offset, count)) && Blocks(offset + PageLength(size, offset, count))
  {
  }

  // ---------------------------------------------------------------- successive calls

  /** The offset after calls with the given counts. */
  function OffsetAfter(size: nat, offset: nat, counts: seq<nat>): nat
    decreases |counts|
  {
    if counts == [] then offset
    else OffsetAfter(size, offset + PageLength(size, offset, counts[0]), counts[1..])
  }

  /** Everything the calls return, one after another. */
  function HandedOut(image: seq<Byte>, offset: nat, counts: seq<nat>): seq<Byte>
    requires offset <= |image|
    decreases |counts|
  {
    if counts == [] then []
    else
      var n := PageLength(|image|, offset, counts[0]);
      image[offset..offset + n] + HandedOut(image, offset + n, counts[1..])
  }

  lemma {:induction false} PagesOffset(size: nat, offset: nat, counts: seq<nat>)
    requires Blocks(size) && Blocks(offset) && offset <= size
    requires forall i :: 0 <= i < |counts| ==> Blocks(counts[i]) && counts[i] >= BLOCK
    ensures var end := OffsetAfter(size, offset, counts);
      Blocks(end) && offset <= end <= size && (offset + BLOCK * |counts| >= size ==> end == size)
    decreases |counts|
  {
    if counts != [] {
      var n := PageLength(size, offset, counts[0]);
      PageIsBlocks(size, offset, counts[0]);
      AtLeastABlock(size, offset, counts[0]);
      assert offset + n <= size;
      hide Blocks, PageLength;
      PagesOffset(size, offset + n, counts[1..]);
    }
  }

  /**
   Over any calls with room for at least a block each, the offset stays on a block boundary and
   what was returned is the image up to it; every call before the end returns at least a block, so
   as many calls as there are blocks return the whole image.
   */
  lemma {:induction false} PagesConcatenate(image: seq<Byte>, offset: nat, counts: seq<nat>)
    requires Blocks(|image|) && Blocks(offset) && offset <= |image|
    requires forall i :: 0 <= i < |counts| ==> Blocks(counts[i]) && counts[i] >= BLOCK
    ensures var end := OffsetAfter(|image|, offset, counts);
      && Blocks(end) && offset <= end <= |image|
      && HandedOut(image, offset, counts) == image[offset..end]
      && (offset + BLOCK * |counts| >= |image| ==> end == |image|)
    decreases |counts|
  {
    hide *;
    PagesOffset(|image|, offset, counts);
    FirstPage(image, offset, counts);
    if counts != [] {
      var n := PageLength(|image|, offset, counts[0]);
      PageIsBlocks(|image|, offset, counts[0]);
      PagesConcatenate(image, offset + n, counts[1..]);
      SliceJoin(image, offset, offset + n, OffsetAfter(|image|, offset, counts));
    }
  }

  /** What the first call returns, and what is left to the others. */
  lemma FirstPage(image: seq<Byte>, offset: nat, counts: seq<nat>)
    requires offset <= |image|
    ensures counts == [] ==>
      HandedOut(image, offset, counts) == [] && OffsetAfter(|image|, offset, counts) == offset
    ensures counts != [] ==>
      var n := PageLength(|image|, offset, counts[0]);
      && offset + n <= |image|
      && HandedOut(image, offset, counts)
           == image[offset..offset + n] + HandedOut(image, offset + n, counts[1..])
      && OffsetAfter(|image|, offset, counts) == OffsetAfter(|image|, offset + n, counts[1..])
  {
  }

  lemma SliceJoin(d: seq<Byte>, a: nat, b: nat, c: nat)
    requires a <= b <= c <= |d|
    ensures d[a..b] + d[b..c] == d[a..c]
  {
  }

  /**
   A call with room for nbytes returns whole blocks, no more than fit and no more than are left, and
   stops short of the end only when another block would not fit.
   */
  lemma PageIsLargest(size: nat, offset: nat, nbytes: nat, n: nat)
    requires Blocks(size) && Blocks(offset) && offset <= size && nbytes >= BLOCK
    ensures n == PageLength(size, offset, nbytes / BLOCK * BLOCK) <==>
      Blocks(n) && n <= nbytes && offset + n <= size && (offset + n < size ==> n + BLOCK > nbytes)
  {
    CountIsBlocks(nbytes);
    var count := nbytes / BLOCK * BLOCK;
    PageIsBlocks(size, offset, count);
    assert nbytes < count + BLOCK;
    if Blocks(n) {
      assert size == 512 * (size / 512) && offset == 512 * (offset / 512) && n == 512 * (n / 512);
    }
  }

  /** A call before the end makes progress by at least one block. */
  lemma AtLeastABlock(size: nat, offset: nat, count: nat)
    requires Blocks(size) && Blocks(offset) && count >= BLOCK
    ensures offset < size ==> PageLength(size, offset, count) >= BLOCK
  {
    assert size == 512 * (size / 512) && offset == 512 * (offset / 512);
  }
}
