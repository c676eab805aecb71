/**
 The kernel's version-1 UUID generator. The clock is a parameter: `Run` is any sequence of calls with
 any timestamps.
 */
module Uuid {
  import opened Words

  const TIME_BITS: nat := 60
  const SEQUENCE_BITS: nat := 14
  const LOW_BITS: nat := 32
  const MID_BITS: nat := 16
  const HIGH_SHIFT: nat := 48
  const HIGH_BITS: nat := 12
  const CLOCK_LOW_BITS: nat := 8
  const CLOCK_HIGH_BITS: nat := 6

  const TIME_MASK: nat := 0x0fff_ffff_ffff_ffff
  const SEQUENCE_MASK: nat := 0x3fff
  const VERSION_MASK: nat := 0x0fff
  const VARIANT_MASK: nat := 0x3f
  const VERSION_TAG: nat := 0x1000
  const VARIANT_TAG: nat := 0x80

  datatype KernelUuid = KernelUuid(
    timeLow: nat, timeMid: nat, timeHiAndVersion: nat,
    clockSeqHiAndReserved: nat, clockSeqLow: nat, node: seq<nat>)

  /** What the generator remembers between calls. */
  datatype State = State(lastTimestamp: nat, clockSequence: nat)

  // ---------------------------------------------------------------- fields

  /** The fields of section 4.1.2 of RFC 4122, in the widths of the struct. */
  function Pack(timestamp: nat, sequence: nat, node: seq<nat>): KernelUuid
  {
    KernelUuid(
      Low(timestamp, LOW_BITS),
      Low(Shr(timestamp, LOW_BITS), MID_BITS),
      Low(Or(And(Shr(timestamp, HIGH_SHIFT), VERSION_MASK), VERSION_TAG), MID_BITS),
      Low(Or(And(Shr(sequence, CLOCK_LOW_BITS), VARIANT_MASK), VARIANT_TAG), CLOCK_LOW_BITS),
      Low(sequence, CLOCK_LOW_BITS),
      node)
  }

  /** Section 4.1.4 of RFC 4122: the 60-bit timestamp, from its three fields. */
  function Timestamp(u: KernelUuid): nat
  {
    u.timeLow + Shl(u.timeMid + Shl(Low(u.timeHiAndVersion, HIGH_BITS), MID_BITS), LOW_BITS)
  }

  /** Section 4.1.3: the version is the top four bits of the third field. */
  function Version(u: KernelUuid): nat
  {
    Shr(u.timeHiAndVersion, HIGH_BITS)
  }

  /** Section 4.1.1: the variant is the top two bits of the clock sequence. */
  function Variant(u: KernelUuid): nat
  {
    Shr(u.clockSeqHiAndReserved, CLOCK_HIGH_BITS)
  }

  /** Section 4.1.5: the 14-bit clock sequence. */
  function Sequence(u: KernelUuid): nat
  {
    u.clockSeqLow + Shl(Low(u.clockSeqHiAndReserved, CLOCK_HIGH_BITS), CLOCK_LOW_BITS)
  }

  lemma MaskPowers()
    ensures Pow2(6) == VARIANT_MASK + 1 && Pow2(12) == VERSION_MASK + 1 && Pow2(14) == SEQUENCE_MASK + 1
    ensures Pow2(60) == TIME_MASK + 1 && Pow2(16) == 0x1_0000 && Pow2(8) == 0x100
    ensures Shl(1, 12) == VERSION_TAG && Shl(2, 6) == VARIANT_TAG
  {
    KnownPowers();
    assert Pow2(6) == 0x40;
    assert Pow2(12) == 0x10 * Pow2(8);
    assert Pow2(14) == 0x40 * Pow2(8);
    Sixty();
    ShlIsMul(1, 12);
    ShlIsMul(2, 6);
  }

  lemma Sixty()
    ensures Pow2(60) == 0x1000_0000_0000_0000
  {
    KnownPowers();
    assert Pow2(40) == 0x100 * Pow2(32);
    assert Pow2(48) == 0x100 * Pow2(40);
    assert Pow2(56) == 0x100 * Pow2(48);
    assert Pow2(60) == 0x10 * Pow2(56);
  }

  /** A tag above the masked bits is kept beside them. */
  lemma Tagged(x: nat, mask: nat, k: nat, tag: nat, width: nat)
    requires mask == Pow2(k) - 1 && Shl(tag, k) + mask < Pow2(width)
    ensures var r := Low(Or(And(x, mask), Shl(tag, k)), width);
            Shr(r, k) == tag && Low(r, k) == Low(x, k)
  {
    hide Low, Shr, Shl, And, Or, Pow2;
    AndOnes(x, k);
    OrShifted(Low(x, k), tag, k);
    LowIdentity(Low(x, k) + Shl(tag, k), width);
    ShrOfSum(Low(x, k), tag, k);
  }

  /** Version 1, variant 10, and both numbers can be read back. */
  lemma ReadBack(timestamp: nat, sequence: nat, node: seq<nat>)
    requires timestamp < Pow2(TIME_BITS) && sequence < Pow2(SEQUENCE_BITS)
    ensures var u := Pack(timestamp, sequence, node);
            && Version(u) == 1 && Variant(u) == 2
            && Timestamp(u) == timestamp && Sequence(u) == sequence && u.node == node
  {
    hide Low, Shr, Shl, And, Or, Pow2;
    MaskPowers();
    Tagged(Shr(timestamp, HIGH_SHIFT), VERSION_MASK, HIGH_BITS, 1, MID_BITS);
    Tagged(Shr(sequence, CLOCK_LOW_BITS), VARIANT_MASK, CLOCK_HIGH_BITS, 2, CLOCK_LOW_BITS);
    LowSplit(timestamp, LOW_BITS, MID_BITS + HIGH_BITS);
    LowSplit(Shr(timestamp, LOW_BITS), MID_BITS, HIGH_BITS);
    ShrShr(timestamp, LOW_BITS, MID_BITS);
    LowIdentity(timestamp, TIME_BITS);
    LowSplit(sequence, CLOCK_LOW_BITS, CLOCK_HIGH_BITS);
    LowIdentity(sequence, SEQUENCE_BITS);
  }

  lemma PackInjective(s: State, t: State, node: seq<nat>)
    requires Valid(s) && Valid(t)
    ensures Pack(s.lastTimestamp, s.clockSequence, node) == Pack(t.lastTimestamp, t.clockSequence, node) <==> s == t
  {
    hide Pack, Pow2, Timestamp, Sequence;
    ReadBack(s.lastTimestamp, s.clockSequence, node);
    ReadBack(t.lastTimestamp, t.clockSequence, node);
  }

  // ---------------------------------------------------------------- runs

  predicate Advances(s: State, timestamp: nat)
  {
    s.lastTimestamp < Low(timestamp, TIME_BITS)
  }

  /** The state after a call; a clock that does not advance moves the sequence. */
  function After(s: State, timestamp: nat): State
  {
    State(Low(timestamp, TIME_BITS),
          if Advances(s, timestamp) then s.clockSequence else Low(s.clockSequence + 1, SEQUENCE_BITS))
  }

  function AfterAll(s: State, timestamps: seq<nat>): State
  {
    if timestamps == [] then s else After(AfterAll(s, timestamps[..|timestamps| - 1]), timestamps[|timestamps| - 1])
  }

  /** The time of the last call, in 60 bits; before the first call, the time the run starts from. */
  function LastTime(s: State, timestamps: seq<nat>): nat
  {
    if timestamps == [] then s.lastTimestamp else Low(timestamps[|timestamps| - 1], TIME_BITS)
  }

  /** How many of the calls see a time that is not later than the time of the call before. */
  function Stalls(s: State, timestamps: seq<nat>): (n: nat)
    ensures n <= |timestamps|
  {
    if timestamps == [] then 0
    else
      var init := timestamps[..|timestamps| - 1];
      Stalls(s, init) + (if LastTime(s, init) < LastTime(s, timestamps) then 0 else 1)
  }

  lemma TimeIsLast(s: State, timestamps: seq<nat>)
    ensures AfterAll(s, timestamps).lastTimestamp == LastTime(s, timestamps)
  {
    hide Low;
  }

  /** The UUID that call i of a run returns. */
  function Generated(s: State, timestamps: seq<nat>, node: seq<nat>, i: nat): KernelUuid
    requires i < |timestamps|
  {
    var now := AfterAll(s, timestamps[..i + 1]);
    Pack(now.lastTimestamp, now.clockSequence, node)
  }

  predicate Valid(s: State)
  {
    s.lastTimestamp < Pow2(TIME_BITS) && s.clockSequence < Pow2(SEQUENCE_BITS)
  }

  lemma {:induction false} AfterAllValid(s: State, timestamps: seq<nat>)
    requires Valid(s)
    ensures Valid(AfterAll(s, timestamps))
  {
    hide Low, Pow2;
    if timestamps != [] {
      AfterAllValid(s, timestamps[..|timestamps| - 1]);
    }
  }

  /** The sequence number is the starting one plus the stalls, modulo 2^14. */
  lemma {:induction false} SequenceCountsStalls(s: State, timestamps: seq<nat>)
    requires Valid(s)
    ensures AfterAll(s, timestamps).clockSequence == Low(s.clockSequence + Stalls(s, timestamps), SEQUENCE_BITS)
  {
    hide Low, Pow2;
    LowIdentity(s.clockSequence, SEQUENCE_BITS);
    if timestamps != [] {
      var init := timestamps[..|timestamps| - 1];
      SequenceCountsStalls(s, init);
      TimeIsLast(s, init);
      LowSucc(s.clockSequence + Stalls(s, init), SEQUENCE_BITS);
    }
  }

  lemma LowUnfolds(q: nat, r: nat, k: nat)
    requires k > 0 && r < 2
    ensures Low(2 * q + r, k) == 2 * Low(q, k - 1) + r
  {
    assert (2 * q + r) / 2 == q;
  }

  lemma {:induction false} LowSucc(a: nat, k: nat)
    ensures Low(Low(a, k) + 1, k) == Low(a + 1, k)
    decreases k
  {
    hide Low;
    if k == 0 {
      LowZero(Low(a, 0) + 1);
      LowZero(a + 1);
    } else {
      var q, r := a / 2, a % 2;
      var h := Low(q, k - 1);
      LowUnfolds(q, r, k);
      if r == 0 {
        LowUnfolds(h, 1, k);
        LowUnfolds(q, 1, k);
        LowLow(q, k - 1, k - 1);
      } else {
        LowUnfolds(h + 1, 0, k);
        LowUnfolds(q + 1, 0, k);
        LowSucc(q, k - 1);
      }
    }
  }

  lemma LowZero(a: nat)
    ensures Low(a, 0) == 0
  {
  }

  /** One call more is a stall or moves the clock on. */
  lemma LastCall(s: State, timestamps: seq<nat>)
    requires timestamps != []
    ensures var before := timestamps[..|timestamps| - 1];
      || Stalls(s, timestamps) == Stalls(s, before) + 1
      || (Stalls(s, timestamps) == Stalls(s, before)
          && AfterAll(s, before).lastTimestamp < AfterAll(s, timestamps).lastTimestamp)
  {
    hide Low, Pow2;
    TimeIsLast(s, timestamps);
    TimeIsLast(s, timestamps[..|timestamps| - 1]);
  }

  /** Stalls only accumulate, and a stretch without stalls moves the timestamp forward. */
  lemma {:induction false} StallsGrow(s: State, timestamps: seq<nat>, i: nat, j: nat)
    requires i <= j <= |timestamps|
    ensures Stalls(s, timestamps[..i]) <= Stalls(s, timestamps[..j])
    ensures i < j && Stalls(s, timestamps[..i]) == Stalls(s, timestamps[..j]) ==>
      AfterAll(s, timestamps[..i]).lastTimestamp < AfterAll(s, timestamps[..j]).lastTimestamp
    decreases j
  {
    hide Stalls, AfterAll;
    if i < j {
      StallsGrow(s, timestamps, i, j - 1);
      LastCall(s, timestamps[..j]);
      assert timestamps[..j][..j - 1] == timestamps[..j - 1];
    }
  }

  /** Two calls of a run return the same UUID exactly when they see the same time a multiple of 2^14 stalls apart. */
  lemma SameUuidIff(s: State, timestamps: seq<nat>, node: seq<nat>, i: nat, j: nat)
    requires Valid(s) && i < j < |timestamps|
    ensures Generated(s, timestamps, node, i) == Generated(s, timestamps, node, j) <==>
      && Low(timestamps[i], TIME_BITS) == Low(timestamps[j], TIME_BITS)
      && Low(s.clockSequence + Stalls(s, timestamps[..i + 1]), SEQUENCE_BITS) ==
         Low(s.clockSequence + Stalls(s, timestamps[..j + 1]), SEQUENCE_BITS)
  {
    hide Low, Pow2, Pack, Stalls, Valid, Advances;
    var a, b := timestamps[..i + 1], timestamps[..j + 1];
    AfterAllValid(s, a);
    AfterAllValid(s, b);
    SequenceCountsStalls(s, a);
    SequenceCountsStalls(s, b);
    PackInjective(AfterAll(s, a), AfterAll(s, b), node);
    assert a[i] == timestamps[i] && b[j] == timestamps[j];
  }

  /** With fewer than 2^14 stalls all UUIDs of a run differ, whatever the clock does. */
  lemma AllDistinct(s: State, timestamps: seq<nat>, node: seq<nat>, i: nat, j: nat)
    requires Valid(s) && Stalls(s, timestamps) < Pow2(SEQUENCE_BITS)
    requires i < j < |timestamps|
    ensures Generated(s, timestamps, node, i) != Generated(s, timestamps, node, j)
  {
    hide Low, Pow2, Pack, Stalls, Generated, Valid;
    var m, n := Stalls(s, timestamps[..i + 1]), Stalls(s, timestamps[..j + 1]);
    SameUuidIff(s, timestamps, node, i, j);
    StallsGrow(s, timestamps, i + 1, j + 1);
    StallsGrow(s, timestamps, j + 1, |timestamps|);
    assert timestamps[..|timestamps|] == timestamps;
    if m < n {
      if Low(s.clockSequence + m, SEQUENCE_BITS) == Low(s.clockSequence + n, SEQUENCE_BITS) {
        LowApart(s.clockSequence + m, s.clockSequence + n, SEQUENCE_BITS);
        assert false;
      }
    } else {
      assert timestamps[..i + 1][i] == timestamps[i] && timestamps[..j + 1][j] == timestamps[j];
    }
  }

  /** A clock that stands still. */
  function Frozen(timestamp: nat, calls: nat): (t: seq<nat>)
    ensures |t| == calls && forall i :: 0 <= i < calls ==> t[i] == timestamp
  {
    seq(calls, i => timestamp)
  }

  lemma {:induction false} FrozenStalls(s: State, timestamp: nat, calls: nat)
    requires calls > 0 && Advances(s, timestamp)
    ensures Stalls(s, Frozen(timestamp, calls)) == calls - 1
    ensures AfterAll(s, Frozen(timestamp, calls)).lastTimestamp == Low(timestamp, TIME_BITS)
    decreases calls
  {
    hide Low;
    var t := Frozen(timestamp, calls);
    assert t[..calls - 1] == Frozen(timestamp, calls - 1);
    if calls == 1 {
      assert t[..0] == [];
    } else {
      FrozenStalls(s, timestamp, calls - 1);
    }
  }

  /** The bound is sharp: 2^14 stalls on one timestamp repeat a UUID. */
  lemma BoundIsSharp(s: State, timestamp: nat, node: seq<nat>)
    requires Valid(s) && Advances(s, timestamp)
    ensures var t := Frozen(timestamp, Pow2(SEQUENCE_BITS) + 1);
            && Stalls(s, t) == Pow2(SEQUENCE_BITS)
            && Generated(s, t, node, 0) == Generated(s, t, node, Pow2(SEQUENCE_BITS))
  {
    hide Low, Pow2, Pack, Stalls, Generated, Advances;
    var n := Pow2(SEQUENCE_BITS);
    var t := Frozen(timestamp, n + 1);
    FrozenStalls(s, timestamp, n + 1);
    FrozenStalls(s, timestamp, 1);
    assert t[..0 + 1] == Frozen(timestamp, 1) && t[..n + 1] == t;
    LowPeriodic(s.clockSequence, SEQUENCE_BITS);
    SameUuidIff(s, t, node, 0, n);
  }

  // ---------------------------------------------------------------- the generator

  class KernelUuidGenerator {
    var node: seq<nat>
    var lastTimestamp: nat
    var clockSequence: nat

    ghost function Now(): State
      reads this
    {
      State(lastTimestamp, clockSequence)
    }

    constructor (node: seq<nat>, clockSequence: nat)
      requires |node| == 6
      ensures Valid(Now()) && lastTimestamp == 0
      ensures |this.node| == 6 && Bit(this.node[0], 0) && this.node[1..] == node[1..]
    {
      this.node := node[0 := Or(node[0], 1)];
      this.clockSequence := And(clockSequence, SEQUENCE_MASK);
      lastTimestamp := 0;
      new;
      AndOnes(clockSequence, SEQUENCE_BITS);
      MaskPowers();
      OrBit(node[0], 1, 0);
    }

    method GenerateAtTimestamp(timestamp100ns: nat) returns (uuid: KernelUuid)
      requires Valid(Now())
      modifies this
      ensures Valid(Now()) && Now() == After(old(Now()), timestamp100ns) && node == old(node)
      ensures Timestamp(uuid) == lastTimestamp && Sequence(uuid) == clockSequence && uuid.node == node
      ensures Version(uuid) == 1 && Variant(uuid) == 2
      ensures uuid == Pack(lastTimestamp, clockSequence, node)
    {
      hide Low, Pow2, Pack, And, Timestamp, Sequence, Version, Variant;
      MaskPowers();
      AndOnes(timestamp100ns, TIME_BITS);
      AndOnes(clockSequence + 1, SEQUENCE_BITS);
      var timestamp := And(timestamp100ns, TIME_MASK);
      if lastTimestamp >= timestamp {
        clockSequence := And(clockSequence + 1, SEQUENCE_MASK);
      }
      lastTimestamp := timestamp;
      uuid := Pack(timestamp, clockSequence, node);
      ReadBack(timestamp, clockSequence, node);
    }
  }
}
