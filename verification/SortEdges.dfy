/**
 The edge sort of the font rasteriser: a quicksort with unguarded scans that stops at segments of
 twelve, then an insertion sort over everything. Coordinates are real numbers; only y0 orders edges.
 */
module SortEdges {
  import opened Words

  datatype Edge = Edge(x0: real, y0: real, x1: real, y1: real, invert: int)

  const THRESHOLD: nat := 12

  /** STBTT__COMPARE */
  predicate Compare(a: Edge, b: Edge)
  {
    a.y0 < b.y0
  }

  predicate Sorted(s: seq<Edge>, lo: nat, hi: nat)
    requires hi <= |s|
  {
    forall a, b :: lo <= a < b < hi ==> s[a].y0 <= s[b].y0
  }

  // ---------------------------------------------------------------- rearranging a segment

  /** t is s with the elements of [lo, hi) rearranged among themselves. */
  ghost predicate Within(s: seq<Edge>, t: seq<Edge>, lo: nat, hi: nat)
  {
    && |s| == |t| && lo <= hi <= |s|
    && (forall k :: 0 <= k < lo ==> s[k] == t[k])
    && (forall k :: hi <= k < |s| ==> s[k] == t[k])
    && multiset(s[lo..hi]) == multiset(t[lo..hi])
  }

  lemma WithinReflexive(s: seq<Edge>, lo: nat, hi: nat)
    requires lo <= hi <= |s|
    ensures Within(s, s, lo, hi)
  {
  }

  lemma WithinBounds(s: seq<Edge>, t: seq<Edge>, lo: nat, hi: nat)
    requires Within(s, t, lo, hi)
    ensures lo <= hi <= |s| == |t|
  {
  }

  lemma WithinTransitive(s: seq<Edge>, t: seq<Edge>, u: seq<Edge>, lo: nat, hi: nat)
    requires Within(s, t, lo, hi) && Within(t, u, lo, hi)
    ensures Within(s, u, lo, hi)
  {
  }

  lemma Segments(s: seq<Edge>, lo: nat, a: nat, b: nat, hi: nat)
    requires lo <= a <= b <= hi <= |s|
    ensures s[lo..hi] == s[lo..a] + s[a..b] + s[b..hi]
  {
  }

  /** Rearranging part of a segment rearranges the segment. */
  lemma WithinWider(s: seq<Edge>, t: seq<Edge>, lo: nat, a: nat, b: nat, hi: nat)
    requires Within(s, t, a, b) && lo <= a && b <= hi <= |s|
    ensures Within(s, t, lo, hi)
  {
    Segments(s, lo, a, b, hi);
    Segments(t, lo, a, b, hi);
    assert s[lo..a] == t[lo..a] && s[b..hi] == t[b..hi];
  }

  lemma SwapWithin(s: seq<Edge>, i: nat, j: nat, lo: nat, hi: nat)
    requires lo <= i < hi && lo <= j < hi <= |s|
    ensures Within(s, s[i := s[j]][j := s[i]], lo, hi)
  {
    var t := s[i := s[j]][j := s[i]];
    var u := s[lo..hi];
    assert t[lo..hi] == u[i - lo := u[j - lo]][j - lo := u[i - lo]];
  }

  /** An element of the rearranged segment was there before. */
  lemma WithinFrom(s: seq<Edge>, t: seq<Edge>, lo: nat, hi: nat, k: nat) returns (j: nat)
    requires Within(s, t, lo, hi) && lo <= k < hi
    ensures lo <= j < hi && s[j] == t[k]
  {
    assert t[lo..hi][k - lo] in multiset(t[lo..hi]);
    assert t[k] in multiset(s[lo..hi]);
    var i :| 0 <= i < |s[lo..hi]| && s[lo..hi][i] == t[k];
    j := lo + i;
  }

  // ---------------------------------------------------------------- what the quicksort achieves

  /** Nothing before position cut is above anything from cut on. */
  ghost predicate CutAt(s: seq<Edge>, lo: nat, cut: nat, hi: nat)
    requires hi <= |s|
  {
    forall a, b :: lo <= a < cut <= b < hi ==> s[a].y0 <= s[b].y0
  }

  /**
   The segment is cut into stretches of at most twelve edges, with at most one edge left out before
   each cut; everything before a cut is ordered before everything after it.
   */
  ghost predicate Rough(s: seq<Edge>, lo: nat, hi: nat)
    requires lo <= hi <= |s|
    decreases hi - lo
  {
    hi - lo <= THRESHOLD || exists j, i :: RoughSplit(s, lo, j, i, hi)
  }

  ghost predicate RoughSplit(s: seq<Edge>, lo: nat, j: nat, i: nat, hi: nat)
    requires lo <= hi <= |s|
    decreases hi - lo, 0
  {
    && lo <= j < hi && lo < i <= hi && j <= i <= j + 1
    && CutAt(s, lo, i, hi)
    && Rough(s, lo, j) && Rough(s, i, hi)
  }

  lemma {:induction false} RoughFrame(s: seq<Edge>, t: seq<Edge>, lo: nat, hi: nat)
    requires lo <= hi <= |s| == |t| && Rough(s, lo, hi)
    requires forall k :: lo <= k < hi ==> s[k] == t[k]
    ensures Rough(t, lo, hi)
    decreases hi - lo
  {
    if hi - lo > THRESHOLD {
      var j, i :| RoughSplit(s, lo, j, i, hi);
      RoughFrame(s, t, lo, j);
      RoughFrame(s, t, i, hi);
      assert RoughSplit(t, lo, j, i, hi);
    }
  }

  /** Rearranging one side of a cut keeps it. */
  lemma CutKept(s: seq<Edge>, t: seq<Edge>, lo: nat, cut: nat, hi: nat, a: nat, b: nat)
    requires lo <= cut <= hi <= |s| && CutAt(s, lo, cut, hi)
    requires Within(s, t, a, b) && ((lo <= a && b <= cut) || (cut <= a && b <= hi))
    ensures CutAt(t, lo, cut, hi)
  {
    forall x, y | lo <= x < cut <= y < hi ensures t[x].y0 <= t[y].y0 {
      var x', y' := x, y;
      if a <= x < b {
        x' := WithinFrom(s, t, a, b, x);
      }
      if a <= y < b {
        y' := WithinFrom(s, t, a, b, y);
      }
      assert s[x'] == t[x] && s[y'] == t[y];
    }
  }

  /** Finishing [a, b) is all that is left to do for [lo, hi). */
  ghost predicate Completes(s: seq<Edge>, lo: nat, hi: nat, a: nat, b: nat)
  {
    && lo <= a <= b <= hi <= |s|
    && forall t :: Within(s, t, a, b) && Rough(t, a, b) ==> Rough(t, lo, hi)
  }

  lemma CompletesItself(s: seq<Edge>, lo: nat, hi: nat)
    requires lo <= hi <= |s|
    ensures Completes(s, lo, hi, lo, hi)
  {
  }

  /** One step: a cut was made in [a, b), its left side has been finished, the right side is left to do. */
  lemma StepRight(s: seq<Edge>, t: seq<Edge>, lo: nat, hi: nat, a: nat, b: nat, j: nat, i: nat)
    requires Completes(s, lo, hi, a, b) && Within(s, t, a, b)
    requires a <= j < b && a < i <= b && j <= i <= j + 1 && CutAt(t, a, i, b) && Rough(t, a, j)
    ensures Completes(t, lo, hi, i, b)
  {
    forall u | Within(t, u, i, b) && Rough(u, i, b) ensures Rough(u, lo, hi) {
      WithinWider(t, u, a, i, b, b);
      WithinTransitive(s, t, u, a, b);
      CutKept(t, u, a, i, b, i, b);
      RoughFrame(t, u, a, j);
      assert RoughSplit(u, a, j, i, b);
    }
  }

  lemma StepLeft(s: seq<Edge>, t: seq<Edge>, lo: nat, hi: nat, a: nat, b: nat, j: nat, i: nat)
    requires Completes(s, lo, hi, a, b) && Within(s, t, a, b)
    requires a <= j < b && a < i <= b && j <= i <= j + 1 && CutAt(t, a, i, b) && Rough(t, i, b)
    ensures Completes(t, lo, hi, a, j)
  {
    forall u | Within(t, u, a, j) && Rough(u, a, j) ensures Rough(u, lo, hi) {
      WithinWider(t, u, a, a, j, b);
      WithinTransitive(s, t, u, a, b);
      CutKept(t, u, a, i, b, a, j);
      RoughFrame(t, u, i, b);
      assert RoughSplit(u, a, j, i, b);
    }
  }

  lemma Finished(s: seq<Edge>, lo: nat, hi: nat, a: nat, b: nat)
    requires Completes(s, lo, hi, a, b) && b - a <= THRESHOLD
    ensures Rough(s, lo, hi)
  {
    WithinReflexive(s, a, b);
  }

  /** t is s with the element at i moved down to its place j among those before it. */
  ghost predicate Inserted(s: seq<Edge>, t: seq<Edge>, j: nat, i: nat)
  {
    && j <= i < |s| == |t| && t[j] == s[i]
    && (forall k :: 0 <= k < j ==> t[k] == s[k])
    && (forall k :: i < k < |s| ==> t[k] == s[k])
    && (forall k :: j < k <= i ==> t[k] == s[k - 1] && Compare(t[j], t[k]))
    && (j > 0 ==> !Compare(t[j], t[j - 1]))
  }

  lemma InsertWithin(s: seq<Edge>, t: seq<Edge>, j: nat, i: nat)
    requires Inserted(s, t, j, i)
    ensures Within(s, t, 0, i + 1)
  {
    hide Compare;
    assert s[j..i + 1] == s[j..i] + [s[i]];
    RotatedMultiset(s[j..i], s[i], t[j..i + 1]);
    WithinWider(s, t, 0, j, i + 1, i + 1);
  }

  lemma RotatedMultiset(a: seq<Edge>, x: Edge, b: seq<Edge>)
    requires |b| == |a| + 1 && b[0] == x && forall k :: 0 <= k < |a| ==> b[k + 1] == a[k]
    ensures multiset(b) == multiset(a + [x])
  {
    assert b == [x] + a;
  }

  lemma InsertSorted(s: seq<Edge>, t: seq<Edge>, j: nat, i: nat)
    requires Inserted(s, t, j, i) && Sorted(s, 0, i)
    ensures Sorted(t, 0, i + 1)
  {
  }

  // ---------------------------------------------------------------- the algorithms

  method Swap(p: array<Edge>, i: nat, j: nat, lo: nat, hi: nat)
    requires lo <= i < hi && lo <= j < hi <= p.Length
    modifies p
    ensures p[i] == old(p[j]) && p[j] == old(p[i])
    ensures forall k :: 0 <= k < p.Length && k != i && k != j ==> p[k] == old(p[k])
    ensures Within(old(p[..]), p[..], lo, hi)
  {
    hide Within;
    ghost var s := p[..];
    SwapWithin(s, i, j, lo, hi);
    p[i], p[j] := p[j], p[i];
    assert p[..] == s[i := s[j]][j := s[i]];
  }

  method MedianToMiddle(p: array<Edge>, lo: nat, n: nat, m: nat)
    requires 0 < m < n - 1 && lo + n <= p.Length
    modifies p
    ensures Within(old(p[..]), p[..], lo, lo + n)
    ensures Between(p[lo], p[lo + m], p[lo + n - 1])
  {
    hide Within, Between, Compare;
    WithinReflexive(p[..], lo, lo + n);
    MedianFound(p[lo], p[lo + m], p[lo + n - 1]);
    var c01 := Compare(p[lo], p[lo + m]);
    var c12 := Compare(p[lo + m], p[lo + n - 1]);
    if c01 != c12 {
      var c := Compare(p[lo], p[lo + n - 1]);
      var z := if c == c12 then 0 else n - 1;
      Swap(p, lo + z, lo + m, lo, lo + n);
    }
  }

  /**
   Median of three to the front. Of the other two, one is not below the pivot: the sentinel that
   stops the first unguarded scan.
   */
  method MedianToFront(p: array<Edge>, lo: nat, n: nat)
    requires n > THRESHOLD && lo + n <= p.Length
    modifies p
    ensures Within(old(p[..]), p[..], lo, lo + n)
    ensures Between(p[lo + n / 2], p[lo], p[lo + n - 1])
  {
    hide Within, Between, Compare;
    ghost var s := p[..];
    MedianToMiddle(p, lo, n, n / 2);
    ghost var t := p[..];
    Swap(p, lo, lo + n / 2, lo, lo + n);
    WithinTransitive(s, t, p[..], lo, lo + n);
  }

  /** b lies between a and c. */
  predicate Between(a: Edge, b: Edge, c: Edge)
  {
    a.y0 <= b.y0 <= c.y0 || c.y0 <= b.y0 <= a.y0
  }

  lemma PivotAlone(a: Edge)
    ensures !Compare(a, a)
  {
  }

  lemma MedianIsNotLargest(a: Edge, b: Edge, c: Edge)
    requires Between(a, b, c)
    ensures !Compare(c, b) || !Compare(a, b)
  {
  }

  /** The three comparisons name the median. */
  lemma MedianFound(first: Edge, mid: Edge, last: Edge)
    ensures Compare(first, mid) == Compare(mid, last) ==> Between(first, mid, last)
    ensures Compare(first, mid) != Compare(mid, last) ==>
      if Compare(first, last) == Compare(mid, last) then Between(mid, first, last) else Between(first, last, mid)
  {
  }

  /** The scan for an edge not below the pivot; no bound is checked, the sentinel stops it. */
  method ScanUp(p: array<Edge>, lo: nat, start: nat, ghost sentinel: nat) returns (i: nat)
    requires start <= sentinel && lo + sentinel < p.Length && !Compare(p[lo + sentinel], p[lo])
    ensures start <= i <= sentinel && !Compare(p[lo + i], p[lo])
    ensures forall k :: lo + start <= k < lo + i ==> Compare(p[k], p[lo]) && !Compare(p[lo], p[k])
  {
    i := start;
    while Compare(p[lo + i], p[lo])
      invariant start <= i <= sentinel
      invariant forall k :: lo + start <= k < lo + i ==> Compare(p[k], p[lo]) && !Compare(p[lo], p[k])
      decreases sentinel - i
    {
      i := i + 1;
    }
  }

  /** The scan for an edge not above the pivot, which is its own sentinel. */
  method ScanDown(p: array<Edge>, lo: nat, start: nat) returns (j: nat)
    requires lo + start < p.Length
    ensures j <= start && !Compare(p[lo], p[lo + j])
    ensures forall k :: lo + j < k <= lo + start ==> Compare(p[lo], p[k]) && !Compare(p[k], p[lo])
  {
    j := start;
    while Compare(p[lo], p[lo + j])
      invariant j <= start
      invariant forall k :: lo + j < k <= lo + start ==> Compare(p[lo], p[k]) && !Compare(p[k], p[lo])
      decreases j
    {
      j := j - 1;
    }
  }

  /** Everything before the two positions is at most the pivot, everything after them at least. */
  ghost predicate Parted(p: array<Edge>, lo: nat, i: nat, j: nat, n: nat)
    requires lo + i <= lo + n <= p.Length && lo < p.Length
    reads p
  {
    && (forall k :: lo <= k < lo + i ==> !Compare(p[lo], p[k]))
    && (forall k :: lo + j < k < lo + n ==> !Compare(p[k], p[lo]))
  }

  /** The scans pass each other by one position at most. */
  lemma Crossed(p: array<Edge>, lo: nat, i: nat, j: nat, n: nat, from: nat)
    requires 0 < i < n && j <= from < n && lo + n <= p.Length && i <= from + 1
    requires Parted(p, lo, i, j, n)
    requires j < from ==> Compare(p[lo], p[lo + j + 1])
    ensures i <= j + 1
  {
    if j < from && lo + j + 1 < lo + i {
      assert false;
    }
  }

  /** The two positions exchange their edges and move on; the later one becomes the next sentinel. */
  method Exchange(p: array<Edge>, lo: nat, i: nat, j: nat, n: nat)
    requires 0 < i < j < n && lo + n <= p.Length
    requires Parted(p, lo, i, j, n) && !Compare(p[lo + i], p[lo]) && !Compare(p[lo], p[lo + j])
    modifies p
    ensures Within(old(p[..]), p[..], lo, lo + n)
    ensures Parted(p, lo, i + 1, j - 1, n) && !Compare(p[lo + j], p[lo])
  {
    hide Within, Compare;
    Swap(p, lo + i, lo + j, lo, lo + n);
  }

  /** The partition loop around the pivot p[lo]; i and j are positions relative to lo. */
  method Partition(p: array<Edge>, lo: nat, n: nat) returns (i: nat, j: nat)
    requires n > THRESHOLD && lo + n <= p.Length
    modifies p
    ensures Within(old(p[..]), p[..], lo, lo + n)
    ensures j < n && 0 < i < n && j <= i <= j + 1
    ensures CutAt(p[..], lo, lo + i, lo + n)
  {
    hide Within, CutAt, Between, Compare;
    ghost var s := p[..];
    MedianToFront(p, lo, n);
    PivotAlone(p[lo]);
    i, j := 1, n - 1;
    ghost var sentinel := if Compare(p[lo + n - 1], p[lo]) then n / 2 else n - 1;
    MedianIsNotLargest(p[lo + n / 2], p[lo], p[lo + n - 1]);
    while true
      invariant 1 <= i <= sentinel <= j + 1 && sentinel < n && j < n
      invariant Within(s, p[..], lo, lo + n)
      invariant !Compare(p[lo + sentinel], p[lo])
      invariant Parted(p, lo, i, j, n)
      decreases j + 1 - i
    {
      i := ScanUp(p, lo, i, sentinel);
      ghost var from := j;
      j := ScanDown(p, lo, j);
      Crossed(p, lo, i, j, n, from);
      if i >= j {
        break;
      }
      ghost var t := p[..];
      Exchange(p, lo, i, j, n);
      WithinTransitive(s, t, p[..], lo, lo + n);
      sentinel := j;
      i := i + 1;
      j := j - 1;
    }
    PartedCut(p, lo, i, j, n);
  }

  lemma PartedCut(p: array<Edge>, lo: nat, i: nat, j: nat, n: nat)
    requires 0 < i < n && j <= i && lo + n <= p.Length
    requires Parted(p, lo, i, j, n) && !Compare(p[lo + i], p[lo])
    ensures CutAt(p[..], lo, lo + i, lo + n)
  {
  }

  /** How often n can be halved until at most THRESHOLD edges are left. */
  ghost function Levels(n: nat): nat
  {
    if n <= THRESHOLD then 0 else 1 + Levels(n / 2)
  }

  lemma {:induction false} LevelsMonotone(a: nat, b: nat)
    requires a <= b
    ensures Levels(a) <= Levels(b)
    decreases b
  {
    if a > THRESHOLD {
      LevelsMonotone(a / 2, b / 2);
    }
  }

  /** The smaller side of a cut has one level less to go. */
  lemma Deeper(smaller: nat, n: nat)
    requires 2 * smaller <= n && n > THRESHOLD
    ensures Levels(smaller) < Levels(n)
  {
    LevelsMonotone(smaller, n / 2);
  }

  /** The levels are the logarithm of the size, less than log2(n / 6). */
  lemma {:induction false} LevelsLogarithmic(n: nat)
    ensures Levels(n) > 0 ==> 6 * Pow2(Levels(n)) <= n
  {
    if n > THRESHOLD {
      LevelsLogarithmic(n / 2);
    }
  }

  /** What the loop of QuickSort has established when [a, b) of it is left. */
  ghost predicate Progress(before: seq<Edge>, now: seq<Edge>, lo: nat, hi: nat, a: nat, b: nat)
  {
    Within(before, now, lo, hi) && Completes(now, lo, hi, a, b)
  }

  lemma ProgressStarts(s: seq<Edge>, lo: nat, hi: nat)
    requires lo <= hi <= |s|
    ensures Progress(s, s, lo, hi, lo, hi)
  {
    WithinReflexive(s, lo, hi);
    CompletesItself(s, lo, hi);
  }

  lemma ProgressEnds(before: seq<Edge>, s: seq<Edge>, lo: nat, hi: nat, a: nat, b: nat)
    requires Progress(before, s, lo, hi, a, b) && b - a <= THRESHOLD
    ensures Within(before, s, lo, hi) && Rough(s, lo, hi)
  {
    Finished(s, lo, hi, a, b);
  }

  lemma ProgressLeft(before: seq<Edge>, s: seq<Edge>, t: seq<Edge>, u: seq<Edge>,
                     lo: nat, hi: nat, a: nat, j: nat, i: nat, b: nat)
    requires Progress(before, s, lo, hi, a, b) && Within(s, t, a, b)
    requires a <= j < b && a < i <= b && j <= i <= j + 1 && CutAt(t, a, i, b)
    requires Within(t, u, i, b) && Rough(u, i, b)
    ensures Progress(before, u, lo, hi, a, j)
  {
    hide Within, Rough, CutAt, Completes;
    CompletesBounds(s, lo, hi, a, b);
    WithinBounds(s, t, a, b);
    WithinWider(t, u, a, i, b, b);
    WithinTransitive(s, t, u, a, b);
    CutKept(t, u, a, i, b, i, b);
    StepLeft(s, u, lo, hi, a, b, j, i);
    WithinWider(s, u, lo, a, b, hi);
    WithinTransitive(before, s, u, lo, hi);
  }

  lemma ProgressRight(before: seq<Edge>, s: seq<Edge>, t: seq<Edge>, u: seq<Edge>,
                      lo: nat, hi: nat, a: nat, j: nat, i: nat, b: nat)
    requires Progress(before, s, lo, hi, a, b) && Within(s, t, a, b)
    requires a <= j < b && a < i <= b && j <= i <= j + 1 && CutAt(t, a, i, b)
    requires Within(t, u, a, j) && Rough(u, a, j)
    ensures Progress(before, u, lo, hi, i, b)
  {
    hide Within, Rough, CutAt, Completes;
    CompletesBounds(s, lo, hi, a, b);
    WithinBounds(s, t, a, b);
    WithinWider(t, u, a, a, j, b);
    WithinTransitive(s, t, u, a, b);
    CutKept(t, u, a, i, b, a, j);
    StepRight(s, u, lo, hi, a, b, j, i);
    WithinWider(s, u, lo, a, b, hi);
    WithinTransitive(before, s, u, lo, hi);
  }

  lemma CompletesBounds(s: seq<Edge>, lo: nat, hi: nat, a: nat, b: nat)
    requires Completes(s, lo, hi, a, b)
    ensures lo <= a <= b <= hi <= |s|
  {
  }

  /**
   Rearranges a segment into ordered stretches of at most THRESHOLD edges. `depth` bounds the nesting
   of recursive calls: each runs on one less, and Levels is always enough.
   */
  method QuickSort(p: array<Edge>, start: nat, count: nat, ghost depth: nat)
    requires start + count <= p.Length && Levels(count) <= depth
    modifies p
    ensures Within(old(p[..]), p[..], start, start + count)
    ensures Rough(p[..], start, start + count)
    decreases depth
  {
    hide *;
    ghost var before := p[..];
    var lo, n: nat := start, count;
    ProgressStarts(before, start, start + count);
    while n > THRESHOLD
      invariant start <= lo && lo + n <= start + count
      invariant Progress(before, p[..], start, start + count, lo, lo + n)
      decreases n
    {
      ghost var s := p[..];
      var i, j := Partition(p, lo, n);
      ghost var t := p[..];
      LevelsMonotone(n, count);
      if j < n - i {
        Deeper(j, n);
        QuickSort(p, lo, j, depth - 1);
        ProgressRight(before, s, t, p[..], start, start + count, lo, lo + j, lo + i, lo + n);
        lo := lo + i;
        n := n - i;
      } else {
        Deeper(n - i, n);
        QuickSort(p, lo + i, n - i, depth - 1);
        ProgressLeft(before, s, t, p[..], start, start + count, lo, lo + j, lo + i, lo + n);
        n := j;
      }
    }
    ProgressEnds(before, p[..], start, start + count, lo, lo + n);
  }

  /** The edge at i moves down while those before it are above it, each of them going up by one. */
  method MoveDown(p: array<Edge>, i: nat) returns (j: nat)
    requires i < p.Length
    modifies p
    ensures Inserted(old(p[..]), p[..], j, i)
  {
    hide Compare;
    var t := p[i];
    j := i;
    while j > 0
      invariant j <= i
      invariant forall k :: 0 <= k < p.Length && (k < j || k > i) ==> p[k] == old(p[k])
      invariant forall k :: j < k <= i ==> p[k] == old(p[k - 1]) && Compare(t, p[k])
      invariant j == i ==> p[i] == t
      decreases j
    {
      if !Compare(t, p[j - 1]) {
        break;
      }
      p[j] := p[j - 1];
      j := j - 1;
    }
    if i != j {
      p[j] := t;
    }
  }

  method InsertionSort(p: array<Edge>, n: nat)
    requires n <= p.Length
    modifies p
    ensures Within(old(p[..]), p[..], 0, n)
    ensures Sorted(p[..], 0, n)
  {
    hide Within, Sorted, Inserted;
    ghost var s := p[..];
    WithinReflexive(s, 0, n);
    SortedShort(s, if n < 1 then n else 1);
    var i := 1;
    while i < n
      invariant 1 <= i && Within(s, p[..], 0, n)
      invariant Sorted(p[..], 0, if i < n then i else n)
    {
      ghost var w := p[..];
      var j := MoveDown(p, i);
      InsertWithin(w, p[..], j, i);
      InsertSorted(w, p[..], j, i);
      WithinWider(w, p[..], 0, 0, i + 1, n);
      WithinTransitive(s, w, p[..], 0, n);
      i := i + 1;
    }
  }

  lemma SortedShort(s: seq<Edge>, n: nat)
    requires n <= |s| && n <= 1
    ensures Sorted(s, 0, n)
  {
  }

  /** The first n edges end up ordered by y0, each of them exactly as often as before; the others stay. */
  method SortEdges(p: array<Edge>, n: nat)
    requires n <= p.Length
    modifies p
    ensures Sorted(p[..], 0, n)
    ensures multiset(p[..n]) == multiset(old(p[..n]))
    ensures p[n..] == old(p[n..])
  {
    ghost var s := p[..];
    QuickSort(p, 0, n, Levels(n));
    ghost var t := p[..];
    InsertionSort(p, n);
    WithinTransitive(s, t, p[..], 0, n);
    assert s[0..n] == old(p[..n]) && p[..][0..n] == p[..n];
  }
}
