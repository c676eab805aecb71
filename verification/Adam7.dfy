/**
 De-interlacing an Adam7 PNG (section 2.6 of RFC 2083): the seven reduced images are scattered over
 the output. Pixels are values of any type; their bytes are copied together.
 */
module Adam7 {
  import opened Quotients

  const PASSES: nat := 7

  function XOrigin(p: nat): nat { if p == 1 then 4 else if p == 3 then 2 else if p == 5 then 1 else 0 }

  function YOrigin(p: nat): nat { if p == 2 then 4 else if p == 4 then 2 else if p == 6 then 1 else 0 }

  function XSpacing(p: nat): (s: nat)
    ensures s > 0
  {
    if p <= 1 then 8 else if p <= 3 then 4 else if p <= 5 then 2 else 1
  }

  function YSpacing(p: nat): (s: nat)
    ensures s > 0
  {
    if p <= 2 then 8 else if p <= 4 then 4 else 2
  }

  /** The size of a reduced image; no origin exceeds the spacing less one, so nothing wraps. */
  function PassWidth(p: nat, width: nat): nat
    requires p < PASSES && width > 0
  {
    (width + XSpacing(p) - 1 - XOrigin(p)) / XSpacing(p)
  }

  function PassHeight(p: nat, height: nat): nat
    requires p < PASSES && height > 0
  {
    (height + YSpacing(p) - 1 - YOrigin(p)) / YSpacing(p)
  }

  // ---------------------------------------------------------------- which pass a pixel is in

  /** The pass, column and row that a pixel of the full image has in the reduced images. */
  function PassOf(x: nat, y: nat): nat
  {
    if y % 2 == 1 then 6
    else if x % 2 == 1 then 5
    else if y % 4 == 2 then 4
    else if x % 4 == 2 then 3
    else if y % 8 == 4 then 2
    else if x % 8 == 4 then 1
    else 0
  }

  function Column(p: nat, x: nat): int
  {
    (x - XOrigin(p)) / XSpacing(p)
  }

  function Row(p: nat, y: nat): int
  {
    (y - YOrigin(p)) / YSpacing(p)
  }

  /** Residues modulo 8 settle those modulo 4 and 2. */
  lemma Residues(x: nat)
    ensures x % 4 == x % 8 % 4 && x % 2 == x % 8 % 2
  {
    var q, r := x / 8, x % 8;
    Period(r, 2 * q, 4);
    Period(r, 4 * q, 2);
  }

  /** Column p, i is at position x exactly when x has the pass's residue and i is its quotient. */
  predicate OnColumn(p: nat, x: nat)
  {
    x >= XOrigin(p) && (x - XOrigin(p)) % XSpacing(p) == 0
  }

  predicate OnRow(p: nat, y: nat)
  {
    y >= YOrigin(p) && (y - YOrigin(p)) % YSpacing(p) == 0
  }

  lemma OnColumnResidue(p: nat, x: nat)
    requires p < PASSES
    ensures OnColumn(p, x) <==>
      x % XSpacing(p) == XOrigin(p)
  {
    SameResidue(x, XOrigin(p), XSpacing(p));
  }

  lemma OnRowResidue(p: nat, y: nat)
    requires p < PASSES
    ensures OnRow(p, y) <==> y % YSpacing(p) == YOrigin(p)
  {
    SameResidue(y, YOrigin(p), YSpacing(p));
  }

  /** The pattern of section 2.6 of RFC 2083, which is repeated over the image; passes count from 1. */
  const PATTERN: seq<seq<nat>> := [
    [1, 6, 4, 6, 2, 6, 4, 6],
    [7, 7, 7, 7, 7, 7, 7, 7],
    [5, 6, 5, 6, 5, 6, 5, 6],
    [7, 7, 7, 7, 7, 7, 7, 7],
    [3, 6, 4, 6, 3, 6, 4, 6],
    [7, 7, 7, 7, 7, 7, 7, 7],
    [5, 6, 5, 6, 5, 6, 5, 6],
    [7, 7, 7, 7, 7, 7, 7, 7]]

  /** The origins and spacings scan exactly the pixels of the pattern in each pass. */
  lemma PassPattern(p: nat, x: nat, y: nat)
    requires p < PASSES
    ensures |PATTERN| == 8 && |PATTERN[y % 8]| == 8
    ensures OnColumn(p, x) && OnRow(p, y) <==> PATTERN[y % 8][x % 8] == p + 1
  {
    hide OnColumn, OnRow;
    OnePass(p, x, y);
    Residues(x);
    Residues(y);
  }

  /** A pixel belongs to the rows and columns of exactly one pass. */
  lemma OnePass(p: nat, x: nat, y: nat)
    requires p < PASSES
    ensures OnColumn(p, x) && OnRow(p, y) <==> p == PassOf(x, y)
  {
    hide OnColumn, OnRow;
    OnColumnResidue(p, x);
    OnRowResidue(p, y);
    Residues(x);
    Residues(y);
  }

  lemma ColumnPixel(p: nat, i: nat, width: nat)
    requires p < PASSES && width > 0 && i < PassWidth(p, width)
    ensures var x := i * XSpacing(p) + XOrigin(p);
      0 <= x < width && OnColumn(p, x) && Column(p, x) == i
  {
    assert XOrigin(p) < XSpacing(p);
    hide XSpacing, XOrigin;
    CountBelow(i, XOrigin(p), XSpacing(p), width);
    ExactQuotient(i, XSpacing(p));
  }

  lemma RowPixel(p: nat, j: nat, height: nat)
    requires p < PASSES && height > 0 && j < PassHeight(p, height)
    ensures var y := j * YSpacing(p) + YOrigin(p);
      0 <= y < height && OnRow(p, y) && Row(p, y) == j
  {
    assert YOrigin(p) < YSpacing(p);
    hide YSpacing, YOrigin;
    CountBelow(j, YOrigin(p), YSpacing(p), height);
    ExactQuotient(j, YSpacing(p));
  }

  /** A pixel of a reduced image is a pixel of the full image, and that one is in this pass, column and row. */
  lemma PassPixel(p: nat, i: nat, j: nat, width: nat, height: nat)
    requires p < PASSES && width > 0 && height > 0 && i < PassWidth(p, width) && j < PassHeight(p, height)
    ensures var x, y := i * XSpacing(p) + XOrigin(p), j * YSpacing(p) + YOrigin(p);
            x < width && y < height && PassOf(x, y) == p && Column(p, x) == i && Row(p, y) == j
  {
    hide *;
    ColumnPixel(p, i, width);
    RowPixel(p, j, height);
    OnePass(p, i * XSpacing(p) + XOrigin(p), j * YSpacing(p) + YOrigin(p));
  }

  /** Every pixel of the full image is one of its pass's reduced image. */
  lemma PixelHasPass(x: nat, y: nat, width: nat, height: nat)
    requires x < width && y < height
    ensures var p := PassOf(x, y);
            && p < PASSES
            && 0 <= Column(p, x) < PassWidth(p, width) && 0 <= Row(p, y) < PassHeight(p, height)
            && Column(p, x) * XSpacing(p) + XOrigin(p) == x && Row(p, y) * YSpacing(p) + YOrigin(p) == y
  {
    hide *;
    var p := PassOf(x, y);
    PassExists(x, y);
    OnePass(p, x, y);
    PixelColumn(p, x, width);
    PixelRow(p, y, height);
  }

  lemma PassExists(x: nat, y: nat)
    ensures PassOf(x, y) < PASSES
  {
  }

  lemma PixelColumn(p: nat, x: nat, width: nat)
    requires p < PASSES && OnColumn(p, x) && x < width
    ensures 0 <= Column(p, x) < PassWidth(p, width) && Column(p, x) * XSpacing(p) + XOrigin(p) == x
  {
    assert XOrigin(p) < XSpacing(p);
    hide XSpacing, XOrigin;
    CountBelow(Column(p, x), XOrigin(p), XSpacing(p), width);
  }

  lemma PixelRow(p: nat, y: nat, height: nat)
    requires p < PASSES && OnRow(p, y) && y < height
    ensures 0 <= Row(p, y) < PassHeight(p, height) && Row(p, y) * YSpacing(p) + YOrigin(p) == y
  {
    assert YOrigin(p) < YSpacing(p);
    hide YSpacing, YOrigin;
    CountBelow(Row(p, y), YOrigin(p), YSpacing(p), height);
  }

  // ---------------------------------------------------------------- row-major images

  /** The position of a pixel in an image stored row by row. */
  function At(width: nat, x: nat, y: nat): nat
  {
    y * width + x
  }

  lemma AtBound(width: nat, height: nat, x: nat, y: nat)
    requires x < width && y < height
    ensures At(width, x, y) < width * height
  {
    Multiples(y + 1, height, width);
    assert (y + 1) * width == y * width + width;
  }

  lemma AtInjective(width: nat, x: nat, y: nat, u: nat, v: nat)
    requires x < width && u < width && At(width, x, y) == At(width, u, v)
    ensures x == u && y == v
  {
    assert (y + 1) * width == y * width + width && (v + 1) * width == v * width + width;
    QuotientUnique(At(width, x, y), width, y);
    QuotientUnique(At(width, u, v), width, v);
  }

  /** Every position of the image is that of a pixel. */
  lemma AtSurjective(width: nat, height: nat, k: nat) returns (x: nat, y: nat)
    requires width > 0 && k < width * height
    ensures x < width && y < height && At(width, x, y) == k
  {
    x, y := k % width, k / width;
    assert height * width == width * height && y * width <= k;
    if y >= height {
      Multiples(height, y, width);
    }
  }

  // ---------------------------------------------------------------- scattering the passes

  /** The reduced images hold the pixels of the full one. */
  ghost predicate Interlaced<T>(image: seq<T>, passes: seq<seq<T>>, width: nat, height: nat)
    requires width > 0 && height > 0
  {
    && |image| == width * height && |passes| == PASSES
    && (forall p :: 0 <= p < PASSES ==> |passes[p]| == PassWidth(p, width) * PassHeight(p, height))
    && (forall p, i: nat, j: nat :: 0 <= p < PASSES && i < PassWidth(p, width) && j < PassHeight(p, height) ==>
          Reduced(image, passes[p], p, i, j, width, height))
  }

  ghost predicate Reduced<T>(image: seq<T>, pass: seq<T>, p: nat, i: nat, j: nat, width: nat, height: nat)
    requires p < PASSES && width > 0 && height > 0
  {
    var k := At(width, i * XSpacing(p) + XOrigin(p), j * YSpacing(p) + YOrigin(p));
    At(PassWidth(p, width), i, j) < |pass| && k < |image| && pass[At(PassWidth(p, width), i, j)] == image[k]
  }

  /** The pixel comes before row j, column i of pass p in the order the passes are scattered. */
  predicate Done(p: nat, j: nat, i: nat, x: nat, y: nat)
  {
    var q := PassOf(x, y);
    q < p || (q == p && (Row(p, y) < j || (Row(p, y) == j && Column(p, x) < i)))
  }

  /** What is done has been written once and right; what is not has not been written. */
  ghost predicate Scattered<T>(final: seq<T>, writes: seq<nat>, image: seq<T>, width: nat, height: nat,
                               p: nat, j: nat, i: nat)
  {
    && |final| == |writes| == |image| == width * height
    && forall x: nat, y: nat :: x < width && y < height ==> PixelState(final, writes, image, width, p, j, i, x, y)
  }

  ghost predicate PixelState<T>(final: seq<T>, writes: seq<nat>, image: seq<T>, width: nat, p: nat, j: nat, i: nat,
                                x: nat, y: nat)
    requires |final| == |writes| == |image|
  {
    var k := At(width, x, y);
    && k < |image|
    && writes[k] == (if Done(p, j, i, x, y) then 1 else 0)
    && (Done(p, j, i, x, y) ==> final[k] == image[k])
  }

  lemma ScatterNone<T>(final: seq<T>, writes: seq<nat>, image: seq<T>, width: nat, height: nat)
    requires |final| == |writes| == |image| == width * height
    requires forall k :: 0 <= k < |writes| ==> writes[k] == 0
    ensures Scattered(final, writes, image, width, height, 0, 0, 0)
  {
    hide PassOf, At;
    forall x: nat, y: nat | x < width && y < height
      ensures PixelState(final, writes, image, width, 0, 0, 0, x, y)
    {
      AtBound(width, height, x, y);
      PixelHasPass(x, y, width, height);
    }
  }

  /** Writing one more pixel, at its own position. */
  lemma ScatterPixel<T>(final: seq<T>, writes: seq<nat>, image: seq<T>, width: nat, height: nat,
                        p: nat, j: nat, i: nat, k: nat)
    requires p < PASSES && width > 0 && height > 0 && i < PassWidth(p, width) && j < PassHeight(p, height)
    requires Scattered(final, writes, image, width, height, p, j, i)
    requires k == At(width, i * XSpacing(p) + XOrigin(p), j * YSpacing(p) + YOrigin(p))
    ensures k < width * height
    ensures Scattered(final[k := image[k]], writes[k := writes[k] + 1], image, width, height, p, j, i + 1)
  {
    hide PassOf, At, XOrigin, YOrigin, XSpacing, YSpacing, Column, Row;
    PassPixel(p, i, j, width, height);
    var u, v := i * XSpacing(p) + XOrigin(p), j * YSpacing(p) + YOrigin(p);
    AtBound(width, height, u, v);
    var final', writes', i' := final[k := image[k]], writes[k := writes[k] + 1], i + 1;
    forall x: nat, y: nat | x < width && y < height
      ensures PixelState(final', writes', image, width, p, j, i', x, y)
    {
      assert PixelState(final, writes, image, width, p, j, i, x, y);
      PixelHasPass(x, y, width, height);
      if At(width, x, y) == k {
        AtInjective(width, x, y, u, v);
      }
    }
  }

  /** A finished row, and a finished or empty pass. */
  lemma ScatterRow<T>(final: seq<T>, writes: seq<nat>, image: seq<T>, width: nat, height: nat, p: nat, j: nat)
    requires p < PASSES && width > 0 && height > 0
    requires Scattered(final, writes, image, width, height, p, j, PassWidth(p, width))
    ensures Scattered(final, writes, image, width, height, p, j + 1, 0)
  {
    hide PassOf, At;
    var j' := j + 1;
    forall x: nat, y: nat | x < width && y < height
      ensures PixelState(final, writes, image, width, p, j', 0, x, y)
    {
      assert PixelState(final, writes, image, width, p, j, PassWidth(p, width), x, y);
      PixelHasPass(x, y, width, height);
    }
  }

  lemma ScatterPass<T>(final: seq<T>, writes: seq<nat>, image: seq<T>, width: nat, height: nat, p: nat, j: nat)
    requires p < PASSES && width > 0 && height > 0
    requires j == PassHeight(p, height) || (j == 0 && PassWidth(p, width) == 0)
    requires Scattered(final, writes, image, width, height, p, j, 0)
    ensures Scattered(final, writes, image, width, height, p + 1, 0, 0)
  {
    hide PassOf, At;
    var p' := p + 1;
    forall x: nat, y: nat | x < width && y < height
      ensures PixelState(final, writes, image, width, p', 0, 0, x, y)
    {
      assert PixelState(final, writes, image, width, p, j, 0, x, y);
      PixelHasPass(x, y, width, height);
    }
  }

  lemma ScatterAll<T>(final: seq<T>, writes: seq<nat>, image: seq<T>, width: nat, height: nat)
    requires width > 0 && Scattered(final, writes, image, width, height, PASSES, 0, 0)
    ensures final == image && forall k :: 0 <= k < |writes| ==> writes[k] == 1
  {
    hide PassOf, At;
    forall k: nat | k < width * height ensures final[k] == image[k] && writes[k] == 1 {
      var x, y := AtSurjective(width, height, k);
      PixelHasPass(x, y, width, height);
      assert PixelState(final, writes, image, width, PASSES, 0, 0, x, y);
    }
  }

  lemma ReducedHolds<T>(image: seq<T>, passes: seq<seq<T>>, p: nat, i: nat, j: nat, width: nat, height: nat)
    requires width > 0 && height > 0 && Interlaced(image, passes, width, height)
    requires p < PASSES && i < PassWidth(p, width) && j < PassHeight(p, height)
    ensures |passes| == PASSES && Reduced(image, passes[p], p, i, j, width, height)
  {
  }

  /**
   The de-interlacing loop: the full image comes back, and every pixel of it is written exactly once
   (writes counts).
   */
  method DeInterlace<T(0)>(passes: seq<seq<T>>, width: nat, height: nat, ghost image: seq<T>)
    returns (final: array<T>, ghost writes: seq<nat>)
    requires width > 0 && height > 0 && Interlaced(image, passes, width, height)
    ensures final[..] == image
    ensures |writes| == |image| && forall k :: 0 <= k < |writes| ==> writes[k] == 1
  {
    hide At, PassWidth, PassHeight, Interlaced, Scattered, XOrigin, YOrigin, XSpacing, YSpacing;
    final := new T[width * height];
    writes := seq(width * height, _ => 0);
    InterlacedSize(image, passes, width, height);
    ScatterNone(final[..], writes, image, width, height);
    for p := 0 to PASSES
      invariant final.Length == |writes| == |image| && Scattered(final[..], writes, image, width, height, p, 0, 0)
    {
      var x, y := PassWidth(p, width), PassHeight(p, height);
      ghost var rows: nat := 0;
      if x > 0 && y > 0 {
        for j := 0 to y
          invariant final.Length == |writes| == |image| && Scattered(final[..], writes, image, width, height, p, j, 0)
        {
          for i := 0 to x
            invariant final.Length == |writes| == |image| && Scattered(final[..], writes, image, width, height, p, j, i)
          {
            var outY := j * YSpacing(p) + YOrigin(p);
            var outX := i * XSpacing(p) + XOrigin(p);
            var k := At(width, outX, outY);
            ghost var before := final[..];
            ReducedHolds(image, passes, p, i, j, width, height);
            ScatterPixel(before, writes, image, width, height, p, j, i, k);
            final[k] := passes[p][At(x, i, j)];
            writes := writes[k := writes[k] + 1];
            assert final[..] == before[k := image[k]];
          }
          ScatterRow(final[..], writes, image, width, height, p, j);
        }
        rows := y;
      }
      ScatterPass(final[..], writes, image, width, height, p, rows);
    }
    ScatterAll(final[..], writes, image, width, height);
  }

  lemma InterlacedSize<T>(image: seq<T>, passes: seq<seq<T>>, width: nat, height: nat)
    requires width > 0 && height > 0 && Interlaced(image, passes, width, height)
    ensures |image| == width * height && |passes| == PASSES
  {
  }
}
