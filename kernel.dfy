/**
 * Kernel preparation: reading a square filter from the numbers of a filter
 * file, normalising its gain, and rotating it by 180 degrees so that a
 * correlation loop performs a true convolution.  The globals FILTER and
 * FILTER_SIZE become the fields of a Filter object; its weights live in one
 * contiguous block of `size * size` reals addressed through a row table.
 */
module Kernel {
  import opened Layout

  // ---------------------------------------------------------------------------
  // Reading the filter

  /**
   * The value the cell with row-major number `k` receives.  `values` are the
   * successive values the scan variable holds after each scan, one per cell,
   * for as long as the input lasts; once the input is exhausted every further
   * scan fails and leaves the last value in place.
   */
  function Scanned(values: seq<real>, k: nat): real
    requires |values| > 0
  {
    if k < |values| then values[k] else values[|values| - 1]
  }

  /** The contents of the first `count` cells, in row-major order. */
  function ScannedCells(values: seq<real>, count: nat): (cells: seq<real>)
    requires |values| > 0
    ensures |cells| == count
  {
    seq(count, k requires 0 <= k < count => Scanned(values, k))
  }

  /**
   * With at least `count` numbers in the file, the cells receive exactly the
   * first `count` of them, in order; the numbers after them are never read.
   */
  lemma ScannedCellsPrefix(values: seq<real>, count: nat)
    requires count <= |values| && |values| > 0
    ensures ScannedCells(values, count) == values[..count]
  {
  }

  /** With a well-formed file, cell `(row, col)` holds number `row * size + col`. */
  lemma ReadFilterLayout(size: nat, values: seq<real>, row: nat, col: nat)
    requires size * size <= |values| && |values| > 0
    requires row < size && col < size
    ensures Cell(size, row, col) < size * size
    ensures ScannedCells(values, size * size)[Cell(size, row, col)] == values[Cell(size, row, col)]
  {
    var k := Cell(size, row, col);
    CellInBlock(size, size, row, col);
    assert ScannedCells(values, size * size)[k] == Scanned(values, k);
  }

  // ---------------------------------------------------------------------------
  // Normalisation

  /** The larger of two sums; on a tie the first one. */
  function Maximum(a: real, b: real): (m: real)
    ensures m >= a && m >= b
    ensures m == a || m == b
  {
    if a < b then b
    else if a > b then a
    else a
  }

  /** What a weight adds to P. */
  function PositivePart(x: real): real
  {
    if x > 0.0 then x else 0.0
  }

  /** What a weight adds to N: the weight times -1 when it is negative. */
  function NegativePart(x: real): real
  {
    if x < 0.0 then -1.0 * x else 0.0
  }

  /** P over the first `n` weights: the sum of the strictly positive ones, in row-major order. */
  function SumPositive(s: seq<real>, n: nat): real
    requires n <= |s|
  {
    if n == 0 then 0.0 else SumPositive(s, n - 1) + PositivePart(s[n - 1])
  }

  /** N over the first `n` weights: the sum of the absolute values of the strictly negative ones. */
  function SumNegative(s: seq<real>, n: nat): real
    requires n <= |s|
  {
    if n == 0 then 0.0 else SumNegative(s, n - 1) + NegativePart(s[n - 1])
  }

  lemma {:induction false} SumsNonNegative(s: seq<real>, n: nat)
    requires n <= |s|
    ensures SumPositive(s, n) >= 0.0 && SumNegative(s, n) >= 0.0
  {
    if n > 0 {
      SumsNonNegative(s, n - 1);
    }
  }

  /** max(P, N) over the whole kernel. */
  function Gain(s: seq<real>): (m: real)
    ensures m >= 0.0
  {
    SumsNonNegative(s, |s|);
    Maximum(SumPositive(s, |s|), SumNegative(s, |s|))
  }

  /** The single factor applied to every weight: 1 / max(P, N), or 1 when both sums are 0. */
  function ScaleFactor(s: seq<real>): (f: real)
    ensures f > 0.0
    ensures Gain(s) == 0.0 ==> f == 1.0
    ensures Gain(s) != 0.0 ==> f * Gain(s) == 1.0
  {
    var m := Gain(s);
    if m != 0.0 then 1.0 / m else 1.0
  }

  function Scale(s: seq<real>, f: real): (r: seq<real>)
    ensures |r| == |s|
  {
    seq(|s|, k requires 0 <= k < |s| => f * s[k])
  }

  /** A sequence whose every element is `f` times the same element of `s` is `Scale(s, f)`. */
  lemma ScaledBy(s: seq<real>, f: real, t: seq<real>)
    requires |t| == |s|
    requires forall j :: 0 <= j < |s| ==> t[j] == f * s[j]
    ensures t == Scale(s, f)
  {
    assert forall j :: 0 <= j < |s| ==> t[j] == Scale(s, f)[j];
  }

  /** The kernel after normalisation. */
  function Normalized(s: seq<real>): (r: seq<real>)
    ensures |r| == |s|
  {
    Scale(s, ScaleFactor(s))
  }

  /** Scaling by a positive factor scales the larger of two sums by the same factor. */
  lemma MaximumScale(f: real, p: real, n: real)
    requires f > 0.0
    ensures Maximum(f * p, f * n) == f * Maximum(p, n)
  {
    if p < n {
      assert f * p < f * n;
    } else if p > n {
      assert f * p > f * n;
    }
  }

  lemma PartsScale(f: real, x: real)
    requires f > 0.0
    ensures PositivePart(f * x) == f * PositivePart(x)
    ensures NegativePart(f * x) == f * NegativePart(x)
  {
    if x > 0.0 {
      assert f * x > 0.0;
    } else if x < 0.0 {
      assert f * x < 0.0;
    } else {
      assert f * x == 0.0;
    }
  }

  /**
   * One step of the scaling proofs, kept apart from the sums: if a total is
   * the sum of two parts and a scaled total the sum of the two scaled parts,
   * the scaled total is `f` times the total.
   */
  lemma ScaleStep(f: real, total: real, init: real, last: real, scaledTotal: real, scaledInit: real, scaledLast: real)
    requires total == init + last
    requires scaledTotal == scaledInit + scaledLast
    requires scaledInit == f * init && scaledLast == f * last
    ensures scaledTotal == f * total
  {
  }

  /** Scaling every weight by a positive factor scales P by that factor. */
  lemma {:induction false} SumPositiveScale(s: seq<real>, f: real, n: nat)
    requires f > 0.0 && n <= |s|
    ensures SumPositive(Scale(s, f), n) == f * SumPositive(s, n)
  {
    if n > 0 {
      var t := Scale(s, f);
      SumPositiveScale(s, f, n - 1);
      PartsScale(f, s[n - 1]);
      assert t[n - 1] == f * s[n - 1];
      ScaleStep(f, SumPositive(s, n), SumPositive(s, n - 1), PositivePart(s[n - 1]),
                SumPositive(t, n), SumPositive(t, n - 1), PositivePart(t[n - 1]));
    }
  }

  /** Scaling every weight by a positive factor scales N by that factor. */
  lemma {:induction false} SumNegativeScale(s: seq<real>, f: real, n: nat)
    requires f > 0.0 && n <= |s|
    ensures SumNegative(Scale(s, f), n) == f * SumNegative(s, n)
  {
    if n > 0 {
      var t := Scale(s, f);
      SumNegativeScale(s, f, n - 1);
      PartsScale(f, s[n - 1]);
      assert t[n - 1] == f * s[n - 1];
      ScaleStep(f, SumNegative(s, n), SumNegative(s, n - 1), NegativePart(s[n - 1]),
                SumNegative(t, n), SumNegative(t, n - 1), NegativePart(t[n - 1]));
    }
  }

  /** A strictly positive weight among the first `n` makes P at least that weight. */
  lemma {:induction false} SumPositiveBelow(s: seq<real>, n: nat, k: nat)
    requires k < n <= |s| && s[k] > 0.0
    ensures SumPositive(s, n) >= s[k]
  {
    SumsNonNegative(s, n - 1);
    if k < n - 1 {
      SumPositiveBelow(s, n - 1, k);
    }
  }

  /** A strictly negative weight among the first `n` makes N at least its absolute value. */
  lemma {:induction false} SumNegativeBelow(s: seq<real>, n: nat, k: nat)
    requires k < n <= |s| && s[k] < 0.0
    ensures SumNegative(s, n) >= -1.0 * s[k]
  {
    SumsNonNegative(s, n - 1);
    if k < n - 1 {
      SumNegativeBelow(s, n - 1, k);
    }
  }

  lemma {:induction false} SumsOfZeroWeights(s: seq<real>, n: nat)
    requires n <= |s|
    requires forall k :: 0 <= k < n ==> s[k] == 0.0
    ensures SumPositive(s, n) == 0.0 && SumNegative(s, n) == 0.0
  {
    if n > 0 {
      SumsOfZeroWeights(s, n - 1);
    }
  }

  /** max(P, N) is 0 exactly when every weight is 0. */
  lemma GainZeroIff(s: seq<real>)
    ensures Gain(s) == 0.0 <==> forall k :: 0 <= k < |s| ==> s[k] == 0.0
  {
    if forall k :: 0 <= k < |s| ==> s[k] == 0.0 {
      SumsOfZeroWeights(s, |s|);
    } else {
      var k :| 0 <= k < |s| && s[k] != 0.0;
      if s[k] > 0.0 {
        SumPositiveBelow(s, |s|, k);
      } else {
        SumNegativeBelow(s, |s|, k);
      }
    }
  }

  /** An all-zero kernel is scaled by 1 and comes back unchanged. */
  lemma NormalizeZeroKernel(s: seq<real>)
    requires forall k :: 0 <= k < |s| ==> s[k] == 0.0
    ensures ScaleFactor(s) == 1.0
    ensures Normalized(s) == s
  {
    GainZeroIff(s);
  }

  /** Multiplying by a positive factor keeps zero, the sign, and the ratio to any other weight. */
  lemma FactorKeepsShape(f: real, x: real, y: real)
    requires f > 0.0
    ensures f * x == 0.0 <==> x == 0.0
    ensures f * x > 0.0 <==> x > 0.0
    ensures f * x < 0.0 <==> x < 0.0
    ensures (f * x) * y == (f * y) * x
  {
    if x > 0.0 {
      assert f * x > 0.0;
    } else if x < 0.0 {
      assert f * x < 0.0;
    }
  }

  /**
   * Every weight is multiplied by the same positive factor: the size does not
   * change, zeros stay zero, signs are kept and ratios between weights are
   * preserved.
   */
  lemma NormalizeKeepsShape(s: seq<real>, i: nat, j: nat)
    requires i < |s| && j < |s|
    ensures |Normalized(s)| == |s|
    ensures Normalized(s)[i] == 0.0 <==> s[i] == 0.0
    ensures Normalized(s)[i] > 0.0 <==> s[i] > 0.0
    ensures Normalized(s)[i] < 0.0 <==> s[i] < 0.0
    ensures Normalized(s)[i] * s[j] == Normalized(s)[j] * s[i]
  {
    var f := ScaleFactor(s);
    var t := Normalized(s);
    assert t[i] == f * s[i] && t[j] == f * s[j];
    FactorKeepsShape(f, s[i], s[j]);
  }

  /** A kernel with a nonzero weight is normalised so that max(P, N) is exactly 1. */
  lemma NormalizeBalances(s: seq<real>)
    requires exists k :: 0 <= k < |s| && s[k] != 0.0
    ensures Gain(Normalized(s)) == 1.0
  {
    var f := ScaleFactor(s);
    var p, n := SumPositive(s, |s|), SumNegative(s, |s|);
    GainZeroIff(s);
    SumPositiveScale(s, f, |s|);
    SumNegativeScale(s, f, |s|);
    MaximumScale(f, p, n);
  }

  /** In a kernel whose weights all equal `c > 0`, P over `n` weights is `n * c` and N is 0. */
  lemma {:induction false} SumsOfUniformWeights(s: seq<real>, c: real, n: nat)
    requires c > 0.0 && n <= |s|
    requires forall k :: 0 <= k < |s| ==> s[k] == c
    ensures SumPositive(s, n) == (n as real) * c && SumNegative(s, n) == 0.0
  {
    if n > 0 {
      SumsOfUniformWeights(s, c, n - 1);
      assert PositivePart(s[n - 1]) == c && NegativePart(s[n - 1]) == 0.0;
      assert ((n - 1) as real) * c + c == (n as real) * c;
    }
  }

  /** A box blur, every weight the same positive number, normalises to weights of 1 / (number of weights) each. */
  lemma NormalizeBoxBlur(s: seq<real>, c: real)
    requires |s| > 0 && c > 0.0
    requires forall k :: 0 <= k < |s| ==> s[k] == c
    ensures forall k :: 0 <= k < |s| ==> Normalized(s)[k] == 1.0 / (|s| as real)
  {
    var m := |s| as real;
    SumsOfUniformWeights(s, c, |s|);
    assert Gain(s) == m * c;
    var f := ScaleFactor(s);
    assert f * (m * c) == 1.0;
    forall k | 0 <= k < |s|
      ensures Normalized(s)[k] == 1.0 / m
    {
      assert Normalized(s)[k] == f * c;
      assert (f * c) * m == 1.0;
    }
  }

  /** Normalising a normalised kernel changes nothing. */
  lemma NormalizeIdempotent(s: seq<real>)
    ensures Normalized(Normalized(s)) == Normalized(s)
  {
    if forall k :: 0 <= k < |s| ==> s[k] == 0.0 {
      NormalizeZeroKernel(s);
    } else {
      NormalizeBalances(s);
      var t := Normalized(s);
      assert ScaleFactor(t) == 1.0;
      assert Normalized(t) == t;
    }
  }

  // ---------------------------------------------------------------------------
  // Rotation by 180 degrees

  /**
   * The reversal of a sequence.  Cell `(row, col)` of an n x n row-major block
   * and cell `(n-1-row, n-1-col)` sit at mirrored positions `k` and
   * `n*n-1-k`, so rotating the matrix by 180 degrees reverses its block.
   */
  function Reverse<T>(s: seq<T>): (r: seq<T>)
    ensures |r| == |s|
  {
    if s == [] then [] else Reverse(s[1..]) + [s[0]]
  }

  lemma {:induction false} ReverseAt<T>(s: seq<T>, k: nat)
    requires k < |s|
    ensures Reverse(s)[k] == s[|s| - 1 - k]
  {
    if k < |s| - 1 {
      ReverseAt(s[1..], k);
    }
  }

  /** Rotating twice gives back the original kernel. */
  lemma ReverseTwice<T>(s: seq<T>)
    ensures Reverse(Reverse(s)) == s
  {
    forall k | 0 <= k < |s|
      ensures Reverse(Reverse(s))[k] == s[k]
    {
      ReverseAt(Reverse(s), k);
      ReverseAt(s, |s| - 1 - k);
    }
  }

  lemma MirrorCell(n: nat, row: nat, col: nat)
    requires row < n && col < n
    ensures Cell(n, n - 1 - row, n - 1 - col) == n * n - 1 - Cell(n, row, col)
  {
  }

  /** After the rotation, cell `(row, col)` holds what cell `(n-1-row, n-1-col)` held. */
  lemma Rotate180Cell(n: nat, s: seq<real>, row: nat, col: nat)
    requires |s| == n * n && row < n && col < n
    ensures Cell(n, row, col) < |s| && Cell(n, n - 1 - row, n - 1 - col) < |s|
    ensures Reverse(s)[Cell(n, row, col)] == s[Cell(n, n - 1 - row, n - 1 - col)]
  {
    CellInBlock(n, n, row, col);
    MirrorCell(n, row, col);
    ReverseAt(s, Cell(n, row, col));
  }

  /** For an odd size the centre weight stays where it is. */
  lemma RotateKeepsCentre(n: nat, s: seq<real>)
    requires |s| == n * n && n % 2 == 1
    ensures Cell(n, n / 2, n / 2) < |s|
    ensures Reverse(s)[Cell(n, n / 2, n / 2)] == s[Cell(n, n / 2, n / 2)]
  {
    var m := n / 2;
    assert n - 1 - m == m;
    Rotate180Cell(n, s, m, m);
  }

  // ---------------------------------------------------------------------------
  // The filter object

  class Filter {
    const size: nat
    const rows: array<nat>
    const weights: array<real>

    /** The row table addresses an n x n block: FILTER[row] starts at cell `(row, 0)`. */
    ghost predicate Valid()
      reads rows
    {
      && size > 0
      && rows.Length == size
      && weights.Length == size * size
      && forall i :: 0 <= i < size ==> rows[i] == Cell(size, i, 0)
    }

    /** FILTER[row][col], reached through the row table; it is cell `(row, col)` of the block. */
    function At(row: nat, col: nat): (w: real)
      reads rows, weights
      requires Valid() && row < size && col < size
      ensures Cell(size, row, col) < weights.Length
      ensures w == weights[Cell(size, row, col)]
    {
      CellInBlock(size, size, row, col);
      weights[rows[row] + col]
    }

    /**
     * readFilter: allocates a `filterSize` x `filterSize` filter and fills it
     * row by row from `values`, the successive values of the scan variable.
     * Each cell receives the value the variable holds after its own scan.
     */
    constructor Read(filterSize: nat, values: seq<real>)
      requires filterSize > 0
      requires |values| > 0
      ensures Valid() && size == filterSize && fresh(rows) && fresh(weights)
      ensures weights[..] == ScannedCells(values, size * size)
    {
      var n := filterSize;
      var table := RowTable(n, n);
      var block := new real[n * n];
      var filterValue := values[0];
      var scanned := 0;
      ghost var k := 0;
      var row := 0;
      while row < n
        invariant 0 <= row <= n && k == Cell(n, row, 0) && k <= n * n
        invariant scanned == if k < |values| then k else |values|
        invariant scanned > 0 ==> filterValue == values[scanned - 1]
        invariant forall j :: 0 <= j < k ==> block[j] == Scanned(values, j)
        modifies block
      {
        RowInBlock(n, n, row);
        var col := 0;
        while col < n
          invariant 0 <= col <= n && k == Cell(n, row, col) && Cell(n, row, n) <= n * n
          invariant scanned == if k < |values| then k else |values|
          invariant scanned > 0 ==> filterValue == values[scanned - 1]
          invariant forall j :: 0 <= j < k ==> block[j] == Scanned(values, j)
          modifies block
        {
          if scanned < |values| {
            filterValue := values[scanned];
            scanned := scanned + 1;
          }
          CellInBlock(n, n, row, col);
          block[table[row] + col] := filterValue;
          k := k + 1;
          col := col + 1;
        }
        NextRow(n, row);
        row := row + 1;
      }
      size, rows, weights := n, table, block;
      new;
      assert weights[..] == ScannedCells(values, size * size);
    }

    /**
     * The first half of normalizeFilter: one row-major pass that adds every
     * strictly positive weight to P and the absolute value of every strictly
     * negative weight to N.
     */
    method Sums() returns (positive: real, negative: real)
      requires Valid()
      ensures positive == SumPositive(weights[..], size * size)
      ensures negative == SumNegative(weights[..], size * size)
    {
      var n := size;
      positive, negative := 0.0, 0.0;
      ghost var k := 0;
      var row := 0;
      while row < n
        invariant 0 <= row <= n && k == Cell(n, row, 0) && k <= n * n
        invariant positive == SumPositive(weights[..], k)
        invariant negative == SumNegative(weights[..], k)
      {
        RowInBlock(n, n, row);
        var col := 0;
        while col < n
          invariant 0 <= col <= n && k == Cell(n, row, col) && Cell(n, row, n) <= n * n
          invariant positive == SumPositive(weights[..], k)
          invariant negative == SumNegative(weights[..], k)
        {
          CellInBlock(n, n, row, col);
          var value := weights[rows[row] + col];
          if value < 0.0 {
            negative := negative + -1.0 * value;
          } else if value > 0.0 {
            positive := positive + value;
          }
          k := k + 1;
          col := col + 1;
        }
        NextRow(n, row);
        row := row + 1;
      }
    }

    /** The second half of normalizeFilter: every weight is multiplied by `scale`, cell by cell. */
    method Rescale(scale: real)
      requires Valid()
      modifies weights
      ensures weights[..] == Scale(old(weights[..]), scale)
    {
      var n := size;
      ghost var original := weights[..];
      ghost var k := 0;
      var row := 0;
      while row < n
        invariant 0 <= row <= n && k == Cell(n, row, 0) && k <= n * n
        invariant forall j :: 0 <= j < k ==> weights[j] == scale * original[j]
        invariant forall j :: k <= j < n * n ==> weights[j] == original[j]
      {
        RowInBlock(n, n, row);
        var col := 0;
        while col < n
          invariant 0 <= col <= n && k == Cell(n, row, col) && Cell(n, row, n) <= n * n
          invariant forall j :: 0 <= j < k ==> weights[j] == scale * original[j]
          invariant forall j :: k <= j < n * n ==> weights[j] == original[j]
        {
          CellInBlock(n, n, row, col);
          weights[rows[row] + col] := scale * weights[rows[row] + col];
          k := k + 1;
          col := col + 1;
        }
        NextRow(n, row);
        row := row + 1;
      }
      ScaledBy(original, scale, weights[..]);
    }

    /** normalizeFilter: every weight is multiplied by the scale factor of the kernel. */
    method Normalize()
      requires Valid()
      modifies weights
      ensures Valid()
      ensures weights[..] == Normalized(old(weights[..]))
    {
      var positive, negative := Sums();
      var scale := Maximum(positive, negative);
      if scale != 0.0 {
        scale := 1.0 / scale;
      } else {
        scale := 1.0;
      }
      assert scale == ScaleFactor(weights[..]);
      Rescale(scale);
    }

    /**
     * The first half of flipFilterXandY: a temporary filter, with its own row
     * table, whose cell `(row, col)` is cell `(n-1-row, n-1-col)` of this one.
     */
    method RotatedCopy() returns (tempRows: array<nat>, temp: array<real>)
      requires Valid()
      ensures fresh(tempRows) && fresh(temp)
      ensures tempRows.Length == size && temp.Length == size * size
      ensures forall i :: 0 <= i < size ==> tempRows[i] == Cell(size, i, 0)
      ensures temp[..] == Reverse(weights[..])
    {
      var n := size;
      ghost var original := weights[..];
      tempRows := RowTable(n, n);
      temp := new real[n * n];
      ghost var k := 0;
      var row := 0;
      while row < n
        invariant 0 <= row <= n && k == Cell(n, row, 0) && k <= n * n
        invariant forall j :: 0 <= j < k ==> temp[j] == original[n * n - 1 - j]
        modifies temp
      {
        RowInBlock(n, n, row);
        var col := 0;
        while col < n
          invariant 0 <= col <= n && k == Cell(n, row, col) && Cell(n, row, n) <= n * n
          invariant forall j :: 0 <= j < k ==> temp[j] == original[n * n - 1 - j]
          modifies temp
        {
          CellInBlock(n, n, row, col);
          CellInBlock(n, n, n - 1 - row, n - 1 - col);
          MirrorCell(n, row, col);
          temp[tempRows[row] + col] := weights[rows[(n - 1) - row] + (n - 1) - col];
          k := k + 1;
          col := col + 1;
        }
        NextRow(n, row);
        row := row + 1;
      }
      forall j | 0 <= j < n * n
        ensures temp[j] == Reverse(original)[j]
      {
        ReverseAt(original, j);
      }
      assert temp[..] == Reverse(original);
    }

    /**
     * flipFilterXandY: builds the rotated temporary filter, then copies it back
     * cell by cell, so that cell `(row, col)` ends up holding what cell
     * `(n-1-row, n-1-col)` held.
     */
    method FlipXandY()
      requires Valid()
      modifies weights
      ensures Valid()
      ensures weights[..] == Reverse(old(weights[..]))
      ensures forall row, col :: 0 <= row < size && 0 <= col < size ==>
                At(row, col) == old(At(size - 1 - row, size - 1 - col))
    {
      var n := size;
      ghost var original := weights[..];
      var tempRows, temp := RotatedCopy();
      ghost var k := 0;
      var row := 0;
      while row < n
        invariant 0 <= row <= n && k == Cell(n, row, 0) && k <= n * n
        invariant forall j :: 0 <= j < k ==> weights[j] == temp[j]
        modifies weights
      {
        RowInBlock(n, n, row);
        var col := 0;
        while col < n
          invariant 0 <= col <= n && k == Cell(n, row, col) && Cell(n, row, n) <= n * n
          invariant forall j :: 0 <= j < k ==> weights[j] == temp[j]
          modifies weights
        {
          CellInBlock(n, n, row, col);
          weights[rows[row] + col] := temp[tempRows[row] + col];
          k := k + 1;
          col := col + 1;
        }
        NextRow(n, row);
        row := row + 1;
      }
      assert weights[..] == temp[..];
      forall row, col | 0 <= row < n && 0 <= col < n
        ensures At(row, col) == old(At(n - 1 - row, n - 1 - col))
      {
        Rotate180Cell(n, original, row, col);
      }
    }
  }

  /**
   * The kernel preparation main performs once: read the filter, normalise it,
   * then rotate it by 180 degrees.
   */
  method PrepareKernel(filterSize: nat, values: seq<real>) returns (filter: Filter)
    requires filterSize > 0
    requires |values| > 0
    ensures filter.Valid() && filter.size == filterSize
    ensures filter.weights[..] == Reverse(Normalized(ScannedCells(values, filterSize * filterSize)))
  {
    filter := new Filter.Read(filterSize, values);
    filter.Normalize();
    filter.FlipXandY();
  }

  /**
   * The kernel main ends up with, cell by cell: with a well-formed file, cell
   * `(row, col)` holds number `(n-1-row) * n + (n-1-col)` of the file times
   * the scale factor.
   */
  lemma PreparedKernelCell(n: nat, values: seq<real>, row: nat, col: nat)
    requires n * n <= |values| && |values| > 0
    requires row < n && col < n
    ensures Cell(n, row, col) < n * n && Cell(n, n - 1 - row, n - 1 - col) < n * n
    ensures Reverse(Normalized(ScannedCells(values, n * n)))[Cell(n, row, col)]
         == ScaleFactor(ScannedCells(values, n * n)) * values[Cell(n, n - 1 - row, n - 1 - col)]
  {
    var s := ScannedCells(values, n * n);
    Rotate180Cell(n, Normalized(s), row, col);
    ReadFilterLayout(n, values, n - 1 - row, n - 1 - col);
  }
}
