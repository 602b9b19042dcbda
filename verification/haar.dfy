/**
 * The Haar wavelet transform of `utils.compression.HaarTransform` (and its
 * private copy in the image model): a 1D forward/inverse pair over
 * sequences and their 2D row/column compositions.  Values are exact
 * numbers p + q*sqrt 2 (module RootTwo), so every `/ Math.sqrt(2)` is
 * exact and the transforms invert each other exactly.
 */
module Haar {
  import opened Outcomes
  import opened RootTwo

  /** The halving levels the transform walks through: 1, 2, 4, 8, ... */
  predicate IsPow2(n: int)
    decreases if n > 0 then n else 0
  {
    n == 1 || (n > 1 && n % 2 == 0 && IsPow2(n / 2))
  }

  /** `(a + b) / Math.sqrt(2)`. */
  function Average(a: Surd, b: Surd): Surd {
    DivRootTwo(Add(a, b))
  }

  /** `(a - b) / Math.sqrt(2)`. */
  function Difference(a: Surd, b: Surd): Surd {
    DivRootTwo(Sub(a, b))
  }

  /** One pair through a forward and an inverse step comes back unchanged, and vice versa. */
  lemma PairRoundTrip(a: Surd, b: Surd)
    ensures Average(Average(a, b), Difference(a, b)) == a
    ensures Difference(Average(a, b), Difference(a, b)) == b
  {
  }

  /* ---------------------------------------------------------------- 1D */

  /**
   * Whether one forward level over the first `n` entries stays inside `x`:
   * the loop reads `x[i + 1]` for every even `i < n`, which is `x[n]` when
   * `n` is odd.
   */
  predicate LevelFits(x: seq<Surd>, n: nat) {
    2 <= n <= |x| && (n % 2 == 1 ==> n < |x|)
  }

  /**
   * Entry `k` after one pass of the `while (reqlen > 1)` loop with
   * `reqlen == n`: the loop writes the pair averages at `i/2` and the pair
   * differences at `n/2 + i/2`, then copies the first `n` entries back.
   * When `n` is odd the last average overwrites the first difference, so
   * positions below `(n+1)/2` hold averages.
   */
  function LevelAt(x: seq<Surd>, n: nat, k: nat): Surd
    requires LevelFits(x, n) && k < |x|
  {
    if k >= n then x[k]
    else if k < (n + 1) / 2 then Average(x[2 * k], x[2 * k + 1])
    else Difference(x[2 * (k - n / 2)], x[2 * (k - n / 2) + 1])
  }

  /** One forward level over the first `n` entries; `LevelAtPair` states what it does to pair `i`. */
  function Level(x: seq<Surd>, n: nat): (y: seq<Surd>)
    requires LevelFits(x, n)
    ensures |y| == |x|
    ensures forall k :: 0 <= k < |x| ==> y[k] == LevelAt(x, n, k)
    ensures forall k :: n <= k < |x| ==> y[k] == x[k]
  {
    seq(|x|, k requires 0 <= k < |x| => LevelAt(x, n, k))
  }

  /** For even `n`, pair `i` becomes the average at `i` and the difference at `n/2 + i`. */
  lemma LevelAtPair(x: seq<Surd>, n: nat, i: nat)
    requires 2 <= n <= |x| && n % 2 == 0 && i < n / 2
    ensures 2 * i + 1 < n
    ensures LevelAt(x, n, i) == Average(x[2 * i], x[2 * i + 1])
    ensures LevelAt(x, n, n / 2 + i) == Difference(x[2 * i], x[2 * i + 1])
  {
    assert (n + 1) / 2 == n / 2;
  }

  /** The forward loop from `reqlen == n` down to 1. */
  function ForwardFrom(x: seq<Surd>, n: nat): (y: seq<Surd>)
    requires n <= |x| && (n > 1 && n % 2 == 1 ==> n < |x|)
    ensures |y| == |x|
    ensures forall k :: n <= k < |x| ==> y[k] == x[k]
    decreases n
  {
    if n <= 1 then x else ForwardFrom(Level(x, n), n / 2)
  }

  /**
   * `haarWaveletTransform`: a copy of the input transformed level by level.
   * An odd length above 1 makes the first level read one past the end.
   */
  function Forward(x: seq<Surd>): (r: Result<seq<Surd>>)
    ensures r.Err? <==> |x| > 1 && |x| % 2 == 1
    ensures r.Err? ==> r.error == IndexOutOfRange
    ensures r.Ok? ==> |r.value| == |x|
    ensures |x| <= 1 ==> r == Ok(x)
  {
    if |x| > 1 && |x| % 2 == 1 then Err(IndexOutOfRange) else Ok(ForwardFrom(x, |x|))
  }

  /**
   * Entry `k` after one pass of the inverse loop with window `m`: the
   * averages in the first half and the differences in the second half of
   * `y[..m]` are interleaved back into pairs.
   */
  function UnlevelAt(y: seq<Surd>, m: nat, k: nat): Surd
    requires 2 <= m <= |y| && m % 2 == 0 && k < |y|
  {
    if k >= m then y[k]
    else if k % 2 == 0 then Average(y[k / 2], y[m / 2 + k / 2])
    else Difference(y[k / 2], y[m / 2 + k / 2])
  }

  /** One inverse level with window `m`; `UnlevelAtPair` states what it does to pair `i`. */
  function Unlevel(y: seq<Surd>, m: nat): (x: seq<Surd>)
    requires 2 <= m <= |y| && m % 2 == 0
    ensures |x| == |y|
    ensures forall k :: 0 <= k < |y| ==> x[k] == UnlevelAt(y, m, k)
    ensures forall k :: m <= k < |y| ==> x[k] == y[k]
  {
    seq(|y|, k requires 0 <= k < |y| => UnlevelAt(y, m, k))
  }

  /** The two entries of pair `i` after one inverse level. */
  lemma UnlevelAtPair(y: seq<Surd>, m: nat, i: nat)
    requires 2 <= m <= |y| && m % 2 == 0 && i < m / 2
    ensures 2 * i + 1 < m
    ensures UnlevelAt(y, m, 2 * i) == Average(y[i], y[m / 2 + i])
    ensures UnlevelAt(y, m, 2 * i + 1) == Difference(y[i], y[m / 2 + i])
  {
    assert (2 * i) / 2 == i && (2 * i + 1) / 2 == i && (2 * i + 1) % 2 == 1;
  }

  /** The inverse loop from window `m`, doubling while `m <= |y|`. */
  function InverseFrom(y: seq<Surd>, m: nat): (x: seq<Surd>)
    requires IsPow2(m) && m >= 2
    ensures |x| == |y|
    ensures m > |y| ==> x == y
    decreases |y| + 1 - m
  {
    if m > |y| then y else InverseFrom(Unlevel(y, m), 2 * m)
  }

  /** `invHaarWaveTransf`: windows 2, 4, 8, ... up to the length; it never reads out of bounds. */
  function Inverse(y: seq<Surd>): (x: seq<Surd>)
    ensures |x| == |y|
    ensures |y| <= 1 ==> x == y
  {
    InverseFrom(y, 2)
  }

  /* ------------------------------------------------- 1D round trips */

  lemma {:induction false} Pow2Even(n: int)
    requires IsPow2(n) && n >= 2
    ensures n % 2 == 0 && IsPow2(n / 2)
  {
  }

  /** Between two powers of two there is at least a factor of two. */
  lemma {:induction false} Pow2Gap(a: int, b: int)
    requires IsPow2(a) && IsPow2(b) && a < b
    ensures 2 * a <= b
    decreases a + b
  {
    assert b > 1;
    if b / 2 < a {
      Pow2Gap(b / 2, a);
      assert false;
    }
  }

  /** Undoing one level: interleaving the averages and differences gives the pairs back. */
  lemma UnlevelLevel(x: seq<Surd>, n: nat)
    requires 2 <= n <= |x| && n % 2 == 0
    ensures Unlevel(Level(x, n), n) == x
  {
    var z := Unlevel(Level(x, n), n);
    forall k | 0 <= k < |x|
      ensures z[k] == x[k]
    {
      if k < n {
        UnlevelLevelAt(x, n, k / 2);
        assert k == 2 * (k / 2) || k == 2 * (k / 2) + 1;
      }
    }
  }

  /** Pair `i` survives a forward level followed by an inverse level. */
  lemma UnlevelLevelAt(x: seq<Surd>, n: nat, i: nat)
    requires 2 <= n <= |x| && n % 2 == 0 && i < n / 2
    ensures 2 * i + 1 < n
    ensures Unlevel(Level(x, n), n)[2 * i] == x[2 * i]
    ensures Unlevel(Level(x, n), n)[2 * i + 1] == x[2 * i + 1]
  {
    var y := Level(x, n);
    var a, b := x[2 * i], x[2 * i + 1];
    LevelAtPair(x, n, i);
    assert y[i] == Average(a, b) && y[n / 2 + i] == Difference(a, b);
    UnlevelAtPair(y, n, i);
    PairRoundTrip(a, b);
  }

  /** Redoing one level: averaging and differencing the interleaved pairs gives the halves back. */
  lemma LevelUnlevel(y: seq<Surd>, n: nat)
    requires 2 <= n <= |y| && n % 2 == 0
    ensures Level(Unlevel(y, n), n) == y
  {
    var z := Level(Unlevel(y, n), n);
    forall k | 0 <= k < |y|
      ensures z[k] == y[k]
    {
      if k < n / 2 {
        LevelUnlevelAt(y, n, k);
      } else if k < n {
        var i := k - n / 2;
        LevelUnlevelAt(y, n, i);
        assert n / 2 + i == k;
      }
    }
  }

  /** Average `i` and difference `i` survive an inverse level followed by a forward level. */
  lemma LevelUnlevelAt(y: seq<Surd>, n: nat, i: nat)
    requires 2 <= n <= |y| && n % 2 == 0 && i < n / 2
    ensures Level(Unlevel(y, n), n)[i] == y[i]
    ensures Level(Unlevel(y, n), n)[n / 2 + i] == y[n / 2 + i]
  {
    var x := Unlevel(y, n);
    UnlevelAtPair(y, n, i);
    LevelAtPair(x, n, i);
    PairRoundTrip(y[i], y[n / 2 + i]);
  }

  /** Inverting after the forward levels n, n/2, ..., 2 resumes the inverse at window 2n. */
  lemma {:induction false} InverseAfterForward(x: seq<Surd>, n: nat)
    requires IsPow2(n) && n <= |x| && IsPow2(|x|)
    ensures InverseFrom(ForwardFrom(x, n), 2) == InverseFrom(x, 2 * n)
    decreases n
  {
    if n > 1 {
      Pow2Even(n);
      var y := Level(x, n);
      InverseAfterForward(y, n / 2);
      assert 2 * (n / 2) == n;
      UnlevelLevel(x, n);
    }
  }

  /** Forward levels after inverse windows m, 2m, ..., |y| cancel down to level m/2. */
  lemma {:induction false} ForwardAfterInverse(y: seq<Surd>, m: nat)
    requires IsPow2(m) && m >= 2 && IsPow2(|y|) && m <= 2 * |y|
    ensures ForwardFrom(InverseFrom(y, m), |y|) == ForwardFrom(y, m / 2)
    decreases 2 * |y| - m
  {
    Pow2Even(m);
    if m > |y| {
      Pow2Gap(|y|, m);
      assert m / 2 == |y|;
      assert InverseFrom(y, m) == y;
    } else {
      var x := Unlevel(y, m);
      assert IsPow2(2 * m) && (2 * m) / 2 == m;
      calc {
        ForwardFrom(InverseFrom(y, m), |y|);
        ForwardFrom(InverseFrom(x, 2 * m), |x|);
        { ForwardAfterInverse(x, 2 * m); }
        ForwardFrom(x, m);
        ForwardFrom(Level(x, m), m / 2);
        { LevelUnlevel(y, m); }
        ForwardFrom(y, m / 2);
      }
    }
  }

  lemma Pow2Parity(n: int)
    requires IsPow2(n)
    ensures n > 1 ==> n % 2 == 0
  {
  }

  /** For a power-of-two length, the inverse undoes the forward transform. */
  lemma InverseForward(x: seq<Surd>)
    requires IsPow2(|x|)
    ensures Forward(x).Ok? && Inverse(Forward(x).value) == x
  {
    Pow2Parity(|x|);
    InverseAfterForward(x, |x|);
  }

  /** For a power-of-two length, the forward transform undoes the inverse. */
  lemma ForwardInverse(y: seq<Surd>)
    requires IsPow2(|y|)
    ensures Forward(Inverse(y)) == Ok(y)
  {
    Pow2Parity(|y|);
    ForwardAfterInverse(y, 2);
  }

  /** A length of 3 makes the first level read `x[3]`: the forward transform fails. */
  lemma ForwardOddLengthFails(a: Surd, b: Surd, c: Surd)
    ensures Forward([a, b, c]) == Err(IndexOutOfRange)
  {
  }

  /* ---------------------------------------------------------------- 2D */

  type Matrix = seq<seq<Surd>>

  /** Every row of `m` has `w` entries. */
  predicate RowsOfWidth(m: Matrix, w: nat) {
    forall i :: 0 <= i < |m| ==> |m[i]| == w
  }

  /** Column `j` of the matrix, top to bottom. */
  function Column(m: Matrix, j: nat): (c: seq<Surd>)
    requires forall i :: 0 <= i < |m| ==> j < |m[i]|
    ensures |c| == |m| && forall i :: 0 <= i < |m| ==> c[i] == m[i][j]
  {
    seq(|m|, i requires 0 <= i < |m| => m[i][j])
  }

  /** The first loop of `haarWaveTransf2D`: every row through the 1D transform. */
  function ForwardRows(m: Matrix, w: nat): (r: Matrix)
    requires RowsOfWidth(m, w) && (|m| == 0 || !(w > 1 && w % 2 == 1))
    ensures RowsOfWidth(r, w) && |r| == |m|
    ensures forall i :: 0 <= i < |m| ==> Forward(m[i]) == Ok(r[i])
  {
    seq(|m|, i requires 0 <= i < |m| => ForwardFrom(m[i], w))
  }

  /** The second loop of `invHaarWaveTransf2D`: every row through the 1D inverse. */
  function InverseRows(m: Matrix, w: nat): (r: Matrix)
    requires RowsOfWidth(m, w)
    ensures RowsOfWidth(r, w) && |r| == |m|
    ensures forall i :: 0 <= i < |m| ==> r[i] == Inverse(m[i])
  {
    seq(|m|, i requires 0 <= i < |m| => Inverse(m[i]))
  }

  /**
   * The column loop of `haarWaveTransf2D`: columns `0 .. count-1` through
   * the 1D transform, the rest untouched.
   */
  function ForwardColumns(m: Matrix, w: nat, count: nat): (r: Matrix)
    requires RowsOfWidth(m, w) && count <= w && (count == 0 || !(|m| > 1 && |m| % 2 == 1))
    ensures RowsOfWidth(r, w) && |r| == |m|
    ensures forall j :: 0 <= j < count ==> Forward(Column(m, j)) == Ok(Column(r, j))
    ensures forall i, j :: 0 <= i < |m| && count <= j < w ==> r[i][j] == m[i][j]
  {
    var r := seq(|m|, i requires 0 <= i < |m| => seq(w, j requires 0 <= j < w =>
      if j < count then ForwardFrom(Column(m, j), |m|)[i] else m[i][j]));
    assert forall j :: 0 <= j < count ==> Column(r, j) == ForwardFrom(Column(m, j), |m|);
    r
  }

  /** The column loop of `invHaarWaveTransf2D`: columns `0 .. count-1` through the 1D inverse. */
  function InverseColumns(m: Matrix, w: nat, count: nat): (r: Matrix)
    requires RowsOfWidth(m, w) && count <= w
    ensures RowsOfWidth(r, w) && |r| == |m|
    ensures forall j :: 0 <= j < count ==> Column(r, j) == Inverse(Column(m, j))
    ensures forall i, j :: 0 <= i < |m| && count <= j < w ==> r[i][j] == m[i][j]
  {
    var r := seq(|m|, i requires 0 <= i < |m| => seq(w, j requires 0 <= j < w =>
      if j < count then Inverse(Column(m, j))[i] else m[i][j]));
    assert forall j :: 0 <= j < count ==> Column(r, j) == Inverse(Column(m, j));
    r
  }

  /**
   * `haarWaveTransf2D` as written: `size` is the number of rows, used both
   * for the row loop and for the column loop, so only the first `size`
   * columns are transformed and a matrix with more rows than columns reads
   * past the end of a row.
   */
  function Forward2D(m: Matrix, w: nat): (r: Result<Matrix>)
    requires RowsOfWidth(m, w)
    ensures r.Ok? <==> (|m| == 0 || !(w > 1 && w % 2 == 1)) && |m| <= w && !(|m| > 1 && |m| % 2 == 1)
    ensures r.Err? ==> r.error == IndexOutOfRange
    ensures r.Ok? ==> r.value == ForwardColumns(ForwardRows(m, w), w, |m|)
  {
    var size := |m|;
    if size > 0 && w > 1 && w % 2 == 1 then Err(IndexOutOfRange)
    else if size > w then Err(IndexOutOfRange)
    else if size > 1 && size % 2 == 1 then Err(IndexOutOfRange)
    else Ok(ForwardColumns(ForwardRows(m, w), w, size))
  }

  /** `invHaarWaveTransf2D` as written: the first `size` columns, then every row. */
  function Inverse2D(m: Matrix, w: nat): (r: Result<Matrix>)
    requires RowsOfWidth(m, w)
    ensures r.Ok? <==> |m| <= w
    ensures r.Err? ==> r.error == IndexOutOfRange
    ensures r.Ok? ==> r.value == InverseRows(InverseColumns(m, w, |m|), w)
  {
    if |m| > w then Err(IndexOutOfRange) else Ok(InverseRows(InverseColumns(m, w, |m|), w))
  }

  /** Two matrices of the same shape agreeing on every column are equal. */
  lemma ColumnsEqual(a: Matrix, b: Matrix, w: nat)
    requires RowsOfWidth(a, w) && RowsOfWidth(b, w) && |a| == |b|
    requires forall j :: 0 <= j < w ==> Column(a, j) == Column(b, j)
    ensures a == b
  {
    forall i | 0 <= i < |a|
      ensures a[i] == b[i]
    {
      forall j | 0 <= j < w
        ensures a[i][j] == b[i][j]
      {
        assert Column(a, j)[i] == Column(b, j)[i];
      }
    }
  }

  /** The column pass of the inverse undoes the column pass of the forward transform. */
  lemma InverseColumnsForward(m: Matrix, w: nat, count: nat)
    requires RowsOfWidth(m, w) && count <= w && IsPow2(|m|)
    ensures InverseColumns(ForwardColumns(m, w, count), w, count) == m
  {
    Pow2Parity(|m|);
    var f := ForwardColumns(m, w, count);
    var r := InverseColumns(f, w, count);
    forall j | 0 <= j < w
      ensures Column(r, j) == Column(m, j)
    {
      if j < count {
        InverseForward(Column(m, j));
      } else {
        assert forall i :: 0 <= i < |m| ==> Column(r, j)[i] == Column(m, j)[i];
      }
    }
    ColumnsEqual(r, m, w);
  }

  /** The column pass of the forward transform undoes the column pass of the inverse. */
  lemma ForwardColumnsInverse(m: Matrix, w: nat, count: nat)
    requires RowsOfWidth(m, w) && count <= w && IsPow2(|m|)
    ensures ForwardColumns(InverseColumns(m, w, count), w, count) == m
  {
    Pow2Parity(|m|);
    var v := InverseColumns(m, w, count);
    var r := ForwardColumns(v, w, count);
    forall j | 0 <= j < w
      ensures Column(r, j) == Column(m, j)
    {
      if j < count {
        ForwardInverse(Column(m, j));
      } else {
        assert forall i :: 0 <= i < |m| ==> Column(r, j)[i] == Column(m, j)[i];
      }
    }
    ColumnsEqual(r, m, w);
  }

  /** The row pass of the inverse undoes the row pass of the forward transform. */
  lemma InverseRowsForward(m: Matrix, w: nat)
    requires RowsOfWidth(m, w) && IsPow2(w)
    ensures InverseRows(ForwardRows(m, w), w) == m
  {
    Pow2Parity(w);
    var r := InverseRows(ForwardRows(m, w), w);
    forall i | 0 <= i < |m|
      ensures r[i] == m[i]
    {
      InverseForward(m[i]);
    }
  }

  /** The row pass of the forward transform undoes the row pass of the inverse. */
  lemma ForwardRowsInverse(m: Matrix, w: nat)
    requires RowsOfWidth(m, w) && IsPow2(w)
    ensures ForwardRows(InverseRows(m, w), w) == m
  {
    Pow2Parity(w);
    var r := ForwardRows(InverseRows(m, w), w);
    forall i | 0 <= i < |m|
      ensures r[i] == m[i]
    {
      ForwardInverse(m[i]);
    }
  }

  /**
   * As written, the 2D pair inverts on power-of-two matrices that are not
   * taller than wide.
   */
  lemma Inverse2DForward2D(m: Matrix, w: nat)
    requires RowsOfWidth(m, w) && IsPow2(|m|) && IsPow2(w) && |m| <= w
    ensures Forward2D(m, w).Ok? && Inverse2D(Forward2D(m, w).value, w) == Ok(m)
  {
    Pow2Parity(|m|);
    Pow2Parity(w);
    var rows := ForwardRows(m, w);
    InverseColumnsForward(rows, w, |m|);
    InverseRowsForward(m, w);
  }

  /** As written, the forward 2D transform undoes the inverse on the same matrices. */
  lemma Forward2DInverse2D(m: Matrix, w: nat)
    requires RowsOfWidth(m, w) && IsPow2(|m|) && IsPow2(w) && |m| <= w
    ensures Inverse2D(m, w).Ok? && Forward2D(Inverse2D(m, w).value, w) == Ok(m)
  {
    Pow2Parity(|m|);
    Pow2Parity(w);
    var cols := InverseColumns(m, w, |m|);
    ForwardRowsInverse(cols, w);
    ForwardColumnsInverse(m, w, |m|);
  }

  /** A 2x1 matrix (two rows, one column) makes the column loop read column 1: the 2D transform fails. */
  lemma Forward2DTallFails(a: Surd, b: Surd)
    ensures Forward2D([[a], [b]], 1) == Err(IndexOutOfRange)
  {
  }

  /**
   * The evident intent of `haarWaveTransf2D`: transform every row, then
   * every one of the `w` columns.
   */
  function Forward2DFull(m: Matrix, w: nat): (r: Result<Matrix>)
    requires RowsOfWidth(m, w)
    ensures r.Ok? <==> (|m| == 0 || !(w > 1 && w % 2 == 1)) && (w == 0 || !(|m| > 1 && |m| % 2 == 1))
    ensures r.Err? ==> r.error == IndexOutOfRange
    ensures r.Ok? ==> r.value == ForwardColumns(ForwardRows(m, w), w, w)
  {
    if |m| > 0 && w > 1 && w % 2 == 1 then Err(IndexOutOfRange)
    else if w > 0 && |m| > 1 && |m| % 2 == 1 then Err(IndexOutOfRange)
    else Ok(ForwardColumns(ForwardRows(m, w), w, w))
  }

  /** The evident intent of `invHaarWaveTransf2D`: every one of the `w` columns, then every row. */
  function Inverse2DFull(m: Matrix, w: nat): (r: Matrix)
    requires RowsOfWidth(m, w)
    ensures RowsOfWidth(r, w) && |r| == |m|
    ensures forall j :: 0 <= j < w ==> Column(InverseColumns(m, w, w), j) == Inverse(Column(m, j))
    ensures forall i :: 0 <= i < |m| ==> r[i] == Inverse(InverseColumns(m, w, w)[i])
  {
    InverseRows(InverseColumns(m, w, w), w)
  }

  /** The corrected 2D pair inverts on every power-of-two matrix, tall or wide. */
  lemma Inverse2DFullForward2DFull(m: Matrix, w: nat)
    requires RowsOfWidth(m, w) && IsPow2(|m|) && IsPow2(w)
    ensures Forward2DFull(m, w).Ok? && Inverse2DFull(Forward2DFull(m, w).value, w) == m
  {
    Pow2Parity(|m|);
    Pow2Parity(w);
    var rows := ForwardRows(m, w);
    InverseColumnsForward(rows, w, w);
    InverseRowsForward(m, w);
  }

  /** The corrected forward 2D transform undoes the corrected inverse on the same matrices. */
  lemma Forward2DFullInverse2DFull(m: Matrix, w: nat)
    requires RowsOfWidth(m, w) && IsPow2(|m|) && IsPow2(w)
    ensures Forward2DFull(Inverse2DFull(m, w), w) == Ok(m)
  {
    Pow2Parity(|m|);
    Pow2Parity(w);
    var cols := InverseColumns(m, w, w);
    ForwardRowsInverse(cols, w);
    ForwardColumnsInverse(m, w, w);
  }
}
