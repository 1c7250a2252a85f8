/**
 * Temperature grids as values.  The simulator's buffers are two-dimensional
 * arrays; `Rows` reads one as a sequence of rows so that specifications can
 * speak about whole grids and compare them.
 */
module Matrices {

  /** A grid of temperatures, row by row. */
  type Matrix = seq<seq<real>>

  /** Every row of `m` has exactly `w` entries. */
  predicate HasWidth(m: Matrix, w: int)
  {
    forall i :: 0 <= i < |m| ==> |m[i]| == w
  }

  /** `m` is an `n`-by-`n` grid. */
  predicate IsSquare(m: Matrix, n: int)
  {
    |m| == n && HasWidth(m, n)
  }

  /** Every row of `m` has at least `w` entries. */
  predicate AtLeastWide(m: Matrix, w: int)
  {
    forall i :: 0 <= i < |m| ==> |m[i]| >= w
  }

  /** The contents of a two-dimensional array, row by row. */
  ghost function Rows(a: array2<real>): (m: Matrix)
    reads a
    ensures |m| == a.Length0 && HasWidth(m, a.Length1)
    ensures forall i, j :: 0 <= i < a.Length0 && 0 <= j < a.Length1 ==> m[i][j] == a[i, j]
  {
    seq(a.Length0, i requires 0 <= i < a.Length0 reads a =>
      seq(a.Length1, j requires 0 <= j < a.Length1 reads a => a[i, j]))
  }

  /** Two grids of the same shape that agree cell by cell are equal. */
  lemma CellsEqual(m: Matrix, m': Matrix)
    requires |m| == |m'|
    requires forall i :: 0 <= i < |m| ==> |m[i]| == |m'[i]|
    requires forall i, j :: 0 <= i < |m| && 0 <= j < |m[i]| ==> m[i][j] == m'[i][j]
    ensures m == m'
  {
    forall i | 0 <= i < |m|
      ensures m[i] == m'[i]
    {
      assert forall j :: 0 <= j < |m[i]| ==> m[i][j] == m'[i][j];
    }
  }

  /** An array whose cells agree with `m` holds exactly `m`. */
  lemma RowsAre(a: array2<real>, m: Matrix)
    requires |m| == a.Length0 && HasWidth(m, a.Length1)
    requires forall i, j :: 0 <= i < a.Length0 && 0 <= j < a.Length1 ==> a[i, j] == m[i][j]
    ensures Rows(a) == m
  {
    CellsEqual(Rows(a), m);
  }

  /** A `rows`-by-`cols` grid holding `v` everywhere. */
  function Constant(rows: nat, cols: nat, v: real): (m: Matrix)
    ensures |m| == rows && HasWidth(m, cols)
    ensures forall i, j :: 0 <= i < rows && 0 <= j < cols ==> m[i][j] == v
  {
    seq(rows, i => seq(cols, j => v))
  }

  /** The first `w` entries of every row of `m`. */
  function Truncate(m: Matrix, w: nat): (r: Matrix)
    requires AtLeastWide(m, w)
    ensures |r| == |m| && HasWidth(r, w)
    ensures forall i, j :: 0 <= i < |m| && 0 <= j < w ==> r[i][j] == m[i][j]
  {
    seq(|m|, i requires 0 <= i < |m| => m[i][..w])
  }
}
