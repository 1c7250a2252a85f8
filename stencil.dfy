/**
 * The explicit finite-difference kernel shared by every engine: the value of
 * one interior cell after a time step, the grid obtained by recomputing a
 * band of interior rows, and the loop that computes such a band in place.
 */
module Stencil {
  import opened Matrices

  /** The diffusion coefficient alpha·dt/d² along an axis with spatial step `d`. */
  function Coefficient(alpha: real, dt: real, d: real): real
    requires d != 0.0
  {
    alpha * dt / (d * d)
  }

  /** `(i, j)` has a neighbour on each of its four sides in `m`. */
  predicate HasNeighbours(m: Matrix, i: int, j: int)
  {
    1 <= i < |m| - 1 && 1 <= j && j + 1 < |m[i]| && j < |m[i - 1]| && j < |m[i + 1]|
  }

  /** The new temperature of cell `(i, j)`: the five-point stencil over `m`. */
  function StencilAt(m: Matrix, i: int, j: int, coefX: real, coefY: real): real
    requires HasNeighbours(m, i, j)
  {
    var t := m[i][j];
    t + coefX * (m[i + 1][j] - 2.0 * t + m[i - 1][j]) + coefY * (m[i][j + 1] - 2.0 * t + m[i][j - 1])
  }

  /** `src` and `dst` are both `|dst|`-by-`|dst|` grids. */
  predicate SameGrid(src: Matrix, dst: Matrix)
  {
    IsSquare(src, |dst|) && IsSquare(dst, |dst|)
  }

  /** Rows `s..e` lie inside the interior `1..n-2` of an `n`-row grid (or the band is empty). */
  predicate InteriorBand(n: int, s: int, e: int)
  {
    1 <= s && e <= n - 2
  }

  /**
   * `dst` with the interior cells of rows `s..e` (columns `1..n-2`) replaced
   * by the stencil over `src`; everything else is kept.
   */
  function InteriorUpdate(src: Matrix, dst: Matrix, s: int, e: int, coefX: real, coefY: real): (r: Matrix)
    requires SameGrid(src, dst) && InteriorBand(|dst|, s, e)
    ensures IsSquare(r, |dst|)
  {
    var n := |dst|;
    seq(n, i requires 0 <= i < n =>
      if s <= i <= e then
        seq(n, j requires 0 <= j < n => InteriorCell(src, dst, i, j, coefX, coefY))
      else dst[i])
  }

  /** Cell `(i, j)` of an updated interior row: the stencil in columns `1..n-2`, `dst`'s value in columns `0` and `n-1`. */
  function InteriorCell(src: Matrix, dst: Matrix, i: int, j: int, coefX: real, coefY: real): real
    requires SameGrid(src, dst) && 1 <= i <= |dst| - 2 && 0 <= j < |dst|
  {
    if 1 <= j <= |dst| - 2 then StencilAt(src, i, j, coefX, coefY) else dst[i][j]
  }

  /** The whole interior recomputed: what one time step produces before the boundary conditions. */
  function FullInterior(src: Matrix, dst: Matrix, coefX: real, coefY: real): (r: Matrix)
    requires SameGrid(src, dst)
    ensures IsSquare(r, |dst|)
  {
    InteriorUpdate(src, dst, 1, |dst| - 2, coefX, coefY)
  }

  /**
   * Only interior cells of rows `s..e` are written, each with the stencil
   * over `src`; rows outside the band and columns `0` and `n-1` keep `dst`.
   */
  lemma UpdateWritesOnlyBand(src: Matrix, dst: Matrix, s: int, e: int, coefX: real, coefY: real)
    requires SameGrid(src, dst) && InteriorBand(|dst|, s, e)
    ensures var r := InteriorUpdate(src, dst, s, e, coefX, coefY);
      forall i, j :: 0 <= i < |dst| && 0 <= j < |dst| ==>
        r[i][j] == if s <= i <= e && 1 <= j <= |dst| - 2 then StencilAt(src, i, j, coefX, coefY) else dst[i][j]
  {
  }

  /** A band with `s > e`, and in particular the whole interior of a grid with `n <= 2`, writes nothing. */
  lemma EmptyBandWritesNothing(src: Matrix, dst: Matrix, s: int, e: int, coefX: real, coefY: real)
    requires SameGrid(src, dst) && InteriorBand(|dst|, s, e)
    requires s > e
    ensures InteriorUpdate(src, dst, s, e, coefX, coefY) == dst
  {
    var r := InteriorUpdate(src, dst, s, e, coefX, coefY);
    forall i | 0 <= i < |dst|
      ensures r[i] == dst[i]
    {
    }
  }

  /** Computing `s..k` and then `k+1..e` is computing `s..e`. */
  lemma UpdateSplit(src: Matrix, dst: Matrix, s: int, k: int, e: int, coefX: real, coefY: real)
    requires SameGrid(src, dst) && InteriorBand(|dst|, s, e)
    requires s - 1 <= k <= e
    ensures InteriorUpdate(src, InteriorUpdate(src, dst, s, k, coefX, coefY), k + 1, e, coefX, coefY)
         == InteriorUpdate(src, dst, s, e, coefX, coefY)
  {
    var mid := InteriorUpdate(src, dst, s, k, coefX, coefY);
    var r := InteriorUpdate(src, mid, k + 1, e, coefX, coefY);
    var whole := InteriorUpdate(src, dst, s, e, coefX, coefY);
    forall i | 0 <= i < |dst|
      ensures r[i] == whole[i]
    {
      if s <= i <= k {
        assert r[i] == mid[i];
      }
    }
  }

  /**
   * The stencil loop over rows `s..e` and columns `1..n-2`: it reads `src`
   * only and writes `dst` only, leaving `dst` equal to `InteriorUpdate`.
   */
  method UpdateRows(src: array2<real>, dst: array2<real>, s: int, e: int, coefX: real, coefY: real)
    requires src != dst
    requires src.Length0 == src.Length1 == dst.Length0 == dst.Length1
    requires InteriorBand(dst.Length0, s, e)
    modifies dst
    ensures Rows(dst) == InteriorUpdate(Rows(src), old(Rows(dst)), s, e, coefX, coefY)
  {
    var n := dst.Length0;
    ghost var m := Rows(src);
    ghost var d0 := Rows(dst);
    var i := s;
    while i <= e
      invariant s <= i && (i <= e + 1 || i == s)
      invariant Rows(src) == m
      invariant forall r, c :: 0 <= r < n && 0 <= c < n ==>
        dst[r, c] == if s <= r < i && 1 <= c <= n - 2 then StencilAt(m, r, c, coefX, coefY) else d0[r][c]
    {
      UpdateRow(src, dst, i, coefX, coefY);
      i := i + 1;
    }
    UpdateWritesOnlyBand(m, d0, s, e, coefX, coefY);
    RowsAre(dst, InteriorUpdate(m, d0, s, e, coefX, coefY));
  }

  /** The inner loop of `UpdateRows`: columns `1..n-2` of row `i`. */
  method UpdateRow(src: array2<real>, dst: array2<real>, i: int, coefX: real, coefY: real)
    requires src != dst
    requires src.Length0 == src.Length1 == dst.Length0 == dst.Length1
    requires 1 <= i <= dst.Length0 - 2
    modifies dst
    ensures forall r, c :: 0 <= r < dst.Length0 && 0 <= c < dst.Length1 ==>
      dst[r, c] == if r == i && 1 <= c <= dst.Length1 - 2 then StencilAt(Rows(src), r, c, coefX, coefY) else old(dst[r, c])
  {
    var n := dst.Length0;
    ghost var m := Rows(src);
    var j := 1;
    while j < n - 1
      invariant 1 <= j <= n - 1
      invariant Rows(src) == m
      invariant forall r, c :: 0 <= r < n && 0 <= c < n ==>
        dst[r, c] == if r == i && 1 <= c < j then StencilAt(m, r, c, coefX, coefY) else old(dst[r, c])
    {
      var t := src[i, j];
      var tx := src[i + 1, j] - 2.0 * t + src[i - 1, j];
      var ty := src[i, j + 1] - 2.0 * t + src[i, j - 1];
      dst[i, j] := t + coefX * tx + coefY * ty;
      j := j + 1;
    }
  }
}
