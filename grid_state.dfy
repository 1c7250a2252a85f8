/**
 * The grid state shared by every engine: the current buffer `T`, the next
 * buffer `newT`, the snapshot `initialT` and the four edge-clamp flags, with
 * the buffer discipline of one time step (copy `T` into `newT`, let an engine
 * write the interior of `newT`, clamp the enabled edges of `newT`, publish
 * `newT` into `T`).
 */
module GridState {
  import opened Wrappers
  import opened Matrices
  import opened Stencil

  /** The temperature every cell starts with. */
  const Ambient: real := 20.0

  /** The temperature of a clamped edge. */
  const Hot: real := 100.0

  /** Which of the four edges are clamped to `Hot`. */
  datatype Borders = Borders(top: bool, bottom: bool, left: bool, right: bool)

  /** Cell `(i, j)` of an `n`-by-`n` grid lies on an edge that `b` clamps. */
  predicate OnClampedEdge(b: Borders, n: int, i: int, j: int)
  {
    (b.top && i == 0) || (b.bottom && i == n - 1) || (b.left && j == 0) || (b.right && j == n - 1)
  }

  /** Cell `(i, j)` lies on the border of an `n`-by-`n` grid. */
  predicate OnBorder(n: int, i: int, j: int)
  {
    i == 0 || i == n - 1 || j == 0 || j == n - 1
  }

  /** `m` with every cell of a clamped edge set to `Hot`. */
  function WithBoundaries(m: Matrix, b: Borders): (r: Matrix)
    requires IsSquare(m, |m|)
    ensures IsSquare(r, |m|)
  {
    var n := |m|;
    seq(n, i requires 0 <= i < n =>
      seq(n, j requires 0 <= j < n => if OnClampedEdge(b, n, i, j) then Hot else m[i][j]))
  }

  /** Clamping sets exactly the cells of the enabled edges to `Hot` and leaves every other cell as it was. */
  lemma BoundariesExact(m: Matrix, b: Borders)
    requires IsSquare(m, |m|)
    ensures forall i, j :: 0 <= i < |m| && 0 <= j < |m| ==>
      (OnClampedEdge(b, |m|, i, j) ==> WithBoundaries(m, b)[i][j] == Hot) &&
      (!OnClampedEdge(b, |m|, i, j) ==> WithBoundaries(m, b)[i][j] == m[i][j])
  {
  }

  /** Clamping twice is clamping once. */
  lemma BoundariesIdempotent(m: Matrix, b: Borders)
    requires IsSquare(m, |m|)
    ensures WithBoundaries(WithBoundaries(m, b), b) == WithBoundaries(m, b)
  {
    var once := WithBoundaries(m, b);
    CellsEqual(WithBoundaries(once, b), once);
  }

  /** The grid after one time step of the sequential engine: the whole interior recomputed, then the edges clamped. */
  function NextGeneration(m: Matrix, b: Borders, coefX: real, coefY: real): (r: Matrix)
    requires IsSquare(m, |m|)
    ensures IsSquare(r, |m|)
  {
    WithBoundaries(FullInterior(m, m, coefX, coefY), b)
  }

  /** The grid after `k` time steps. */
  function Generations(m: Matrix, b: Borders, coefX: real, coefY: real, k: nat): (r: Matrix)
    requires IsSquare(m, |m|)
    ensures IsSquare(r, |m|)
  {
    if k == 0 then m else NextGeneration(Generations(m, b, coefX, coefY, k - 1), b, coefX, coefY)
  }
  /** The unfolding of `Generations` at `k + 1`: one more generation is one more step of the sequential engine. */
  lemma GenerationsUnfold(m: Matrix, b: Borders, coefX: real, coefY: real, k: nat)
    requires IsSquare(m, |m|)
    ensures Generations(m, b, coefX, coefY, k + 1) == NextGeneration(Generations(m, b, coefX, coefY, k), b, coefX, coefY)
  {
  }


  /**
   * A step sets every clamped edge cell to `Hot`, keeps every other border
   * cell, and gives every interior cell the stencil value.
   */
  lemma NextGenerationCells(m: Matrix, b: Borders, coefX: real, coefY: real, i: int, j: int)
    requires IsSquare(m, |m|)
    requires 0 <= i < |m| && 0 <= j < |m|
    ensures var r := NextGeneration(m, b, coefX, coefY);
      if OnClampedEdge(b, |m|, i, j) then r[i][j] == Hot
      else if OnBorder(|m|, i, j) then r[i][j] == m[i][j]
      else r[i][j] == StencilAt(m, i, j, coefX, coefY)
  {
    UpdateWritesOnlyBand(m, m, 1, |m| - 2, coefX, coefY);
  }

  /** Over any number of steps, a border cell that no enabled edge covers keeps its starting value. */
  lemma {:induction false} UnclampedBorderPersists(m: Matrix, b: Borders, coefX: real, coefY: real, k: nat, i: int, j: int)
    requires IsSquare(m, |m|)
    requires 0 <= i < |m| && 0 <= j < |m|
    requires OnBorder(|m|, i, j) && !OnClampedEdge(b, |m|, i, j)
    ensures Generations(m, b, coefX, coefY, k)[i][j] == m[i][j]
  {
    if k > 0 {
      UnclampedBorderPersists(m, b, coefX, coefY, k - 1, i, j);
      NextGenerationCells(Generations(m, b, coefX, coefY, k - 1), b, coefX, coefY, i, j);
    }
  }

  /** After at least one step every cell of an enabled edge is `Hot`. */
  lemma {:induction false} ClampedEdgeIsHot(m: Matrix, b: Borders, coefX: real, coefY: real, k: nat, i: int, j: int)
    requires IsSquare(m, |m|) && k >= 1
    requires 0 <= i < |m| && 0 <= j < |m|
    requires OnClampedEdge(b, |m|, i, j)
    ensures Generations(m, b, coefX, coefY, k)[i][j] == Hot
  {
    NextGenerationCells(Generations(m, b, coefX, coefY, k - 1), b, coefX, coefY, i, j);
  }

  /** `src` copied into `dst` row by row (the source's per-row `System.arraycopy` loop). */
  method CopyAll(src: array2<real>, dst: array2<real>)
    requires src != dst
    requires src.Length0 == dst.Length0 && src.Length1 == dst.Length1
    modifies dst
    ensures Rows(dst) == Rows(src)
  {
    var i := 0;
    while i < src.Length0
      invariant 0 <= i <= src.Length0
      invariant forall r, c :: 0 <= r < dst.Length0 && 0 <= c < dst.Length1 ==>
        dst[r, c] == if r < i then src[r, c] else old(dst[r, c])
    {
      CopyRow(src, dst, i);
      i := i + 1;
    }
    RowsAre(dst, Rows(src));
  }

  /** Row `i` of `src` copied into row `i` of `dst`. */
  method CopyRow(src: array2<real>, dst: array2<real>, i: int)
    requires src != dst
    requires src.Length0 == dst.Length0 && src.Length1 == dst.Length1
    requires 0 <= i < src.Length0
    modifies dst
    ensures forall r, c :: 0 <= r < dst.Length0 && 0 <= c < dst.Length1 ==>
      dst[r, c] == if r == i then src[r, c] else old(dst[r, c])
  {
    var j := 0;
    while j < src.Length1
      invariant 0 <= j <= src.Length1
      invariant forall r, c :: 0 <= r < dst.Length0 && 0 <= c < dst.Length1 ==>
        dst[r, c] == if r == i && c < j then src[r, c] else old(dst[r, c])
    {
      dst[i, j] := src[i, j];
      j := j + 1;
    }
  }

  /** Every cell of row `r` set to `v`. */
  method FillRow(mat: array2<real>, r: int, v: real)
    requires 0 <= r < mat.Length0
    modifies mat
    ensures forall i, j :: 0 <= i < mat.Length0 && 0 <= j < mat.Length1 ==>
      mat[i, j] == if i == r then v else old(mat[i, j])
  {
    var j := 0;
    while j < mat.Length1
      invariant 0 <= j <= mat.Length1
      invariant forall i, c :: 0 <= i < mat.Length0 && 0 <= c < mat.Length1 ==>
        mat[i, c] == if i == r && c < j then v else old(mat[i, c])
    {
      mat[r, j] := v;
      j := j + 1;
    }
  }

  /** Every cell of column `c` set to `v`. */
  method FillColumn(mat: array2<real>, c: int, v: real)
    requires 0 <= c < mat.Length1
    modifies mat
    ensures forall i, j :: 0 <= i < mat.Length0 && 0 <= j < mat.Length1 ==>
      mat[i, j] == if j == c then v else old(mat[i, j])
  {
    var i := 0;
    while i < mat.Length0
      invariant 0 <= i <= mat.Length0
      invariant forall r, j :: 0 <= r < mat.Length0 && 0 <= j < mat.Length1 ==>
        mat[r, j] == if j == c && r < i then v else old(mat[r, j])
    {
      mat[i, c] := v;
      i := i + 1;
    }
  }

  /** Constructing a grid with `n <= 0` throws `IllegalArgumentException`. */
  datatype ConstructionError = IllegalArgument

  /** The buffers, physical constants and edge flags of one simulation. */
  class HeatGrid {
    const n: int
    const alpha: real
    const dx: real
    const dy: real
    const dt: real
    const T: array2<real>
    const newT: array2<real>
    const initialT: array2<real>
    var top: bool
    var bottom: bool
    var left: bool
    var right: bool

    /** Three distinct `n`-by-`n` buffers and non-zero spatial steps. */
    ghost predicate Valid()
    {
      && n > 0 && dx != 0.0 && dy != 0.0
      && T.Length0 == n && T.Length1 == n
      && newT.Length0 == n && newT.Length1 == n
      && initialT.Length0 == n && initialT.Length1 == n
      && T != newT && T != initialT && newT != initialT
    }

    /** The four edge flags. */
    function Flags(): Borders
      reads this
    {
      Borders(top, bottom, left, right)
    }

    /** alpha·dt/dx². */
    function CoefX(): real
      requires dx != 0.0
    {
      Coefficient(alpha, dt, dx)
    }

    /** alpha·dt/dy². */
    function CoefY(): real
      requires dy != 0.0
    {
      Coefficient(alpha, dt, dy)
    }

    /** A grid at the ambient temperature everywhere, with no edge clamped and `initialT` equal to `T`. */
    constructor(n: int, alpha: real, dx: real, dy: real, dt: real)
      requires n > 0 && dx != 0.0 && dy != 0.0
      ensures Valid() && fresh(T) && fresh(newT) && fresh(initialT)
      ensures this.n == n && this.alpha == alpha && this.dx == dx && this.dy == dy && this.dt == dt
      ensures Flags() == Borders(false, false, false, false)
      ensures Rows(T) == Constant(n, n, Ambient)
      ensures Rows(newT) == Rows(T) && Rows(initialT) == Rows(T)
    {
      this.n := n;
      this.alpha := alpha;
      this.dx := dx;
      this.dy := dy;
      this.dt := dt;
      T := new real[n, n];
      newT := new real[n, n];
      initialT := new real[n, n];
      top, bottom, left, right := false, false, false, false;
      new;
      InitDefault();
      CopyToInitial();
    }

    /**
     * The five-argument constructor including its argument check: `n <= 0`
     * fails with `IllegalArgument`, any other `n` yields a fresh grid.
     */
    static method Create(n: int, alpha: real, dx: real, dy: real, dt: real) returns (r: Result<HeatGrid, ConstructionError>)
      requires dx != 0.0 && dy != 0.0
      ensures r.Failure? <==> n <= 0
      ensures r.Success? ==> fresh(r.value) && fresh(r.value.T) && fresh(r.value.newT) && fresh(r.value.initialT)
      ensures r.Success? ==> r.value.Valid() && r.value.n == n && r.value.Flags() == Borders(false, false, false, false)
      ensures r.Success? ==> r.value.alpha == alpha && r.value.dx == dx && r.value.dy == dy && r.value.dt == dt
      ensures r.Success? ==> Rows(r.value.T) == Constant(n, n, Ambient) && Rows(r.value.initialT) == Rows(r.value.T)
      ensures r.Success? ==> Rows(r.value.newT) == Rows(r.value.T)
    {
      if n <= 0 {
        return Failure(IllegalArgument);
      }
      var g := new HeatGrid(n, alpha, dx, dy, dt);
      return Success(g);
    }

    /** The two-argument constructor: unit spatial steps and a time step of 0.1. */
    static method CreateWithDefaults(n: int, alpha: real) returns (r: Result<HeatGrid, ConstructionError>)
      ensures r.Failure? <==> n <= 0
      ensures r.Success? ==> fresh(r.value) && fresh(r.value.T) && fresh(r.value.newT) && fresh(r.value.initialT)
      ensures r.Success? ==> r.value.Valid() && r.value.n == n && r.value.Flags() == Borders(false, false, false, false)
      ensures r.Success? ==> r.value.dx == 1.0 && r.value.dy == 1.0 && r.value.dt == 0.1 && r.value.alpha == alpha
      ensures r.Success? ==> Rows(r.value.T) == Constant(n, n, Ambient) && Rows(r.value.initialT) == Rows(r.value.T)
      ensures r.Success? ==> Rows(r.value.newT) == Rows(r.value.T)
    {
      r := Create(n, alpha, 1.0, 1.0, 0.1);
    }

    /** Every cell of all three buffers set to the ambient temperature. */
    method InitDefault()
      requires T.Length0 == n && T.Length1 == n && newT.Length0 == n && newT.Length1 == n
      requires initialT.Length0 == n && initialT.Length1 == n
      requires T != newT && T != initialT && newT != initialT
      modifies T, newT, initialT
      ensures Rows(T) == Constant(n, n, Ambient) && Rows(newT) == Rows(T) && Rows(initialT) == Rows(T)
    {
      var i := 0;
      while i < n
        invariant 0 <= i <= n
        invariant forall r, c :: 0 <= r < i && 0 <= c < n ==>
          T[r, c] == Ambient && newT[r, c] == Ambient && initialT[r, c] == Ambient
      {
        var j := 0;
        while j < n
          invariant 0 <= j <= n
          invariant forall r, c :: 0 <= c < n && (0 <= r < i || (r == i && c < j)) ==>
            T[r, c] == Ambient && newT[r, c] == Ambient && initialT[r, c] == Ambient
        {
          T[i, j] := Ambient;
          newT[i, j] := Ambient;
          initialT[i, j] := Ambient;
          j := j + 1;
        }
        i := i + 1;
      }
      RowsAre(T, Constant(n, n, Ambient));
      RowsAre(newT, Constant(n, n, Ambient));
      RowsAre(initialT, Constant(n, n, Ambient));
    }

    /** The snapshot `initialT` made equal to `T`. */
    method CopyToInitial()
      requires T.Length0 == initialT.Length0 && T.Length1 == initialT.Length1 && T != initialT
      modifies initialT
      ensures Rows(initialT) == Rows(T)
    {
      CopyAll(T, initialT);
    }

    /** Stores the four flags, clamps `T`, then refreshes the snapshot from the clamped `T`. */
    method SetBoundaryFlags(top: bool, bottom: bool, left: bool, right: bool)
      requires Valid()
      modifies this, T, initialT
      ensures Flags() == Borders(top, bottom, left, right)
      ensures Rows(T) == WithBoundaries(old(Rows(T)), Flags())
      ensures Rows(initialT) == Rows(T)
      ensures Rows(newT) == old(Rows(newT))
    {
      this.top, this.bottom, this.left, this.right := top, bottom, left, right;
      ApplyBoundaries(T);
      CopyToInitial();
    }

    /** Every enabled edge of `mat` set to `Hot`; nothing else changes. */
    method ApplyBoundaries(mat: array2<real>)
      requires Valid() && mat.Length0 == n && mat.Length1 == n
      modifies mat
      ensures Rows(mat) == WithBoundaries(old(Rows(mat)), Flags())
    {
      ghost var m := Rows(mat);
      ghost var b := Flags();
      if top {
        FillRow(mat, 0, Hot);
      }
      assert forall i, j :: 0 <= i < n && 0 <= j < n ==>
        mat[i, j] == if b.top && i == 0 then Hot else m[i][j];
      if bottom {
        FillRow(mat, n - 1, Hot);
      }
      assert forall i, j :: 0 <= i < n && 0 <= j < n ==>
        mat[i, j] == if (b.top && i == 0) || (b.bottom && i == n - 1) then Hot else m[i][j];
      if left {
        FillColumn(mat, 0, Hot);
      }
      assert forall i, j :: 0 <= i < n && 0 <= j < n ==>
        mat[i, j] == if (b.top && i == 0) || (b.bottom && i == n - 1) || (b.left && j == 0) then Hot else m[i][j];
      if right {
        FillColumn(mat, n - 1, Hot);
      }
      RowsAre(mat, WithBoundaries(m, b));
    }

    /** The first stage of a step: `newT` made equal to `T`. */
    method CopyTToNewT()
      requires Valid()
      modifies newT
      ensures Rows(newT) == Rows(T)
    {
      CopyAll(T, newT);
    }

    /** The last two stages of a step: clamp the enabled edges of `newT`, then publish `newT` into `T`. */
    method FinishStep()
      requires Valid()
      modifies T, newT
      ensures Rows(newT) == WithBoundaries(old(Rows(newT)), Flags())
      ensures Rows(T) == Rows(newT)
    {
      ApplyBoundaries(newT);
      CopyAll(newT, T);
    }

    /** A fresh `n`-by-`n` copy of `T`; nothing changes. */
    method GetTemperatureCopy() returns (copy: array2<real>)
      requires Valid()
      ensures fresh(copy) && copy.Length0 == n && copy.Length1 == n
      ensures Rows(copy) == Rows(T)
    {
      copy := new real[n, n];
      CopyAll(T, copy);
    }

    /** Two copies taken one after the other hold the same matrix, and it is `T`'s. */
    method CopiesAgree() returns (first: array2<real>, second: array2<real>)
      requires Valid()
      ensures Rows(first) == Rows(second) == Rows(T)
    {
      first := GetTemperatureCopy();
      second := GetTemperatureCopy();
    }

    /** `T` restored from the snapshot; the snapshot itself is kept. */
    method ResetToInitialState()
      requires Valid()
      modifies T
      ensures Rows(T) == Rows(initialT)
    {
      CopyAll(initialT, T);
    }
  }
}
