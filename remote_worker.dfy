/**
 * The remote worker service: a cache of the full grid (set by
 * `InitializeMatrix`, replaced by `UpdateMatrix`, patched by
 * `UpdateBoundaryRows`) and two block kernels that work only on the block
 * they receive.  Arrays that cross the network are values here (`Matrix`,
 * `seq<real>`), with `None` for a null reference.
 */
module RemoteWorker {
  import opened Wrappers
  import opened Matrices
  import opened Stencil

  /** The call is rejected up front and answered with an empty array. */
  predicate Rejected(block: Option<Matrix>, startRow: int, endRow: int)
  {
    startRow > endRow || block.None? || |block.value| == 0
  }

  /**
   * What a caller must supply for an accepted block call: an initialised
   * worker (`n >= 1`), the `endRow-startRow+1` rows to compute plus one
   * neighbour row on each side, each at least `n` entries long.
   */
  predicate BlockFits(block: Option<Matrix>, startRow: int, endRow: int, n: int)
  {
    Rejected(block, startRow, endRow) ||
    (n >= 1 && |block.value| >= endRow - startRow + 3 &&
     forall i :: 0 <= i < endRow - startRow + 3 ==> |block.value[i]| >= n)
  }

  /**
   * The answer of `computeBlock`: empty for a rejected call; otherwise row
   * `ii` is block row `ii+1` after one stencil pass, its interior columns
   * from block rows `ii`, `ii+1`, `ii+2` and columns `0` and `n-1` copied.
   */
  function ComputeBlockResult(block: Option<Matrix>, startRow: int, endRow: int, n: int, coefX: real, coefY: real): (r: Matrix)
    requires BlockFits(block, startRow, endRow, n)
  {
    if Rejected(block, startRow, endRow) then []
    else
      var b := block.value;
      seq(endRow - startRow + 1, ii requires 0 <= ii < endRow - startRow + 1 =>
        PassedRow(b, ii + 1, n, coefX, coefY))
  }

  /** Row `i` of `m` after one pass, cut to `n` entries. */
  function PassedRow(m: Matrix, i: int, n: int, coefX: real, coefY: real): (r: seq<real>)
    requires 1 <= i < |m| - 1 && 0 <= n && |m[i - 1]| >= n && |m[i]| >= n && |m[i + 1]| >= n
    ensures |r| == n
  {
    seq(n, j requires 0 <= j < n => PassCell(m, i, j, n, coefX, coefY))
  }

  /** A pass reads only the first `n` entries of each row, so cutting the rows to `n` first changes nothing. */
  lemma PassedRowTruncate(m: Matrix, i: int, n: nat, coefX: real, coefY: real)
    requires AtLeastWide(m, n) && 1 <= i < |m| - 1
    ensures PassedRow(Truncate(m, n), i, n, coefX, coefY) == PassedRow(m, i, n, coefX, coefY)
  {
    var t := Truncate(m, n);
    forall j | 0 <= j < n
      ensures PassCell(t, i, j, n, coefX, coefY) == PassCell(m, i, j, n, coefX, coefY)
    {
      if 0 < j < n - 1 {
        assert StencilAt(t, i, j, coefX, coefY) == StencilAt(m, i, j, coefX, coefY);
      }
    }
  }

  /** Cell `(i, j)` of row `i` after one pass over `m`: the stencil in columns `1..n-2`, `m`'s own value in columns `0` and `n-1`. */
  function PassCell(m: Matrix, i: int, j: int, n: int, coefX: real, coefY: real): real
    requires 1 <= i < |m| - 1 && 0 <= j < n && |m[i - 1]| >= n && |m[i]| >= n && |m[i + 1]| >= n
  {
    if 0 < j < n - 1 then StencilAt(m, i, j, coefX, coefY) else m[i][j]
  }

  /** What a caller must supply for an accepted multi-step call: as for one step, and every block row at least `n` long. */
  predicate MultiStepFits(block: Option<Matrix>, startRow: int, endRow: int, n: int, numSteps: int)
  {
    Rejected(block, startRow, endRow) || numSteps <= 0 ||
    (n >= 1 && |block.value| >= endRow - startRow + 3 && AtLeastWide(block.value, n))
  }

  /**
   * One pass of the batch kernel: rows `1..|cur|-2` of the destination get
   * the stencil over `cur` in their interior columns and `cur`'s side
   * columns; the first and last rows of the destination are not written.
   */
  function Pass(cur: Matrix, nxt: Matrix, n: nat, coefX: real, coefY: real): (r: Matrix)
    requires |cur| == |nxt| && HasWidth(cur, n) && HasWidth(nxt, n)
    ensures |r| == |nxt| && HasWidth(r, n)
  {
    seq(|nxt|, ii requires 0 <= ii < |nxt| =>
      if 1 <= ii < |cur| - 1 then
        PassedRow(cur, ii, n, coefX, coefY)
      else nxt[ii])
  }

  /** The (current, next) buffers after `k` passes, each pass writing `next` and then swapping the two. */
  function Passes(cur: Matrix, nxt: Matrix, n: nat, coefX: real, coefY: real, k: nat): (r: (Matrix, Matrix))
    requires |cur| == |nxt| && HasWidth(cur, n) && HasWidth(nxt, n)
    ensures |r.0| == |r.1| == |cur| && HasWidth(r.0, n) && HasWidth(r.1, n)
  {
    if k == 0 then (cur, nxt)
    else
      var before := Passes(cur, nxt, n, coefX, coefY, k - 1);
      (Pass(before.0, before.1, n, coefX, coefY), before.0)
  }

  /**
   * The answer of `computeMultipleSteps`: empty for a rejected call or
   * `numSteps <= 0`; otherwise rows `1..rows` of the current buffer after
   * `numSteps` passes that start from the block and an all-zero buffer.
   */
  function MultiStepResult(block: Option<Matrix>, startRow: int, endRow: int, n: int, coefX: real, coefY: real, numSteps: int): (r: Matrix)
    requires MultiStepFits(block, startRow, endRow, n, numSteps)
  {
    if Rejected(block, startRow, endRow) || numSteps <= 0 then []
    else
      var b := Truncate(block.value, n);
      var final := Passes(b, Constant(|b|, n, 0.0), n, coefX, coefY, numSteps).0;
      final[1..endRow - startRow + 2]
  }

  /** An accepted call answers `endRow-startRow+1` rows of `n` entries; a rejected one answers nothing. */
  lemma ComputeBlockShape(block: Option<Matrix>, startRow: int, endRow: int, n: int, coefX: real, coefY: real)
    requires BlockFits(block, startRow, endRow, n)
    ensures var r := ComputeBlockResult(block, startRow, endRow, n, coefX, coefY);
      if Rejected(block, startRow, endRow) then r == []
      else |r| == endRow - startRow + 1 && HasWidth(r, n)
  {
  }

  /** An accepted batch call with at least one step answers `endRow-startRow+1` rows of `n` entries; otherwise nothing. */
  lemma MultiStepShape(block: Option<Matrix>, startRow: int, endRow: int, n: int, coefX: real, coefY: real, numSteps: int)
    requires MultiStepFits(block, startRow, endRow, n, numSteps)
    ensures var r := MultiStepResult(block, startRow, endRow, n, coefX, coefY, numSteps);
      if Rejected(block, startRow, endRow) || numSteps <= 0 then r == []
      else |r| == endRow - startRow + 1 && HasWidth(r, n)
  {
  }

  /** With one step the batch kernel answers exactly what `computeBlock` answers for the same block. */
  lemma OneStepIsComputeBlock(block: Option<Matrix>, startRow: int, endRow: int, n: int, coefX: real, coefY: real)
    requires MultiStepFits(block, startRow, endRow, n, 1)
    ensures BlockFits(block, startRow, endRow, n)
    ensures MultiStepResult(block, startRow, endRow, n, coefX, coefY, 1) == ComputeBlockResult(block, startRow, endRow, n, coefX, coefY)
  {
    if !Rejected(block, startRow, endRow) {
      var b := block.value;
      var t := Truncate(b, n);
      var multi := MultiStepResult(block, startRow, endRow, n, coefX, coefY, 1);
      var single := ComputeBlockResult(block, startRow, endRow, n, coefX, coefY);
      var pass := Pass(t, Constant(|t|, n, 0.0), n, coefX, coefY);
      assert Passes(t, Constant(|t|, n, 0.0), n, coefX, coefY, 1).0 == pass;
      assert multi == pass[1..endRow - startRow + 2];
      forall ii | 0 <= ii < endRow - startRow + 1
        ensures multi[ii] == single[ii]
      {
        assert multi[ii] == pass[ii + 1] == PassedRow(t, ii + 1, n, coefX, coefY);
        PassedRowTruncate(b, ii + 1, n, coefX, coefY);
      }
      assert |multi| == |single|;
    }
  }

  /**
   * The first and last rows are never written, so after `k` passes the
   * current buffer holds the starting block's halo rows when `k` is even
   * and the zero buffer's when `k` is odd: pass `p` (counting from 1) reads
   * the received neighbour rows when `p` is odd and rows of zeros when `p`
   * is even.
   */
  lemma {:induction false} HaloAlternates(cur: Matrix, nxt: Matrix, n: nat, coefX: real, coefY: real, k: nat)
    requires |cur| == |nxt| >= 1 && HasWidth(cur, n) && HasWidth(nxt, n)
    ensures var r := Passes(cur, nxt, n, coefX, coefY, k);
      var last := |cur| - 1;
      && r.0[0] == (if k % 2 == 0 then cur[0] else nxt[0])
      && r.0[last] == (if k % 2 == 0 then cur[last] else nxt[last])
      && r.1[0] == (if k % 2 == 0 then nxt[0] else cur[0])
      && r.1[last] == (if k % 2 == 0 then nxt[last] else cur[last])
  {
    if k > 0 {
      HaloAlternates(cur, nxt, n, coefX, coefY, k - 1);
      PassesHalo(cur, nxt, n, coefX, coefY, k);
      ParityFlips(k);
    }
  }

  /** Pass `k` swaps the buffers and keeps the halo rows of the one it writes. */
  lemma PassesHalo(cur: Matrix, nxt: Matrix, n: nat, coefX: real, coefY: real, k: nat)
    requires |cur| == |nxt| >= 1 && HasWidth(cur, n) && HasWidth(nxt, n) && k > 0
    ensures var r, p := Passes(cur, nxt, n, coefX, coefY, k), Passes(cur, nxt, n, coefX, coefY, k - 1);
      var last := |cur| - 1;
      r.1 == p.0 && r.0[0] == p.1[0] && r.0[last] == p.1[last]
  {
    var p := Passes(cur, nxt, n, coefX, coefY, k - 1);
    PassKeepsHalo(p.0, p.1, n, coefX, coefY);
  }

  /** `k` and `k - 1` have opposite parity. */
  lemma ParityFlips(k: nat)
    requires k > 0
    ensures (k - 1) % 2 == 0 <==> k % 2 != 0
  {
    var q := k / 2;
    if k % 2 == 0 {
      assert k - 1 == 2 * (q - 1) + 1;
    } else {
      assert k - 1 == 2 * q;
    }
  }

  /** A pass leaves the destination's first and last rows as they were. */
  lemma PassKeepsHalo(cur: Matrix, nxt: Matrix, n: nat, coefX: real, coefY: real)
    requires |cur| == |nxt| >= 1 && HasWidth(cur, n) && HasWidth(nxt, n)
    ensures var r := Pass(cur, nxt, n, coefX, coefY);
      r[0] == nxt[0] && r[|nxt| - 1] == nxt[|nxt| - 1]
  {
  }

  /** Every pass keeps the side columns of the rows it writes, so they stay those of the starting block. */
  lemma {:induction false} SideColumnsKept(cur: Matrix, nxt: Matrix, n: nat, coefX: real, coefY: real, k: nat, ii: int)
    requires |cur| == |nxt| && HasWidth(cur, n) && HasWidth(nxt, n) && n >= 1
    requires 1 <= ii < |cur| - 1
    ensures var r := Passes(cur, nxt, n, coefX, coefY, k).0;
      r[ii][0] == cur[ii][0] && r[ii][n - 1] == cur[ii][n - 1]
  {
    if k > 0 {
      SideColumnsKept(cur, nxt, n, coefX, coefY, k - 1, ii);
    }
  }

  /** Row `row`'s first `min(|src|, |m|)` entries replaced by those of `src`. */
  function PatchRow(m: Matrix, row: int, src: seq<real>): (r: Matrix)
    requires IsSquare(m, |m|) && 0 <= row < |m|
    ensures IsSquare(r, |m|)
  {
    var count := if |src| < |m| then |src| else |m|;
    m[row := src[..count] + m[row][count..]]
  }

  /** Patching changes only the first `min(|src|, |m|)` cells of row `row`, each to the entry of `src`. */
  lemma PatchRowCells(m: Matrix, row: int, src: seq<real>)
    requires IsSquare(m, |m|) && 0 <= row < |m|
    ensures forall i, j :: 0 <= i < |m| && 0 <= j < |m| ==>
      PatchRow(m, row, src)[i][j] == if i == row && j < |src| then src[j] else m[i][j]
  {
    var count := if |src| < |m| then |src| else |m|;
    var patched := src[..count] + m[row][count..];
    assert PatchRow(m, row, src) == m[row := patched];
    forall j | 0 <= j < |m|
      ensures patched[j] == if j < |src| then src[j] else m[row][j]
    {
      if j < count {
        assert patched[j] == src[..count][j];
      } else {
        assert patched[j] == m[row][count..][j - count];
      }
    }
  }

  /** The cache after `updateBoundaryRows`: the row above the range, then the row below it, patched when given and inside the grid. */
  function BoundaryRowsPatched(m: Matrix, startRow: int, endRow: int, before: Option<seq<real>>, after: Option<seq<real>>): (r: Matrix)
    requires IsSquare(m, |m|)
    requires before.Some? && startRow > 0 ==> startRow - 1 < |m|
    requires after.Some? && endRow < |m| - 1 ==> endRow + 1 >= 0
    ensures IsSquare(r, |m|)
  {
    var first := if before.Some? && startRow > 0 then PatchRow(m, startRow - 1, before.value) else m;
    if after.Some? && endRow < |m| - 1 then PatchRow(first, endRow + 1, after.value) else first
  }

  /**
   * Only the first `min(len, n)` cells of row `startRow-1` (when that row is
   * given and `startRow > 0`) and of row `endRow+1` (when given and
   * `endRow < n-1`) change, each to the given value; the lower row wins
   * where the two are the same row.
   */
  lemma BoundaryRowsCells(m: Matrix, startRow: int, endRow: int, before: Option<seq<real>>, after: Option<seq<real>>)
    requires IsSquare(m, |m|)
    requires before.Some? && startRow > 0 ==> startRow - 1 < |m|
    requires after.Some? && endRow < |m| - 1 ==> endRow + 1 >= 0
    ensures var r := BoundaryRowsPatched(m, startRow, endRow, before, after);
      forall i, j :: 0 <= i < |m| && 0 <= j < |m| ==>
        r[i][j] == if after.Some? && endRow < |m| - 1 && i == endRow + 1 && j < |after.value| then after.value[j]
                   else if before.Some? && startRow > 0 && i == startRow - 1 && j < |before.value| then before.value[j]
                   else m[i][j]
  {
  }

  /** The worker object and its cached grid. */
  class WorkerImpl {
    /** The cached grid. */
    var T: array2<real>
    /** The grid side, zero until `InitializeMatrix`. */
    var n: int

    ghost predicate Valid()
      reads this
    {
      n >= 0 && T.Length0 == n && T.Length1 == n
    }

    /** An uninitialised worker: no grid cached. */
    constructor()
      ensures Valid() && n == 0
    {
      n := 0;
      T := new real[0, 0];
    }

    /** `n := dimension` and the cache a fresh `n`-by-`n` copy of `matrix`. */
    method InitializeMatrix(matrix: Matrix, dimension: int)
      requires dimension >= 0 && |matrix| >= dimension
      requires forall i :: 0 <= i < dimension ==> |matrix[i]| >= dimension
      modifies this
      ensures Valid() && n == dimension && fresh(T)
      ensures Rows(T) == Truncate(matrix[..dimension], dimension)
    {
      n := dimension;
      T := new real[n, n];
      var i := 0;
      while i < n
        invariant 0 <= i <= n && n == dimension && fresh(T) && T.Length0 == n && T.Length1 == n
        invariant forall r, c :: 0 <= r < i && 0 <= c < n ==> T[r, c] == matrix[r][c]
      {
        CopyIntoRow(T, i, matrix[i], n);
        i := i + 1;
      }
      RowsAre(T, Truncate(matrix[..dimension], dimension));
    }

    /** The block kernel: one stencil pass over the received block; the cache is neither read nor written. */
    method ComputeBlock(block: Option<Matrix>, startRow: int, endRow: int, alpha: real, dx: real, dy: real, dt: real)
      returns (result: array2<real>)
      requires Valid() && dx != 0.0 && dy != 0.0 && BlockFits(block, startRow, endRow, n)
      ensures fresh(result)
      ensures Rows(result) == ComputeBlockResult(block, startRow, endRow, n, Coefficient(alpha, dt, dx), Coefficient(alpha, dt, dy))
    {
      if startRow > endRow || block.None? || |block.value| == 0 {
        result := new real[0, 0];
        return;
      }
      var b := block.value;
      var rows := endRow - startRow + 1;
      result := new real[rows, n];
      var coefX := Coefficient(alpha, dt, dx);
      var coefY := Coefficient(alpha, dt, dy);
      ghost var target := ComputeBlockResult(block, startRow, endRow, n, coefX, coefY);
      var ii := 0;
      while ii < rows
        invariant 0 <= ii <= rows
        invariant forall r, c :: 0 <= r < ii && 0 <= c < n ==> result[r, c] == target[r][c]
      {
        BlockRow(b, result, ii, coefX, coefY);
        ii := ii + 1;
      }
      RowsAre(result, target);
    }

    /**
     * The batch kernel: `numSteps` passes over a private copy of the block,
     * alternating two buffers by swapping references; answers the final
     * interior rows.  The cache is neither read nor written.
     */
    method ComputeMultipleSteps(initialBlock: Option<Matrix>, startRow: int, endRow: int,
                                alpha: real, dx: real, dy: real, dt: real, numSteps: int)
      returns (result: array2<real>)
      requires Valid() && dx != 0.0 && dy != 0.0 && MultiStepFits(initialBlock, startRow, endRow, n, numSteps)
      ensures fresh(result)
      ensures Rows(result) == MultiStepResult(initialBlock, startRow, endRow, n, Coefficient(alpha, dt, dx), Coefficient(alpha, dt, dy), numSteps)
    {
      if startRow > endRow || initialBlock.None? || |initialBlock.value| == 0 || numSteps <= 0 {
        result := new real[0, 0];
        return;
      }
      var b := initialBlock.value;
      var rows := endRow - startRow + 1;
      var coefX := Coefficient(alpha, dt, dx);
      var coefY := Coefficient(alpha, dt, dy);
      var current := LoadBlock(b, n);
      var next := new real[|b|, n]((i, j) => 0.0);
      ghost var zeros := Constant(|b|, n, 0.0);
      assert forall r, c :: 0 <= r < |b| && 0 <= c < n ==> next[r, c] == zeros[r][c];
      RowsAre(next, zeros);
      current := RunPasses(current, next, coefX, coefY, numSteps);
      result := InteriorRows(current, rows);
    }

    /** The cache replaced row by row when `newT` is given with exactly `n` rows; otherwise nothing happens. */
    method UpdateMatrix(newT: Option<Matrix>)
      requires Valid()
      requires newT.Some? && |newT.value| == n ==> AtLeastWide(newT.value, n)
      modifies T
      ensures newT.Some? && |newT.value| == n ==> Rows(T) == Truncate(newT.value, n)
      ensures !(newT.Some? && |newT.value| == n) ==> Rows(T) == old(Rows(T))
    {
      if newT.None? || |newT.value| != n {
        return;
      }
      var m := newT.value;
      var i := 0;
      while i < n
        invariant 0 <= i <= n
        invariant forall r, c :: 0 <= r < i && 0 <= c < n ==> T[r, c] == m[r][c]
      {
        CopyIntoRow(T, i, m[i], n);
        i := i + 1;
      }
      RowsAre(T, Truncate(m, n));
    }

    /** The cached rows next to the range `startRow..endRow` patched from the given rows. */
    method UpdateBoundaryRows(startRow: int, endRow: int, rowBeforeStart: Option<seq<real>>, rowAfterEnd: Option<seq<real>>)
      requires Valid()
      requires rowBeforeStart.Some? && startRow > 0 ==> startRow - 1 < n
      requires rowAfterEnd.Some? && endRow < n - 1 ==> endRow + 1 >= 0
      modifies T
      ensures Rows(T) == BoundaryRowsPatched(old(Rows(T)), startRow, endRow, rowBeforeStart, rowAfterEnd)
    {
      if rowBeforeStart.Some? && startRow > 0 {
        PatchCachedRow(startRow - 1, rowBeforeStart.value);
      }
      if rowAfterEnd.Some? && endRow < n - 1 {
        PatchCachedRow(endRow + 1, rowAfterEnd.value);
      }
    }

    /** Row `row` of the cache overwritten by the first `min(|src|, n)` entries of `src`. */
    method PatchCachedRow(row: int, src: seq<real>)
      requires Valid() && 0 <= row < n
      modifies T
      ensures Rows(T) == PatchRow(old(Rows(T)), row, src)
    {
      ghost var m := Rows(T);
      var count := if |src| < n then |src| else n;
      CopyIntoRow(T, row, src, count);
      PatchRowCells(m, row, src);
      RowsAre(T, PatchRow(m, row, src));
    }
  }

  /** A fresh `|b|`-by-`n` copy of the first `n` entries of every row of `b`. */
  method LoadBlock(b: Matrix, n: nat) returns (current: array2<real>)
    requires AtLeastWide(b, n)
    ensures fresh(current) && current.Length0 == |b| && current.Length1 == n
    ensures Rows(current) == Truncate(b, n)
  {
    current := new real[|b|, n];
    var i := 0;
    while i < |b|
      invariant 0 <= i <= |b|
      invariant forall r, c :: 0 <= r < i && 0 <= c < n ==> current[r, c] == b[r][c]
    {
      CopyIntoRow(current, i, b[i], n);
      i := i + 1;
    }
    RowsAre(current, Truncate(b, n));
  }

  /** `numSteps` passes, each writing `next` from `current` and then swapping the two references; answers the final current buffer. */
  method RunPasses(current: array2<real>, next: array2<real>, coefX: real, coefY: real, numSteps: nat)
    returns (final: array2<real>)
    requires current != next && current.Length0 == next.Length0 && current.Length1 == next.Length1
    modifies current, next
    ensures final == current || final == next
    ensures Rows(final) == Passes(old(Rows(current)), old(Rows(next)), current.Length1, coefX, coefY, numSteps).0
  {
    ghost var start, zeros := Rows(current), Rows(next);
    var cur, nxt := current, next;
    var step := 0;
    while step < numSteps
      invariant 0 <= step <= numSteps
      invariant (cur == current && nxt == next) || (cur == next && nxt == current)
      invariant (Rows(cur), Rows(nxt)) == Passes(start, zeros, current.Length1, coefX, coefY, step)
    {
      PassInto(cur, nxt, coefX, coefY);
      cur, nxt := nxt, cur;
      step := step + 1;
    }
    final := cur;
  }

  /** A fresh array holding rows `1..rows` of `current`. */
  method InteriorRows(current: array2<real>, rows: int) returns (result: array2<real>)
    requires 0 <= rows < current.Length0
    ensures fresh(result) && Rows(result) == Rows(current)[1..rows + 1]
  {
    result := new real[rows, current.Length1];
    var ii := 0;
    while ii < rows
      invariant 0 <= ii <= rows
      invariant forall r, c :: 0 <= r < ii && 0 <= c < current.Length1 ==> result[r, c] == current[r + 1, c]
    {
      CopyRowFrom(current, ii + 1, result, ii);
      ii := ii + 1;
    }
    RowsAre(result, Rows(current)[1..rows + 1]);
  }

  /** The first `count` entries of `src` copied into row `row` of `dst`. */
  method CopyIntoRow(dst: array2<real>, row: int, src: seq<real>, count: int)
    requires 0 <= row < dst.Length0 && 0 <= count <= dst.Length1 && count <= |src|
    modifies dst
    ensures forall r, c :: 0 <= r < dst.Length0 && 0 <= c < dst.Length1 ==>
      dst[r, c] == if r == row && c < count then src[c] else old(dst[r, c])
  {
    var j := 0;
    while j < count
      invariant 0 <= j <= count
      invariant forall r, c :: 0 <= r < dst.Length0 && 0 <= c < dst.Length1 ==>
        dst[r, c] == if r == row && c < j then src[c] else old(dst[r, c])
    {
      dst[row, j] := src[j];
      j := j + 1;
    }
  }

  /** Row `from` of `src` copied into row `to` of `dst`. */
  method CopyRowFrom(src: array2<real>, from: int, dst: array2<real>, to: int)
    requires src != dst && src.Length1 == dst.Length1
    requires 0 <= from < src.Length0 && 0 <= to < dst.Length0
    modifies dst
    ensures forall r, c :: 0 <= r < dst.Length0 && 0 <= c < dst.Length1 ==>
      dst[r, c] == if r == to then src[from, c] else old(dst[r, c])
  {
    var j := 0;
    while j < dst.Length1
      invariant 0 <= j <= dst.Length1
      invariant forall r, c :: 0 <= r < dst.Length0 && 0 <= c < dst.Length1 ==>
        dst[r, c] == if r == to && c < j then src[from, c] else old(dst[r, c])
    {
      dst[to, j] := src[from, j];
      j := j + 1;
    }
  }

  /** Row `ii` of a `computeBlock` answer: the interior columns, then the two side columns. */
  method BlockRow(b: Matrix, result: array2<real>, ii: int, coefX: real, coefY: real)
    requires result.Length1 >= 1 && 0 <= ii < result.Length0
    requires |b| >= ii + 3 && |b[ii]| >= result.Length1 && |b[ii + 1]| >= result.Length1 && |b[ii + 2]| >= result.Length1
    modifies result
    ensures forall r, c :: 0 <= r < result.Length0 && 0 <= c < result.Length1 ==>
      result[r, c] == if r == ii then (if 0 < c < result.Length1 - 1 then StencilAt(b, ii + 1, c, coefX, coefY) else b[ii + 1][c])
                      else old(result[r, c])
  {
    var n := result.Length1;
    var blockRowIdx := ii + 1;
    var j := 1;
    while j < n - 1
      invariant 1 <= j <= if n >= 2 then n - 1 else 1
      invariant forall r, c :: 0 <= r < result.Length0 && 0 <= c < n ==>
        result[r, c] == if r == ii && 1 <= c < j then StencilAt(b, ii + 1, c, coefX, coefY) else old(result[r, c])
    {
      var t := b[blockRowIdx][j];
      var tx := b[blockRowIdx + 1][j] - 2.0 * t + b[blockRowIdx - 1][j];
      var ty := b[blockRowIdx][j + 1] - 2.0 * t + b[blockRowIdx][j - 1];
      result[ii, j] := t + coefX * tx + coefY * ty;
      j := j + 1;
    }
    result[ii, 0] := b[blockRowIdx][0];
    result[ii, n - 1] := b[blockRowIdx][n - 1];
  }

  /** One pass of the batch kernel from `cur` into `nxt`. */
  method PassInto(cur: array2<real>, nxt: array2<real>, coefX: real, coefY: real)
    requires cur != nxt && cur.Length0 == nxt.Length0 && cur.Length1 == nxt.Length1
    modifies nxt
    ensures Rows(nxt) == Pass(Rows(cur), old(Rows(nxt)), cur.Length1, coefX, coefY)
  {
    var blockRows := cur.Length0;
    var n := cur.Length1;
    ghost var c0 := Rows(cur);
    ghost var n0 := Rows(nxt);
    ghost var target := Pass(c0, n0, n, coefX, coefY);
    var ii := 1;
    while ii < blockRows - 1
      invariant 1 <= ii && (ii <= blockRows - 1 || ii == 1)
      invariant Rows(cur) == c0
      invariant forall r, c :: 0 <= r < blockRows && 0 <= c < n ==>
        nxt[r, c] == if 1 <= r < ii then target[r][c] else n0[r][c]
    {
      PassRow(cur, nxt, ii, coefX, coefY);
      ii := ii + 1;
    }
    RowsAre(nxt, target);
  }

  /** Row `ii` of one pass: interior columns from the stencil over `cur`, side columns copied from `cur`. */
  method PassRow(cur: array2<real>, nxt: array2<real>, ii: int, coefX: real, coefY: real)
    requires cur != nxt && cur.Length0 == nxt.Length0 && cur.Length1 == nxt.Length1
    requires 1 <= ii < cur.Length0 - 1
    modifies nxt
    ensures forall r, c :: 0 <= r < nxt.Length0 && 0 <= c < nxt.Length1 ==>
      nxt[r, c] == if r == ii then (if 0 < c < nxt.Length1 - 1 then StencilAt(Rows(cur), ii, c, coefX, coefY) else cur[ii, c])
                   else old(nxt[r, c])
  {
    var n := cur.Length1;
    ghost var c0 := Rows(cur);
    var j := 1;
    while j < n - 1
      invariant 1 <= j <= if n >= 2 then n - 1 else 1
      invariant Rows(cur) == c0
      invariant forall r, c :: 0 <= r < nxt.Length0 && 0 <= c < n ==>
        nxt[r, c] == if r == ii && 1 <= c < j then StencilAt(c0, ii, c, coefX, coefY) else old(nxt[r, c])
    {
      var t := cur[ii, j];
      var tx := cur[ii + 1, j] - 2.0 * t + cur[ii - 1, j];
      var ty := cur[ii, j + 1] - 2.0 * t + cur[ii, j - 1];
      nxt[ii, j] := t + coefX * tx + coefY * ty;
      j := j + 1;
    }
    if n >= 1 {
      nxt[ii, 0] := cur[ii, 0];
      nxt[ii, n - 1] := cur[ii, n - 1];
    }
  }
}
