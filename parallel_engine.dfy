/**
 * The thread-parallel engine: the interior split by the row partitioner, one
 * task per range.  The fan-out is modelled as a sequential loop over the
 * ranges; each task reads `T` only and writes its own rows of `newT` only.
 */
module ParallelEngine {
  import opened Matrices
  import opened Stencil
  import opened GridState
  import opened RowPartition

  /** The number of worker threads used for a requested `threadCount`: at least one. */
  function WorkerCount(threadCount: int): (w: int)
    ensures w >= 1
    ensures threadCount >= 1 ==> w == threadCount
    ensures threadCount < 1 ==> w == 1
  {
    Max(1, threadCount)
  }

  /** Every range of `rs` is a band of interior rows of an `n`-row grid. */
  predicate AllInInterior(n: int, rs: seq<LineRange>)
  {
    forall k :: 0 <= k < |rs| ==> InInterior(n, rs[k])
  }

  /** `dst` after the stencil has been applied over the ranges of `rs`, one after the other. */
  function ApplyRanges(src: Matrix, dst: Matrix, rs: seq<LineRange>, coefX: real, coefY: real): (r: Matrix)
    requires SameGrid(src, dst) && AllInInterior(|dst|, rs)
    ensures IsSquare(r, |dst|)
    decreases |rs|
  {
    if rs == [] then dst
    else
      var last := rs[|rs| - 1];
      InteriorUpdate(src, ApplyRanges(src, dst, rs[..|rs| - 1], coefX, coefY), last.start, last.end, coefX, coefY)
  }

  /**
   * Applying the ranges gives, in every row some range covers, the row the
   * whole-interior update gives; every other row keeps `dst`.
   */
  lemma {:induction false} ApplyRangesRows(src: Matrix, dst: Matrix, rs: seq<LineRange>, coefX: real, coefY: real, i: int)
    requires SameGrid(src, dst) && AllInInterior(|dst|, rs)
    requires 0 <= i < |dst|
    ensures ApplyRanges(src, dst, rs, coefX, coefY)[i]
         == if Covered(rs, i) then FullInterior(src, dst, coefX, coefY)[i] else dst[i]
    decreases |rs|
  {
    var full := FullInterior(src, dst, coefX, coefY);
    UpdateWritesOnlyBand(src, dst, 1, |dst| - 2, coefX, coefY);
    if rs != [] {
      var init := rs[..|rs| - 1];
      var last := rs[|rs| - 1];
      var before := ApplyRanges(src, dst, init, coefX, coefY);
      ApplyRangesRows(src, dst, init, coefX, coefY, i);
      UpdateWritesOnlyBand(src, before, last.start, last.end, coefX, coefY);
      var after := ApplyRanges(src, dst, rs, coefX, coefY);
      CoveredLast(rs, i);
      if Contains(last, i) {
        assert before[i] == full[i] || before[i] == dst[i];
        CellsEqual([after[i]], [full[i]]);
      }
    }
  }

  /** A row is covered by a non-empty list when the prefix or the last range covers it. */
  lemma CoveredLast(rs: seq<LineRange>, i: int)
    requires rs != []
    ensures Covered(rs, i) <==> Covered(rs[..|rs| - 1], i) || Contains(rs[|rs| - 1], i)
  {
    var init := rs[..|rs| - 1];
    if Covered(rs, i) {
      var k :| 0 <= k < |rs| && Contains(rs[k], i);
      if k < |rs| - 1 {
        assert Contains(init[k], i);
      }
    }
    if Covered(init, i) {
      var k :| 0 <= k < |init| && Contains(init[k], i);
      assert Contains(rs[k], i);
    }
  }

  /** Extending the applied prefix by one range applies that range to the previous result. */
  lemma ApplyNextRange(src: Matrix, dst: Matrix, rs: seq<LineRange>, k: int, coefX: real, coefY: real)
    requires SameGrid(src, dst) && AllInInterior(|dst|, rs) && 0 <= k < |rs|
    ensures AllInInterior(|dst|, rs[..k]) && AllInInterior(|dst|, rs[..k + 1])
    ensures ApplyRanges(src, dst, rs[..k + 1], coefX, coefY)
         == InteriorUpdate(src, ApplyRanges(src, dst, rs[..k], coefX, coefY), rs[k].start, rs[k].end, coefX, coefY)
  {
    assert rs[..k + 1][..k] == rs[..k];
  }

  /**
   * The result depends only on which rows are covered, not on the order or
   * grouping of the ranges: two lists covering the same rows agree.
   */
  lemma ApplyRangesAnyOrder(src: Matrix, dst: Matrix, rs1: seq<LineRange>, rs2: seq<LineRange>, coefX: real, coefY: real)
    requires SameGrid(src, dst) && AllInInterior(|dst|, rs1) && AllInInterior(|dst|, rs2)
    requires forall i :: 0 <= i < |dst| ==> (Covered(rs1, i) <==> Covered(rs2, i))
    ensures ApplyRanges(src, dst, rs1, coefX, coefY) == ApplyRanges(src, dst, rs2, coefX, coefY)
  {
    var r1 := ApplyRanges(src, dst, rs1, coefX, coefY);
    var r2 := ApplyRanges(src, dst, rs2, coefX, coefY);
    forall i | 0 <= i < |dst|
      ensures r1[i] == r2[i]
    {
      ApplyRangesRows(src, dst, rs1, coefX, coefY, i);
      ApplyRangesRows(src, dst, rs2, coefX, coefY, i);
    }
  }

  /** Applying the ranges of the partition, for any worker count, is the sequential whole-interior update. */
  lemma PartitionMatchesSequential(src: Matrix, dst: Matrix, workers: int, coefX: real, coefY: real)
    requires SameGrid(src, dst) && workers >= 1
    ensures AllInInterior(|dst|, Partition(|dst|, workers))
    ensures ApplyRanges(src, dst, Partition(|dst|, workers), coefX, coefY) == FullInterior(src, dst, coefX, coefY)
  {
    var n := |dst|;
    var p := Partition(n, workers);
    PartitionInInterior(n, workers);
    var r := ApplyRanges(src, dst, p, coefX, coefY);
    var full := FullInterior(src, dst, coefX, coefY);
    UpdateWritesOnlyBand(src, dst, 1, n - 2, coefX, coefY);
    forall i | 0 <= i < n
      ensures r[i] == full[i]
    {
      ApplyRangesRows(src, dst, p, coefX, coefY, i);
      PartitionCovers(n, workers, i);
      if !Covered(p, i) {
        CellsEqual([dst[i]], [full[i]]);
      }
    }
  }

  class ParallelHeatSimulator {
    const grid: HeatGrid
    /** The size of the thread pool. */
    const threads: int
    /** The ranges computed once at construction, one task each per step. */
    const ranges: seq<LineRange>

    /** The grid is valid and the ranges are the partition for the pool size. */
    ghost predicate Valid()
    {
      grid.Valid() && threads >= 1 && ranges == Partition(grid.n, threads)
    }

    constructor(grid: HeatGrid, threadCount: int)
      requires grid.Valid()
      ensures Valid()
      ensures this.grid == grid
      ensures threads == WorkerCount(threadCount)
      ensures ranges == Partition(grid.n, threads)
    {
      this.grid := grid;
      var w := WorkerCount(threadCount);
      threads := w;
      var rs := BuildRanges(grid.n, w);
      ranges := rs;
    }

    /** The partitioner as the source writes it: a cursor advanced over `min(workers, n-2)` chunks. */
    static method BuildRanges(n: int, workers: int) returns (list: seq<LineRange>)
      requires workers >= 1
      ensures list == Partition(n, workers)
    {
      list := [];
      var interiorStart := 1;
      var interiorEnd := n - 2;
      if interiorEnd < interiorStart {
        return;
      }
      var interior := interiorEnd - interiorStart + 1;
      var maxChunks := Min(workers, interior);
      var base := interior / maxChunks;
      var remainder := interior % maxChunks;
      PartitionFrom(n, workers, maxChunks, base, remainder);
      list := LayChunks(interiorStart, maxChunks, base, remainder);
    }

    /** The cursor loop of the partitioner: `count` ranges laid end to end from row `first`. */
    static method LayChunks(first: int, count: int, base: int, remainder: int) returns (list: seq<LineRange>)
      ensures list == Chunks(first, 0, count, base, remainder)
    {
      list := [];
      var current := first;
      var i := 0;
      while i < count
        invariant 0 <= i <= Max(count, 0)
        invariant list + Chunks(current, i, count, base, remainder) == Chunks(first, 0, count, base, remainder)
      {
        var size := base + (if i < remainder then 1 else 0);
        var start := current;
        var end := start + size - 1;
        ChunksNext(current, i, count, base, remainder);
        list := list + [LineRange(start, end)];
        current := end + 1;
        i := i + 1;
      }
    }

    /** One task: rows `start..end`, columns `1..n-2` of `newT` from `T`, the sequential engine's formula. */
    method ComputeRange(start: int, end: int)
      requires grid.Valid() && InteriorBand(grid.n, start, end)
      modifies grid.newT
      ensures Rows(grid.newT) == InteriorUpdate(Rows(grid.T), old(Rows(grid.newT)), start, end, grid.CoefX(), grid.CoefY())
    {
      var coefX := grid.CoefX();
      var coefY := grid.CoefY();
      UpdateRows(grid.T, grid.newT, start, end, coefX, coefY);
    }

    /**
     * One task per range; nothing happens when there are no ranges.  The
     * result is the sequential engine's whole-interior update.
     */
    method ComputeStep()
      requires Valid()
      modifies grid.newT
      ensures Rows(grid.newT) == FullInterior(Rows(grid.T), old(Rows(grid.newT)), grid.CoefX(), grid.CoefY())
    {
      ghost var src := Rows(grid.T);
      ghost var d0 := Rows(grid.newT);
      ghost var coefX, coefY := grid.CoefX(), grid.CoefY();
      PartitionMatchesSequential(src, d0, threads, coefX, coefY);
      if |ranges| == 0 {
        EmptyBandWritesNothing(src, d0, 1, grid.n - 2, coefX, coefY);
        return;
      }
      var k := 0;
      while k < |ranges|
        invariant 0 <= k <= |ranges|
        invariant Rows(grid.T) == src
        invariant Rows(grid.newT) == ApplyRanges(src, d0, ranges[..k], coefX, coefY)
      {
        ApplyNextRange(src, d0, ranges, k, coefX, coefY);
        ComputeRange(ranges[k].start, ranges[k].end);
        k := k + 1;
      }
      assert ranges[..k] == ranges;
    }

    /** One time step; the same new state as the sequential engine's step. */
    method Step()
      requires Valid()
      modifies grid.T, grid.newT
      ensures Rows(grid.T) == NextGeneration(old(Rows(grid.T)), grid.Flags(), grid.CoefX(), grid.CoefY())
      ensures Rows(grid.newT) == Rows(grid.T)
    {
      grid.CopyTToNewT();
      ComputeStep();
      grid.FinishStep();
    }

    /** `steps` calls of `Step` (none when `steps <= 0`). */
    method RunSteps(steps: int)
      requires Valid()
      modifies grid.T, grid.newT
      ensures Rows(grid.T) == Generations(old(Rows(grid.T)), grid.Flags(), grid.CoefX(), grid.CoefY(), Max(steps, 0))
    {
      ghost var m := Rows(grid.T);
      ghost var b, coefX, coefY := grid.Flags(), grid.CoefX(), grid.CoefY();
      var s := 0;
      while s < steps
        invariant 0 <= s <= Max(steps, 0)
        invariant Rows(grid.T) == Generations(m, b, coefX, coefY, s)
      {
        GenerationsUnfold(m, b, coefX, coefY, s);
        Step();
        s := s + 1;
      }
    }

    /** The state effect of `measureRunSeconds`: a warm-up is discarded by the reset. */
    method MeasureRun(totalSteps: int, warmup: bool)
      requires Valid()
      modifies grid.T, grid.newT
      ensures Rows(grid.T) == Generations(if warmup then old(Rows(grid.initialT)) else old(Rows(grid.T)),
                                          grid.Flags(), grid.CoefX(), grid.CoefY(), Max(totalSteps, 0))
    {
      if warmup {
        var w := Min(10, totalSteps);
        var i := 0;
        while i < w
          invariant Rows(grid.initialT) == old(Rows(grid.initialT))
        {
          Step();
          i := i + 1;
        }
        grid.ResetToInitialState();
      }
      RunSteps(totalSteps);
    }
  }
}
