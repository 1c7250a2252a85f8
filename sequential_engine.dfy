/** The sequential engine: the stencil over the whole interior on the calling thread. */
module SequentialEngine {
  import opened Matrices
  import opened Stencil
  import opened GridState
  import opened RowPartition

  class SequentialHeatSimulator {
    const grid: HeatGrid

    constructor(grid: HeatGrid)
      ensures this.grid == grid
    {
      this.grid := grid;
    }

    /**
     * Writes the interior cells (rows and columns `1..n-2`) of `newT` with the
     * stencil over `T`; `T` is only read, the border of `newT` is kept.
     */
    method ComputeStep()
      requires grid.Valid()
      modifies grid.newT
      ensures Rows(grid.newT) == FullInterior(Rows(grid.T), old(Rows(grid.newT)), grid.CoefX(), grid.CoefY())
    {
      var coefX := grid.CoefX();
      var coefY := grid.CoefY();
      UpdateRows(grid.T, grid.newT, 1, grid.n - 2, coefX, coefY);
    }

    /** One time step: `T` becomes the next generation and `newT` equals `T`; `initialT` and the flags are kept. */
    method Step()
      requires grid.Valid()
      modifies grid.T, grid.newT
      ensures Rows(grid.T) == NextGeneration(old(Rows(grid.T)), grid.Flags(), grid.CoefX(), grid.CoefY())
      ensures Rows(grid.newT) == Rows(grid.T)
    {
      grid.CopyTToNewT();
      ComputeStep();
      grid.FinishStep();
    }

    /** `steps` calls of `Step` (none when `steps <= 0`). */
    method RunSteps(steps: int)
      requires grid.Valid()
      modifies grid.T, grid.newT
      ensures Rows(grid.T) == Generations(old(Rows(grid.T)), grid.Flags(), grid.CoefX(), grid.CoefY(), Max(steps, 0))
    {
      ghost var m := Rows(grid.T);
      ghost var b, coefX, coefY := grid.Flags(), grid.CoefX(), grid.CoefY();
      var s := 0;
      while s < steps
        invariant 0 <= s <= Max(steps, 0)
        invariant Rows(grid.T) == Generations(m, b, coefX, coefY, s)
      {
        GenerationsUnfold(m, b, coefX, coefY, s);
        Step();
        s := s + 1;
      }
    }

    /**
     * The state effect of `measureRunSeconds`: with a warm-up, up to ten
     * steps are run and then discarded by a reset, so the timed run starts
     * from `initialT`; without one it starts from the current `T`.
     */
    method MeasureRun(totalSteps: int, warmup: bool)
      requires grid.Valid()
      modifies grid.T, grid.newT
      ensures Rows(grid.T) == Generations(if warmup then old(Rows(grid.initialT)) else old(Rows(grid.T)),
                                          grid.Flags(), grid.CoefX(), grid.CoefY(), Max(totalSteps, 0))
    {
      if warmup {
        var w := Min(10, totalSteps);
        var i := 0;
        while i < w
          invariant Rows(grid.initialT) == old(Rows(grid.initialT))
        {
          Step();
          i := i + 1;
        }
        grid.ResetToInitialState();
      }
      RunSteps(totalSteps);
    }
  }
}
