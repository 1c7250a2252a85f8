/**
 * The distributed engine: a coordinator that cuts the interior into ranges,
 * sends each live worker its range with one halo row on each side, merges
 * the rows that come back into `newT`, and computes locally the ranges of
 * unreachable or failing workers.  Remote calls are an oracle: one
 * `CallOutcome` per cache entry, and an answered call returns what the
 * worker's kernel computes from the block it was sent.
 */
module DistributedEngine {
  import opened Wrappers
  import opened Matrices
  import opened Stencil
  import opened GridState
  import opened RowPartition
  import opened RemoteWorker
  import opened DistributedSpec

  /** Row `r` of `mat` as a value. */
  method RowOf(mat: array2<real>, r: int) returns (row: seq<real>)
    requires 0 <= r < mat.Length0
    ensures row == Rows(mat)[r]
  {
    row := [];
    var j := 0;
    while j < mat.Length1
      invariant 0 <= j <= mat.Length1
      invariant row == Rows(mat)[r][..j]
    {
      row := row + [mat[r, j]];
      j := j + 1;
    }
  }

  class DistributedHeatSimulator {
    const grid: HeatGrid
    const workerUrls: seq<string>
    /** One entry per URL, in URL order; `Unreachable` stands for a null entry. */
    const workerCache: seq<WorkerRef>

    /** Connects to every URL; `connects[i]` says how the attempt for `workerUrls[i]` ends. */
    constructor(grid: HeatGrid, workerUrls: seq<string>, connects: seq<Connect>)
      requires |connects| == |workerUrls|
      ensures this.grid == grid && this.workerUrls == workerUrls
      ensures |workerCache| == |workerUrls|
      ensures forall i :: 0 <= i < |workerUrls| ==> (workerCache[i].Unreachable? <==> connects[i] != Connected)
      ensures forall i :: 0 <= i < |workerUrls| && workerCache[i].Remote? ==> workerCache[i].url == workerUrls[i]
    {
      this.grid := grid;
      this.workerUrls := workerUrls;
      var cache := InitializeWorkers(workerUrls, connects);
      this.workerCache := cache;
    }

    /**
     * The worker cache, corrected: one entry per URL, in URL order, null
     * exactly when the lookup or `initializeMatrix` failed.
     */
    static method InitializeWorkers(urls: seq<string>, connects: seq<Connect>) returns (cache: seq<WorkerRef>)
      requires |connects| == |urls|
      ensures |cache| == |urls|
      ensures forall i :: 0 <= i < |urls| ==> (cache[i].Unreachable? <==> connects[i] != Connected)
      ensures forall i :: 0 <= i < |urls| && cache[i].Remote? ==> cache[i].url == urls[i]
    {
      cache := [];
      var i := 0;
      while i < |urls|
        invariant 0 <= i <= |urls| && |cache| == i
        invariant forall k :: 0 <= k < i ==> cache[k] == EntryFor(urls[k], connects[k])
      {
        if connects[i] == Connected {
          cache := cache + [Remote(urls[i])];
        } else {
          cache := cache + [Unreachable];
        }
        i := i + 1;
      }
    }

    /** Rows `start..end` of `newT` recomputed from `T` in their interior columns; nothing when `start > end`. */
    method LocalCompute(start: int, end: int)
      requires grid.Valid() && InteriorBand(grid.n, start, end)
      modifies grid.newT
      ensures Rows(grid.newT) == InteriorUpdate(Rows(grid.T), old(Rows(grid.newT)), start, end, grid.CoefX(), grid.CoefY())
    {
      if start > end {
        EmptyBandWritesNothing(Rows(grid.T), Rows(grid.newT), start, end, grid.CoefX(), grid.CoefY());
        return;
      }
      UpdateRows(grid.T, grid.newT, start, end, grid.CoefX(), grid.CoefY());
    }

    /** `newT` copied into `T`, then `T`'s enabled edges clamped; `newT` is kept. */
    method SwapBuffersManually()
      requires grid.Valid()
      modifies grid.T
      ensures Rows(grid.T) == WithBoundaries(Rows(grid.newT), grid.Flags())
    {
      CopyAll(grid.newT, grid.T);
      grid.ApplyBoundaries(grid.T);
    }

    /**
     * Copies of rows `startRow..endRow` of `mat`, the bounds first clamped to
     * `0..n-1`; empty when nothing is left.  `mat` is only read.
     */
    method ExtractBlock(mat: array2<real>, startRow: int, endRow: int) returns (block: Matrix)
      requires grid.Valid() && mat.Length0 == grid.n && mat.Length1 == grid.n
      ensures block == Extracted(Rows(mat), startRow, endRow)
      ensures var s, e := Max(0, startRow), Min(grid.n - 1, endRow);
        && (s > e ==> block == [])
        && (s <= e ==> |block| == e - s + 1 && forall k :: 0 <= k < |block| ==> block[k] == Rows(mat)[s + k])
    {
      var s := Max(0, startRow);
      var e := Min(grid.n - 1, endRow);
      if s > e {
        return [];
      }
      var rows := e - s + 1;
      block := [];
      var i := 0;
      while i < rows
        invariant 0 <= i <= rows
        invariant block == Rows(mat)[s..s + i]
      {
        var row := RowOf(mat, s + i);
        block := block + [row];
        i := i + 1;
      }
    }

    /** Rows `s..e` of `newT` replaced wholesale by the rows of `block`; no other row is touched. */
    method MergeRows(s: int, e: int, block: Matrix)
      requires grid.Valid() && MergeFits(block, s, e, grid.n)
      modifies grid.newT
      ensures Rows(grid.newT) == Merged(old(Rows(grid.newT)), s, e, block)
    {
      ghost var d := Rows(grid.newT);
      var rows := e - s + 1;
      var i := 0;
      while i < rows
        invariant 0 <= i <= Max(rows, 0)
        invariant forall r, c :: 0 <= r < grid.n && 0 <= c < grid.n ==>
          grid.newT[r, c] == if s <= r < s + i then block[r - s][c] else d[r][c]
      {
        CopyIntoRow(grid.newT, s + i, block[i], grid.n);
        i := i + 1;
      }
      RowsAre(grid.newT, Merged(d, s, e, block));
    }

    /**
     * One step's interior: whatever the calls do, every row of `newT` ends
     * up as the sequential engine's row, with its side columns taken from
     * `newT` or from `T`; so when `newT` starts as a copy of `T` (as `step`
     * makes it) the result is exactly the sequential engine's.
     */
    method ComputeStep(outcomes: seq<CallOutcome>)
      requires grid.Valid() && |outcomes| == |workerCache|
      modifies grid.newT
      ensures forall i :: 0 <= i < grid.n ==>
        RowSettled(Rows(grid.newT), old(Rows(grid.newT)), Rows(grid.T), grid.CoefX(), grid.CoefY(), i)
      ensures old(Rows(grid.newT)) == Rows(grid.T) ==>
        Rows(grid.newT) == FullInterior(Rows(grid.T), Rows(grid.T), grid.CoefX(), grid.CoefY())
    {
      ghost var src := Rows(grid.T);
      ghost var d0 := Rows(grid.newT);
      ghost var coefX, coefY := grid.CoefX(), grid.CoefY();
      var interior := Max(0, grid.n - 2);
      if interior == 0 || |workerCache| == 0 {
        LocalCompute(1, grid.n - 2);
        assert forall i :: 0 <= i < grid.n ==> RowSettled(Rows(grid.newT), d0, src, coefX, coefY, i);
      } else {
        var futures;
        ghost var submitted;
        futures, submitted := Dispatch(outcomes, d0);
        Collect(futures, submitted, d0);
        assert Rows(grid.T) == src;
        assert forall i :: 0 <= i < grid.n ==> RowSettled(Rows(grid.newT), d0, src, coefX, coefY, i);
      }
      assert forall i :: 0 <= i < grid.n ==> RowSettled(Rows(grid.newT), d0, src, coefX, coefY, i);
      if d0 == src {
        SettledRowsAreStep(Rows(grid.newT), src, coefX, coefY);
      }
    }

    /**
     * The first half of `computeStep`: the cursor loop over the workers.  A
     * null entry's range is computed at once; a live one's task is submitted
     * with the block extracted from `T`.
     */
    method Dispatch(outcomes: seq<CallOutcome>, ghost d0: Matrix) returns (futures: seq<Future>, ghost submitted: seq<LineRange>)
      requires grid.Valid() && |outcomes| == |workerCache| && grid.n >= 3 && |workerCache| >= 1
      requires SameGrid(Rows(grid.T), d0) && |d0| == grid.n
      requires OnTrack(Rows(grid.newT), d0, Rows(grid.T), grid.CoefX(), grid.CoefY())
      modifies grid.newT
      ensures |futures| == |submitted|
      ensures forall k :: 0 <= k < |futures| ==> FutureFits(futures[k], submitted[k], Rows(grid.T), grid.CoefX(), grid.CoefY())
      ensures CollectProgress(Rows(grid.newT), d0, Rows(grid.T), grid.CoefX(), grid.CoefY(), submitted)
    {
      var n := grid.n;
      ghost var src := Rows(grid.T);
      var coefX, coefY := grid.CoefX(), grid.CoefY();
      var interior := Max(0, n - 2);
      var workers := |workerCache|;
      var base := interior / workers;
      var rem := interior % workers;
      futures, submitted := [], [];
      ghost var done: seq<LineRange> := [];
      var cur := 1;
      var i := 0;
      while i < workers && cur <= n - 2
        invariant Cursor(n, workers, done, cur, i)
        invariant Rows(grid.T) == src
        invariant DispatchProgress(Rows(grid.newT), d0, src, coefX, coefY, submitted, cur)
        invariant |futures| == |submitted|
        invariant forall k :: 0 <= k < |futures| ==> FutureFits(futures[k], submitted[k], src, coefX, coefY)
      {
        var chunk := base + (if i < rem then 1 else 0);
        ChunkIsNext(n, workers, done, cur, i, base, rem, chunk);
        if chunk <= 0 {
          break;
        }
        var start := cur;
        var end := Min(n - 2, cur + chunk - 1);
        var f := DispatchRange(workerCache[i], start, end, outcomes[i], d0, submitted);
        if f.Some? {
          futures := futures + [f.value];
          submitted := submitted + [LineRange(start, end)];
        }
        done := done + [LineRange(start, end)];
        cur := end + 1;
        i := i + 1;
      }
      CursorExit(n, workers, done, cur, i);
    }

    /**
     * One turn of the dispatch loop for range `start..end`: a null entry
     * computes the range at once, a live one yields the callable's future.
     */
    method DispatchRange(entry: WorkerRef, start: int, end: int, outcome: CallOutcome, ghost d0: Matrix, ghost submitted: seq<LineRange>)
      returns (f: Option<Future>)
      requires grid.Valid() && 1 <= start <= end <= grid.n - 2
      requires SameGrid(Rows(grid.T), d0) && |d0| == grid.n
      requires DispatchProgress(Rows(grid.newT), d0, Rows(grid.T), grid.CoefX(), grid.CoefY(), submitted, start)
      modifies grid.newT
      ensures f.Some? <==> entry.Remote?
      ensures f.Some? ==> FutureFits(f.value, LineRange(start, end), Rows(grid.T), grid.CoefX(), grid.CoefY())
      ensures DispatchProgress(Rows(grid.newT), d0, Rows(grid.T), grid.CoefX(), grid.CoefY(),
                               if f.Some? then submitted + [LineRange(start, end)] else submitted, end + 1)
    {
      ghost var src := Rows(grid.T);
      var coefX, coefY := grid.CoefX(), grid.CoefY();
      if entry.Unreachable? {
        DispatchLocal(src, d0, Rows(grid.newT), start, end, coefX, coefY, submitted);
        LocalCompute(start, end);
        f := None;
      } else {
        var task := SubmitRange(start, end, outcome);
        DispatchSubmit(src, d0, Rows(grid.newT), start, end, coefX, coefY, submitted);
        f := Some(task);
      }
    }

    /**
     * The callable submitted for a live worker's range `start..end`: the block
     * of rows `start-1..end+1` extracted from `T` and sent to the worker;
     * its future holds the reply, the failed call or the failed wait.
     */
    method SubmitRange(start: int, end: int, outcome: CallOutcome) returns (f: Future)
      requires grid.Valid() && 1 <= start <= end <= grid.n - 2
      ensures FutureFits(f, LineRange(start, end), Rows(grid.T), grid.CoefX(), grid.CoefY())
      ensures f.Done? <==> outcome != WaitInterrupted
      ensures f.Done? ==> (f.result.block.Some? <==> outcome == Answered)
    {
      var block := ExtractBlock(grid.T, start - 1, end + 1);
      TaskResultFits(Rows(grid.T), start, end, grid.CoefX(), grid.CoefY(), outcome);
      f := TaskResult(block, start, end, grid.n, grid.CoefX(), grid.CoefY(), outcome);
    }

    /**
     * The second half of `computeStep`: the futures in submission order.  A
     * reply is merged; a failed call computes its range locally; a failed
     * wait computes the whole interior locally.
     */
    method Collect(futures: seq<Future>, ghost submitted: seq<LineRange>, ghost d0: Matrix)
      requires grid.Valid() && grid.n >= 3 && SameGrid(Rows(grid.T), d0) && |d0| == grid.n
      requires |futures| == |submitted|
      requires forall k :: 0 <= k < |futures| ==> FutureFits(futures[k], submitted[k], Rows(grid.T), grid.CoefX(), grid.CoefY())
      requires CollectProgress(Rows(grid.newT), d0, Rows(grid.T), grid.CoefX(), grid.CoefY(), submitted)
      modifies grid.newT
      ensures forall i :: 0 <= i < grid.n ==> RowSettled(Rows(grid.newT), d0, Rows(grid.T), grid.CoefX(), grid.CoefY(), i)
    {
      var n := grid.n;
      ghost var src := Rows(grid.T);
      ghost var coefX, coefY := grid.CoefX(), grid.CoefY();
      assert submitted[0..] == submitted;
      var k := 0;
      while k < |futures|
        invariant 0 <= k <= |futures|
        invariant Rows(grid.T) == src
        invariant CollectProgress(Rows(grid.newT), d0, src, coefX, coefY, submitted[k..])
      {
        var f := futures[k];
        assert FutureFits(f, submitted[k], src, coefX, coefY);
        if f.Done? {
          var res := f.result;
          if res.block.Some? {
            CollectMerge(src, d0, Rows(grid.newT), coefX, coefY, submitted, k, res.block.value);
            MergeRows(res.s, res.e, res.block.value);
          } else {
            CollectLocal(src, d0, Rows(grid.newT), res.s, res.e, coefX, coefY, submitted, k);
            LocalCompute(res.s, res.e);
          }
        } else {
          CollectLocal(src, d0, Rows(grid.newT), 1, n - 2, coefX, coefY, submitted, k);
          LocalCompute(1, n - 2);
        }
        k := k + 1;
      }
      assert submitted[|futures|..] == [];
      CollectDone(src, d0, Rows(grid.newT), coefX, coefY);
    }

    /** One time step, whatever the calls do: the same new state as the sequential engine's step. */
    method Step(outcomes: seq<CallOutcome>)
      requires grid.Valid() && |outcomes| == |workerCache|
      modifies grid.T, grid.newT
      ensures Rows(grid.T) == NextGeneration(old(Rows(grid.T)), grid.Flags(), grid.CoefX(), grid.CoefY())
      ensures Rows(grid.newT) == Rows(grid.T)
    {
      grid.CopyTToNewT();
      ComputeStep(outcomes);
      grid.FinishStep();
    }

    /**
     * `runSteps`: `steps/10` batches of ten, then one batch of the
     * remainder when it is positive; `outcomes[b]` says how the calls of
     * batch `b` end.  With no interior or no workers, and `T` starting as
     * `newT` with the edges clamped, the result is `steps` sequential steps.
     * `issued` records the size of every batch run, in order.
     */
    method RunSteps(steps: int, outcomes: seq<seq<CallOutcome>>) returns (ghost issued: seq<int>)
      requires grid.Valid()
      requires |outcomes| == |BatchSizes(steps)|
      requires forall b :: 0 <= b < |outcomes| ==> |outcomes[b]| == |workerCache|
      modifies grid.T, grid.newT
      ensures steps >= 1 ==> Rows(grid.T) == WithBoundaries(Rows(grid.newT), grid.Flags())
      ensures steps <= 0 ==> unchanged(grid.T) && unchanged(grid.newT)
      ensures (grid.n < 3 || |workerCache| == 0) && old(Rows(grid.T)) == WithBoundaries(old(Rows(grid.newT)), grid.Flags()) ==>
        Rows(grid.T) == Generations(old(Rows(grid.T)), grid.Flags(), grid.CoefX(), grid.CoefY(), Max(steps, 0))
      ensures issued == BatchSizes(steps)
    {
      ghost var st := (Rows(grid.T), Rows(grid.newT));
      var fullBatches := TruncDiv(steps, BatchSize);
      var remainder := TruncRem(steps, BatchSize);
      BatchCount(steps);
      issued := FullBatches(fullBatches, outcomes);
      ghost var mid := (Rows(grid.T), Rows(grid.newT));
      if remainder > 0 {
        ComputeStepBatch(remainder, outcomes[Max(fullBatches, 0)]);
        issued := issued + [remainder];
      }
      if (grid.n < 3 || |workerCache| == 0) && st.0 == WithBoundaries(st.1, grid.Flags()) {
        LocalRunIsGenerations(st, grid.Flags(), grid.CoefX(), grid.CoefY(), steps, mid, (Rows(grid.T), Rows(grid.newT)));
      }
    }

    /** The full batches of `runSteps`: `count` batches of ten steps each. */
    method FullBatches(count: int, outcomes: seq<seq<CallOutcome>>) returns (ghost issued: seq<int>)
      requires grid.Valid()
      requires count <= |outcomes| && forall b :: 0 <= b < count ==> |outcomes[b]| == |workerCache|
      modifies grid.T, grid.newT
      ensures count >= 1 ==> Rows(grid.T) == WithBoundaries(Rows(grid.newT), grid.Flags())
      ensures count <= 0 ==> unchanged(grid.T) && unchanged(grid.newT)
      ensures grid.n < 3 || |workerCache| == 0 ==>
        (Rows(grid.T), Rows(grid.newT)) == Rounds((old(Rows(grid.T)), old(Rows(grid.newT))), 1, grid.n - 2,
                                                   grid.Flags(), grid.CoefX(), grid.CoefY(), BatchSize * Max(count, 0))
      ensures issued == seq(Max(count, 0), _ => BatchSize)
    {
      ghost var st := (Rows(grid.T), Rows(grid.newT));
      ghost var b, coefX, coefY := grid.Flags(), grid.CoefX(), grid.CoefY();
      ghost var local := grid.n < 3 || |workerCache| == 0;
      ghost var done: nat := 0;
      issued := [];
      var i := 0;
      while i < count
        invariant 0 <= i <= Max(count, 0) && done == BatchSize * i
        invariant issued == seq(i, _ => BatchSize)
        invariant i == 0 ==> unchanged(grid.T) && unchanged(grid.newT)
        invariant i >= 1 ==> Rows(grid.T) == WithBoundaries(Rows(grid.newT), b)
        invariant local ==> (Rows(grid.T), Rows(grid.newT)) == Rounds(st, 1, grid.n - 2, b, coefX, coefY, done)
      {
        ComputeStepBatch(BatchSize, outcomes[i]);
        issued := issued + [BatchSize];
        if local {
          RoundsAdd(st, 1, grid.n - 2, b, coefX, coefY, done, BatchSize);
        }
        done := done + BatchSize;
        i := i + 1;
      }
    }

    /** `k` fallback rounds over rows `s..e`: each computes the rows into `newT`, then swaps. */
    method LocalRounds(s: int, e: int, k: int)
      requires grid.Valid() && InteriorBand(grid.n, s, e) && k >= 0
      modifies grid.T, grid.newT
      ensures (Rows(grid.T), Rows(grid.newT))
        == Rounds((old(Rows(grid.T)), old(Rows(grid.newT))), s, e, grid.Flags(), grid.CoefX(), grid.CoefY(), k)
    {
      ghost var st := (Rows(grid.T), Rows(grid.newT));
      var b := 0;
      while b < k
        invariant 0 <= b <= k
        invariant (Rows(grid.T), Rows(grid.newT)) == Rounds(st, s, e, grid.Flags(), grid.CoefX(), grid.CoefY(), b)
      {
        LocalCompute(s, e);
        SwapBuffersManually();
        b := b + 1;
      }
    }

    /**
     * A batch of `batchSize` steps.  It always ends with a swap, so `T` is
     * `newT` with the edges clamped.  With no interior or no workers it is
     * `batchSize` local rounds over the whole interior (which
     * `RoundsAreGenerations` relates to sequential steps).  When every worker is live and answers,
     * each range's rows in `newT` are its worker's batch reply, computed
     * from the `T` the batch started with, and rows `0` and `n-1` are kept.
     */
    method ComputeStepBatch(batchSize: int, outcomes: seq<CallOutcome>)
      requires grid.Valid() && |outcomes| == |workerCache| && batchSize >= 1
      modifies grid.T, grid.newT
      ensures Rows(grid.T) == WithBoundaries(Rows(grid.newT), grid.Flags())
      ensures grid.n < 3 || |workerCache| == 0 ==>
        (Rows(grid.T), Rows(grid.newT)) == Rounds((old(Rows(grid.T)), old(Rows(grid.newT))), 1, grid.n - 2,
                                                   grid.Flags(), grid.CoefX(), grid.CoefY(), batchSize)
      ensures grid.n >= 3 && |workerCache| >= 1 && AllAnswered(workerCache, outcomes) ==>
        && MergedReplies(Rows(grid.newT), old(Rows(grid.T)), Partition(grid.n, |workerCache|), grid.CoefX(), grid.CoefY(), batchSize)
        && Rows(grid.newT)[0] == old(Rows(grid.newT))[0]
        && Rows(grid.newT)[grid.n - 1] == old(Rows(grid.newT))[grid.n - 1]
    {
      var n := grid.n;
      var interior := Max(0, n - 2);
      if interior == 0 || |workerCache| == 0 {
        LocalRounds(1, n - 2, batchSize);
        return;
      }
      var futures;
      ghost var submitted;
      futures, submitted := DispatchBatch(batchSize, outcomes);
      CollectBatch(batchSize, futures, submitted);
      SwapBuffersManually();
    }

    /**
     * The first half of `computeStepBatch`: the same cursor loop; a null
     * entry's range runs its fallback rounds at once, a live one's task is
     * submitted with the block extracted from the current `T`.
     */
    method DispatchBatch(batchSize: int, outcomes: seq<CallOutcome>) returns (futures: seq<Future>, ghost submitted: seq<LineRange>)
      requires grid.Valid() && |outcomes| == |workerCache| && grid.n >= 3 && |workerCache| >= 1 && batchSize >= 1
      modifies grid.T, grid.newT
      ensures |futures| == |submitted|
      ensures forall k :: 0 <= k < |futures| ==> FutureInInterior(futures[k], grid.n)
      ensures AllAnswered(workerCache, outcomes) ==>
        && unchanged(grid.T) && unchanged(grid.newT)
        && submitted == Partition(grid.n, |workerCache|)
        && AnsweredFutures(futures, submitted, Rows(grid.T), grid.CoefX(), grid.CoefY(), batchSize)
    {
      var n := grid.n;
      var coefX, coefY := grid.CoefX(), grid.CoefY();
      var interior := Max(0, n - 2);
      var workers := |workerCache|;
      var base := interior / workers;
      var rem := interior % workers;
      futures, submitted := [], [];
      ghost var done: seq<LineRange> := [];
      ghost var answered := AllAnswered(workerCache, outcomes);
      ghost var t0 := Rows(grid.T);
      var cur := 1;
      var i := 0;
      while i < workers && cur <= n - 2
        invariant Cursor(n, workers, done, cur, i)
        invariant |futures| == |submitted|
        invariant forall k :: 0 <= k < |futures| ==> FutureInInterior(futures[k], n)
        invariant answered ==>
          && unchanged(grid.T) && unchanged(grid.newT)
          && submitted == done
          && AnsweredFutures(futures, submitted, t0, coefX, coefY, batchSize)
      {
        var chunk := base + (if i < rem then 1 else 0);
        ChunkIsNext(n, workers, done, cur, i, base, rem, chunk);
        if chunk <= 0 {
          break;
        }
        var start := cur;
        var end := Min(n - 2, cur + chunk - 1);
        var f := BatchRange(workerCache[i], start, end, batchSize, outcomes[i]);
        if f.Some? {
          if answered {
            AnsweredFuturesAppend(futures, submitted, t0, coefX, coefY, batchSize, LineRange(start, end));
          }
          futures := futures + [f.value];
          submitted := submitted + [LineRange(start, end)];
        }
        done := done + [LineRange(start, end)];
        cur := end + 1;
        i := i + 1;
      }
      CursorExit(n, workers, done, cur, i);
    }

    /**
     * One turn of the batch dispatch loop for range `start..end`: a null
     * entry runs the range's rounds at once, a live one yields the callable's
     * future and changes nothing.
     */
    method BatchRange(entry: WorkerRef, start: int, end: int, batchSize: int, outcome: CallOutcome) returns (f: Option<Future>)
      requires grid.Valid() && 1 <= start <= end <= grid.n - 2 && batchSize >= 1
      modifies grid.T, grid.newT
      ensures f.Some? <==> entry.Remote?
      ensures entry.Unreachable? ==>
        (Rows(grid.T), Rows(grid.newT)) == Rounds((old(Rows(grid.T)), old(Rows(grid.newT))), start, end, grid.Flags(), grid.CoefX(), grid.CoefY(), batchSize)
      ensures entry.Remote? ==> unchanged(grid.T) && unchanged(grid.newT) && FutureInInterior(f.value, grid.n)
      ensures entry.Remote? && outcome == Answered ==>
        f.value == Done(WorkerResult(start, end, Some(BatchReply(Rows(grid.T), LineRange(start, end), grid.CoefX(), grid.CoefY(), batchSize))))
    {
      if entry.Unreachable? {
        LocalRounds(start, end, batchSize);
        f := None;
      } else {
        var g := BatchTask(start, end, batchSize, outcome);
        f := Some(g);
      }
    }

    /** A batch task for range `start..end`: the block extracted from `T`, sent for `batchSize` steps. */
    method BatchTask(start: int, end: int, batchSize: int, outcome: CallOutcome) returns (f: Future)
      requires grid.Valid() && 1 <= start <= end <= grid.n - 2 && batchSize >= 1
      ensures FutureInInterior(f, grid.n)
      ensures outcome == Answered ==>
        f == Done(WorkerResult(start, end, Some(BatchReply(Rows(grid.T), LineRange(start, end), grid.CoefX(), grid.CoefY(), batchSize))))
      ensures outcome == CallFailed ==> f == Done(WorkerResult(start, end, None))
      ensures outcome == WaitInterrupted ==> f == GetFails
    {
      var n := grid.n;
      var block := ExtractBlock(grid.T, start - 1, end + 1);
      ExtractedHalo(Rows(grid.T), start, end);
      MultiStepShape(Some(block), start, end, n, grid.CoefX(), grid.CoefY(), batchSize);
      f := BatchTaskResult(block, start, end, n, grid.CoefX(), grid.CoefY(), batchSize, outcome);
    }

    /**
     * The second half of `computeStepBatch`: a reply is merged; a failed
     * call runs its range's fallback rounds; a failed wait runs fallback
     * rounds over the whole interior.
     */
    method CollectBatch(batchSize: int, futures: seq<Future>, ghost submitted: seq<LineRange>)
      requires grid.Valid() && grid.n >= 3 && |workerCache| >= 1 && batchSize >= 1 && |futures| == |submitted|
      requires forall k :: 0 <= k < |futures| ==> FutureInInterior(futures[k], grid.n)
      modifies grid.T, grid.newT
      ensures old(submitted == Partition(grid.n, |workerCache|)
                  && AnsweredFutures(futures, submitted, Rows(grid.T), grid.CoefX(), grid.CoefY(), batchSize)) ==>
        && unchanged(grid.T)
        && MergedReplies(Rows(grid.newT), Rows(grid.T), submitted, grid.CoefX(), grid.CoefY(), batchSize)
        && Rows(grid.newT)[0] == old(Rows(grid.newT))[0]
        && Rows(grid.newT)[grid.n - 1] == old(Rows(grid.newT))[grid.n - 1]
    {
      var n := grid.n;
      ghost var t0, n0 := Rows(grid.T), Rows(grid.newT);
      ghost var coefX, coefY := grid.CoefX(), grid.CoefY();
      ghost var answered := submitted == Partition(n, |workerCache|) && AnsweredFutures(futures, submitted, t0, coefX, coefY, batchSize);
      var k := 0;
      while k < |futures|
        invariant 0 <= k <= |futures|
        invariant answered ==>
          && unchanged(grid.T)
          && RepliesMerged(Rows(grid.newT), t0, submitted, coefX, coefY, batchSize, k)
          && Rows(grid.newT)[0] == n0[0] && Rows(grid.newT)[n - 1] == n0[n - 1]
      {
        var f := futures[k];
        if f.Done? {
          var res := f.result;
          if res.block.Some? {
            if answered {
              MergeNextReply(Rows(grid.newT), t0, submitted, |workerCache|, coefX, coefY, batchSize, k, res.block.value);
            }
            MergeRows(res.s, res.e, res.block.value);
          } else {
            LocalRounds(res.s, res.e, batchSize);
          }
        } else {
          LocalRounds(1, n - 2, batchSize);
        }
        k := k + 1;
      }
    }
  }
}
