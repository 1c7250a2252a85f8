/**
 * The values and laws behind the distributed coordinator: the worker cache
 * built from the URL list, the halo'd block sent to a worker, the merge of
 * a reply into `newT`, the cursor loop that cuts the interior into ranges,
 * the local fallback rounds of a batch and the batch plan of `runSteps`.
 */
module DistributedSpec {
  import opened Wrappers
  import opened Matrices
  import opened Stencil
  import opened GridState
  import opened RowPartition
  import opened RemoteWorker

  /** Steps per remote batch call. */
  const BatchSize: int := 10

  /** How connecting to one worker URL ends: the lookup fails, `initializeMatrix` fails, or both succeed. */
  datatype Connect = LookupFails | InitFails | Connected

  /** A worker cache entry: a remote proxy, or null for a worker that could not be reached. */
  datatype WorkerRef = Unreachable | Remote(url: string)

  /** How a remote task ends as seen by the coordinator: a reply, an exception caught inside the callable, or a failed wait. */
  datatype CallOutcome = Answered | CallFailed | WaitInterrupted

  /** What a remote task hands back: its range and the rows, or no rows when the call failed. */
  datatype WorkerResult = WorkerResult(s: int, e: int, block: Option<Matrix>)

  /** A submitted task: `get` returns its result, or throws. */
  datatype Future = Done(result: WorkerResult) | GetFails

  /* ---------------- the worker cache ---------------- */

  /** The entries that one URL adds to the cache in the source: the proxy goes in before `initializeMatrix`, and null after it on failure. */
  function EntriesAsWritten(url: string, c: Connect): seq<WorkerRef>
  {
    match c
    case LookupFails => [Unreachable]
    case InitFails => [Remote(url), Unreachable]
    case Connected => [Remote(url)]
  }

  /** The cache the source builds from the URLs, in order. */
  function CacheAsWritten(urls: seq<string>, connects: seq<Connect>): seq<WorkerRef>
    requires |urls| == |connects|
  {
    if |urls| == 0 then []
    else CacheAsWritten(urls[..|urls| - 1], connects[..|urls| - 1]) + EntriesAsWritten(urls[|urls| - 1], connects[|urls| - 1])
  }

  /** How many URLs fail at `initializeMatrix`. */
  function InitFailures(connects: seq<Connect>): nat
  {
    if |connects| == 0 then 0
    else InitFailures(connects[..|connects| - 1]) + (if connects[|connects| - 1] == InitFails then 1 else 0)
  }

  /** The source's cache has one extra entry per URL whose `initializeMatrix` fails. */
  lemma {:induction false} CacheAsWrittenLength(urls: seq<string>, connects: seq<Connect>)
    requires |urls| == |connects|
    ensures |CacheAsWritten(urls, connects)| == |urls| + InitFailures(connects)
  {
    if |urls| > 0 {
      CacheAsWrittenLength(urls[..|urls| - 1], connects[..|urls| - 1]);
    }
  }

  /**
   * One URL whose `initializeMatrix` fails: the source's cache gets two
   * entries, the first a live proxy to the uninitialised worker, so the
   * partition counts two workers where there is one URL.
   */
  lemma FailedInitLeavesTwoEntries(url: string)
    ensures var cache := CacheAsWritten([url], [InitFails]);
      |cache| == 2 && cache[0] == Remote(url) && cache[1] == Unreachable
  {
    assert [url][..0] == [] && [InitFails][..0] == [];
  }

  /** The intended cache entry for one URL: the proxy when both the lookup and `initializeMatrix` succeed, otherwise null. */
  function EntryFor(url: string, c: Connect): WorkerRef
  {
    if c == Connected then Remote(url) else Unreachable
  }

  /* ---------------- blocks and merges ---------------- */

  /** The rows `startRow..endRow` of `m`, the bounds first clamped to the grid; empty when nothing is left. */
  function Extracted(m: Matrix, startRow: int, endRow: int): Matrix
  {
    var s := Max(0, startRow);
    var e := Min(|m| - 1, endRow);
    if s > e then [] else m[s..e + 1]
  }

  /** The halo'd block of an interior range `s..e` is rows `s-1..e+1`, so a worker accepts it for any step count. */
  lemma ExtractedHalo(m: Matrix, s: int, e: int)
    requires IsSquare(m, |m|) && 1 <= s <= e <= |m| - 2
    ensures var b := Extracted(m, s - 1, e + 1);
      && |b| == e - s + 3
      && (forall k :: 0 <= k < |b| ==> b[k] == m[s - 1 + k])
      && AtLeastWide(b, |m|)
      && BlockFits(Some(b), s, e, |m|)
      && (forall k :: MultiStepFits(Some(b), s, e, |m|, k))
  {
  }

  /** `block` holds a row of at least `n` entries for each row of `s..e`, and `s..e` lies in an `n`-row grid. */
  predicate MergeFits(block: Matrix, s: int, e: int, n: int)
  {
    0 <= s && e < n && |block| >= e - s + 1 && forall k :: 0 <= k < e - s + 1 ==> |block[k]| >= n
  }

  /** `d` with rows `s..e` replaced wholesale by the first `|d|` entries of the rows of `block`. */
  function Merged(d: Matrix, s: int, e: int, block: Matrix): (r: Matrix)
    requires MergeFits(block, s, e, |d|)
    ensures |r| == |d|
  {
    seq(|d|, i requires 0 <= i < |d| => if s <= i <= e then block[i - s][..|d|] else d[i])
  }

  /** A row outside the merged range keeps its old value. */
  lemma MergedRowOutside(d: Matrix, s: int, e: int, block: Matrix, i: int)
    requires MergeFits(block, s, e, |d|) && 0 <= i < |d| && !(s <= i <= e)
    ensures Merged(d, s, e, block)[i] == d[i]
  {
  }

  /** A row inside the merged range is the matching block row, when that row is exactly as wide as the grid. */
  lemma MergedRowInside(d: Matrix, s: int, e: int, block: Matrix, i: int)
    requires MergeFits(block, s, e, |d|) && s <= i <= e && |block[i - s]| == |d|
    ensures Merged(d, s, e, block)[i] == block[i - s]
  {
    assert block[i - s][..|d|] == block[i - s];
  }

  /** What a task for range `s..e` hands back after one step, given the block it sent and how the call ends. */
  function TaskResult(block: Matrix, s: int, e: int, n: int, coefX: real, coefY: real, outcome: CallOutcome): Future
    requires BlockFits(Some(block), s, e, n)
  {
    match outcome
    case Answered => Done(WorkerResult(s, e, Some(ComputeBlockResult(Some(block), s, e, n, coefX, coefY))))
    case CallFailed => Done(WorkerResult(s, e, None))
    case WaitInterrupted => GetFails
  }

  /** A one-step task sent the halo'd block of an interior range of `src` yields a future that fits that range. */
  lemma TaskResultFits(src: Matrix, s: int, e: int, coefX: real, coefY: real, outcome: CallOutcome)
    requires IsSquare(src, |src|) && 1 <= s <= e <= |src| - 2
    ensures BlockFits(Some(Extracted(src, s - 1, e + 1)), s, e, |src|)
    ensures FutureFits(TaskResult(Extracted(src, s - 1, e + 1), s, e, |src|, coefX, coefY, outcome), LineRange(s, e), src, coefX, coefY)
  {
    ExtractedHalo(src, s, e);
  }

  /** What a task for range `s..e` hands back after a batch of `k` steps. */
  function BatchTaskResult(block: Matrix, s: int, e: int, n: int, coefX: real, coefY: real, k: int, outcome: CallOutcome): Future
    requires MultiStepFits(Some(block), s, e, n, k)
  {
    match outcome
    case Answered => Done(WorkerResult(s, e, Some(MultiStepResult(Some(block), s, e, n, coefX, coefY, k))))
    case CallFailed => Done(WorkerResult(s, e, None))
    case WaitInterrupted => GetFails
  }

  /* ---------------- one step: every row ends up settled ---------------- */

  /**
   * Row `i` of `cur` is finished: the stencil in its interior columns and
   * the side columns either of `newT` as it was (`t1`) or of `T` (`t2`).
   */
  ghost predicate Settled(cur: Matrix, t1: Matrix, t2: Matrix, i: int)
  {
    0 <= i < |cur| && i < |t1| && i < |t2| && (cur[i] == t1[i] || cur[i] == t2[i])
  }

  /** Every row of `cur` is either still the row of `d0` or settled. */
  ghost predicate Tracks(cur: Matrix, d0: Matrix, t1: Matrix, t2: Matrix)
  {
    |cur| == |d0| == |t1| == |t2| && forall i :: 0 <= i < |cur| ==> cur[i] == d0[i] || Settled(cur, t1, t2, i)
  }

  /** A local computation of rows `s..e` settles those rows and changes no other. */
  lemma LocalSettles(src: Matrix, d0: Matrix, cur: Matrix, s: int, e: int, coefX: real, coefY: real)
    requires SameGrid(src, d0) && SameGrid(src, cur) && |cur| == |d0| && InteriorBand(|d0|, s, e)
    requires Tracks(cur, d0, FullInterior(src, d0, coefX, coefY), FullInterior(src, src, coefX, coefY))
    ensures var r := InteriorUpdate(src, cur, s, e, coefX, coefY);
      var t1, t2 := FullInterior(src, d0, coefX, coefY), FullInterior(src, src, coefX, coefY);
      && Tracks(r, d0, t1, t2)
      && (forall i :: s <= i <= e ==> Settled(r, t1, t2, i))
      && (forall i :: 0 <= i < |cur| && !(s <= i <= e) ==> r[i] == cur[i])
  {
    var n := |d0|;
    var r := InteriorUpdate(src, cur, s, e, coefX, coefY);
    var t1, t2 := FullInterior(src, d0, coefX, coefY), FullInterior(src, src, coefX, coefY);
    forall i | s <= i <= e
      ensures Settled(r, t1, t2, i)
    {
      if cur[i] == t2[i] {
        forall j | 0 <= j < n
          ensures r[i][j] == t2[i][j]
        {
        }
        assert r[i] == t2[i];
      } else {
        forall j | 0 <= j < n
          ensures r[i][j] == t1[i][j]
        {
        }
        assert r[i] == t1[i];
      }
    }
  }

  /** Row `i` of a worker's one-step reply to the halo'd block of `s..e` is row `i` of the full step from `src`. */
  lemma ReplyRowIsStep(src: Matrix, s: int, e: int, i: int, coefX: real, coefY: real)
    requires IsSquare(src, |src|) && 1 <= s <= i <= e <= |src| - 2
    ensures BlockFits(Some(Extracted(src, s - 1, e + 1)), s, e, |src|)
    ensures ComputeBlockResult(Some(Extracted(src, s - 1, e + 1)), s, e, |src|, coefX, coefY)[i - s]
         == FullInterior(src, src, coefX, coefY)[i]
  {
    var n := |src|;
    ExtractedHalo(src, s, e);
    var b := Extracted(src, s - 1, e + 1);
    var row := ComputeBlockResult(Some(b), s, e, n, coefX, coefY)[i - s];
    var want := FullInterior(src, src, coefX, coefY)[i];
    var k := i - s + 1;
    assert b[k - 1] == src[i - 1] && b[k] == src[i] && b[k + 1] == src[i + 1];
    assert row == PassedRow(b, k, n, coefX, coefY);
    forall j | 0 <= j < n
      ensures PassCell(b, k, j, n, coefX, coefY) == InteriorCell(src, src, i, j, coefX, coefY)
    {
      if 0 < j < n - 1 {
        assert StencilAt(b, k, j, coefX, coefY) == StencilAt(src, i, j, coefX, coefY);
      }
    }
    assert |row| == n == |want|;
  }

  /**
   * Merging a worker's one-step reply for `s..e`, computed from the block
   * extracted from `T`, sets those rows to the settled rows with `T`'s side
   * columns and changes no other.
   */
  lemma MergeSettles(src: Matrix, d0: Matrix, cur: Matrix, s: int, e: int, coefX: real, coefY: real, reply: Matrix)
    requires SameGrid(src, d0) && |cur| == |d0| && 1 <= s <= e <= |d0| - 2
    requires Tracks(cur, d0, FullInterior(src, d0, coefX, coefY), FullInterior(src, src, coefX, coefY))
    requires BlockFits(Some(Extracted(src, s - 1, e + 1)), s, e, |d0|)
    requires reply == ComputeBlockResult(Some(Extracted(src, s - 1, e + 1)), s, e, |d0|, coefX, coefY)
    ensures MergeFits(reply, s, e, |d0|)
    ensures var r := Merged(cur, s, e, reply);
      var t1, t2 := FullInterior(src, d0, coefX, coefY), FullInterior(src, src, coefX, coefY);
      && Tracks(r, d0, t1, t2)
      && (forall i :: s <= i <= e ==> r[i] == t2[i])
      && (forall i :: 0 <= i < |cur| && !(s <= i <= e) ==> r[i] == cur[i])
  {
    var n := |d0|;
    ComputeBlockShape(Some(Extracted(src, s - 1, e + 1)), s, e, n, coefX, coefY);
    var r := Merged(cur, s, e, reply);
    var t2 := FullInterior(src, src, coefX, coefY);
    forall i | s <= i <= e
      ensures r[i] == t2[i]
    {
      ReplyRowIsStep(src, s, e, i, coefX, coefY);
      assert reply[i - s][..n] == reply[i - s];
    }
  }

  /** Every row of `cur` is the row of `d0` it started as, or settled for the step from `src`. */
  ghost predicate OnTrack(cur: Matrix, d0: Matrix, src: Matrix, coefX: real, coefY: real)
    requires SameGrid(src, d0)
  {
    Tracks(cur, d0, FullInterior(src, d0, coefX, coefY), FullInterior(src, src, coefX, coefY))
  }

  /** Row `i` of `cur` is settled for the step from `src` with `newT` starting as `d0`. */
  ghost predicate RowSettled(cur: Matrix, d0: Matrix, src: Matrix, coefX: real, coefY: real, i: int)
    requires SameGrid(src, d0)
  {
    Settled(cur, FullInterior(src, d0, coefX, coefY), FullInterior(src, src, coefX, coefY), i)
  }

  /**
   * A submitted one-step task for range `r`: the range lies in the interior
   * and, when it carries rows, they are the worker's reply to the block
   * extracted from `src`.
   */
  ghost predicate FutureFits(f: Future, r: LineRange, src: Matrix, coefX: real, coefY: real)
  {
    && IsSquare(src, |src|) && 1 <= r.start <= r.end <= |src| - 2
    && (f.Done? ==>
          && f.result.s == r.start && f.result.e == r.end
          && (f.result.block.Some? ==>
                && BlockFits(Some(Extracted(src, r.start - 1, r.end + 1)), r.start, r.end, |src|)
                && f.result.block.value == ComputeBlockResult(Some(Extracted(src, r.start - 1, r.end + 1)), r.start, r.end, |src|, coefX, coefY)))
  }

  /** A future whose range lies in the interior of an `n`-row grid and whose rows, if any, fit that range. */
  predicate FutureInInterior(f: Future, n: int)
  {
    f.Done? ==> 1 <= f.result.s && f.result.e <= n - 2 && (f.result.block.Some? ==> MergeFits(f.result.block.value, f.result.s, f.result.e, n))
  }

  /** Every future answered with the worker's batch reply for its range, computed from `src`. */
  ghost predicate AnsweredFutures(futures: seq<Future>, submitted: seq<LineRange>, src: Matrix, coefX: real, coefY: real, k: int)
    requires IsSquare(src, |src|) && k >= 1
  {
    |futures| == |submitted| &&
    forall p :: 0 <= p < |futures| ==>
      1 <= submitted[p].start <= submitted[p].end <= |src| - 2 &&
      futures[p] == Done(WorkerResult(submitted[p].start, submitted[p].end, Some(BatchReply(src, submitted[p], coefX, coefY, k))))
  }

  /** Appending the answered future of one more range keeps the futures answered. */
  lemma AnsweredFuturesAppend(futures: seq<Future>, submitted: seq<LineRange>, src: Matrix, coefX: real, coefY: real, k: int, r: LineRange)
    requires IsSquare(src, |src|) && k >= 1 && AnsweredFutures(futures, submitted, src, coefX, coefY, k)
    requires 1 <= r.start <= r.end <= |src| - 2
    ensures AnsweredFutures(futures + [Done(WorkerResult(r.start, r.end, Some(BatchReply(src, r, coefX, coefY, k))))],
                            submitted + [r], src, coefX, coefY, k)
  {
    var f := Done(WorkerResult(r.start, r.end, Some(BatchReply(src, r, coefX, coefY, k))));
    forall p | 0 <= p < |futures| + 1
      ensures 1 <= (submitted + [r])[p].start <= (submitted + [r])[p].end <= |src| - 2
      ensures (futures + [f])[p] == Done(WorkerResult((submitted + [r])[p].start, (submitted + [r])[p].end,
                                        Some(BatchReply(src, (submitted + [r])[p], coefX, coefY, k))))
    {
      if p < |futures| {
        assert (futures + [f])[p] == futures[p] && (submitted + [r])[p] == submitted[p];
      }
    }
  }

  /** Appending a range keeps every covered row covered and covers that range's rows. */
  lemma CoveredExtend(rs: seq<LineRange>, x: LineRange, row: int)
    requires Covered(rs, row) || Contains(x, row)
    ensures Covered(rs + [x], row)
  {
    if Covered(rs, row) {
      var k :| 0 <= k < |rs| && Contains(rs[k], row);
      assert (rs + [x])[k] == rs[k];
    } else {
      assert (rs + [x])[|rs|] == x;
    }
  }

  /** A row covered by `rs[k..]` but not by `rs[k]` is covered by `rs[k+1..]`. */
  lemma CoveredTail(rs: seq<LineRange>, k: int, row: int)
    requires 0 <= k < |rs| && Covered(rs[k..], row) && !Contains(rs[k], row)
    ensures Covered(rs[k + 1..], row)
  {
    var p :| 0 <= p < |rs[k..]| && Contains(rs[k..][p], row);
    assert p != 0;
    assert rs[k + 1..][p - 1] == rs[k..][p];
  }

  /**
   * The dispatch loop of one step has reached row `upto`: every row is on
   * track, and every interior row before `upto` is settled or belongs to a
   * submitted range.
   */
  ghost predicate DispatchProgress(cur: Matrix, d0: Matrix, src: Matrix, coefX: real, coefY: real, submitted: seq<LineRange>, upto: int)
    requires SameGrid(src, d0)
  {
    && OnTrack(cur, d0, src, coefX, coefY)
    && forall r :: 1 <= r < upto ==> RowSettled(cur, d0, src, coefX, coefY, r) || Covered(submitted, r)
  }

  /** Computing range `s..e` locally carries the dispatch loop from row `s` to row `e + 1`. */
  lemma DispatchLocal(src: Matrix, d0: Matrix, cur: Matrix, s: int, e: int, coefX: real, coefY: real, submitted: seq<LineRange>)
    requires SameGrid(src, d0) && SameGrid(src, cur) && |cur| == |d0| && 1 <= s <= e <= |d0| - 2
    requires DispatchProgress(cur, d0, src, coefX, coefY, submitted, s)
    ensures DispatchProgress(InteriorUpdate(src, cur, s, e, coefX, coefY), d0, src, coefX, coefY, submitted, e + 1)
  {
    LocalSettles(src, d0, cur, s, e, coefX, coefY);
  }

  /** Submitting range `s..e` carries the dispatch loop from row `s` to row `e + 1`. */
  lemma DispatchSubmit(src: Matrix, d0: Matrix, cur: Matrix, s: int, e: int, coefX: real, coefY: real, submitted: seq<LineRange>)
    requires SameGrid(src, d0)
    requires DispatchProgress(cur, d0, src, coefX, coefY, submitted, s)
    ensures DispatchProgress(cur, d0, src, coefX, coefY, submitted + [LineRange(s, e)], e + 1)
  {
    forall r | 1 <= r < e + 1 && !RowSettled(cur, d0, src, coefX, coefY, r)
      ensures Covered(submitted + [LineRange(s, e)], r)
    {
      CoveredExtend(submitted, LineRange(s, e), r);
    }
  }

  /**
   * The collect loop of one step: every row is on track, and every
   * interior row is settled or belongs to a range still to be collected.
   */
  ghost predicate CollectProgress(cur: Matrix, d0: Matrix, src: Matrix, coefX: real, coefY: real, pending: seq<LineRange>)
    requires SameGrid(src, d0)
  {
    && OnTrack(cur, d0, src, coefX, coefY)
    && forall r :: 1 <= r <= |src| - 2 ==> RowSettled(cur, d0, src, coefX, coefY, r) || Covered(pending, r)
  }

  /** Merging the reply for range `k` moves the collect loop past that range. */
  lemma CollectMerge(src: Matrix, d0: Matrix, cur: Matrix, coefX: real, coefY: real, submitted: seq<LineRange>, k: int, reply: Matrix)
    requires SameGrid(src, d0) && |cur| == |d0| && 0 <= k < |submitted|
    requires 1 <= submitted[k].start <= submitted[k].end <= |d0| - 2
    requires BlockFits(Some(Extracted(src, submitted[k].start - 1, submitted[k].end + 1)), submitted[k].start, submitted[k].end, |d0|)
    requires reply == ComputeBlockResult(Some(Extracted(src, submitted[k].start - 1, submitted[k].end + 1)), submitted[k].start, submitted[k].end, |d0|, coefX, coefY)
    requires CollectProgress(cur, d0, src, coefX, coefY, submitted[k..])
    ensures MergeFits(reply, submitted[k].start, submitted[k].end, |d0|)
    ensures CollectProgress(Merged(cur, submitted[k].start, submitted[k].end, reply), d0, src, coefX, coefY, submitted[k + 1..])
  {
    var s, e := submitted[k].start, submitted[k].end;
    MergeSettles(src, d0, cur, s, e, coefX, coefY, reply);
    var r := Merged(cur, s, e, reply);
    var t1, t2 := FullInterior(src, d0, coefX, coefY), FullInterior(src, src, coefX, coefY);
    assert OnTrack(r, d0, src, coefX, coefY);
    forall row | 1 <= row <= |src| - 2
      ensures RowSettled(r, d0, src, coefX, coefY, row) || Covered(submitted[k + 1..], row)
    {
      if s <= row <= e {
        assert r[row] == t2[row];
        assert Settled(r, t1, t2, row);
      } else {
        assert r[row] == cur[row];
        if !RowSettled(cur, d0, src, coefX, coefY, row) {
          CoveredTail(submitted, k, row);
        }
      }
    }
  }

  /** Computing locally a band that holds range `k` moves the collect loop past that range. */
  lemma CollectLocal(src: Matrix, d0: Matrix, cur: Matrix, s: int, e: int, coefX: real, coefY: real, submitted: seq<LineRange>, k: int)
    requires SameGrid(src, d0) && SameGrid(src, cur) && |cur| == |d0| && InteriorBand(|d0|, s, e) && 0 <= k < |submitted|
    requires s <= submitted[k].start && submitted[k].end <= e
    requires CollectProgress(cur, d0, src, coefX, coefY, submitted[k..])
    ensures CollectProgress(InteriorUpdate(src, cur, s, e, coefX, coefY), d0, src, coefX, coefY, submitted[k + 1..])
  {
    LocalSettles(src, d0, cur, s, e, coefX, coefY);
    var r := InteriorUpdate(src, cur, s, e, coefX, coefY);
    forall row | 1 <= row <= |src| - 2 && !RowSettled(r, d0, src, coefX, coefY, row)
      ensures Covered(submitted[k + 1..], row)
    {
      CoveredTail(submitted, k, row);
    }
  }

  /** Once nothing is pending, every row, the two border rows included, is settled. */
  lemma CollectDone(src: Matrix, d0: Matrix, cur: Matrix, coefX: real, coefY: real)
    requires SameGrid(src, d0) && CollectProgress(cur, d0, src, coefX, coefY, [])
    ensures forall i :: 0 <= i < |d0| ==> RowSettled(cur, d0, src, coefX, coefY, i)
  {
    var n := |d0|;
    var t1 := FullInterior(src, d0, coefX, coefY);
    forall i | 0 <= i < n && (i == 0 || i == n - 1)
      ensures RowSettled(cur, d0, src, coefX, coefY, i)
    {
      assert t1[i] == d0[i];
    }
  }

  /** When `newT` started as a copy of `T`, a grid of settled rows is exactly the sequential engine's interior. */
  lemma SettledRowsAreStep(cur: Matrix, src: Matrix, coefX: real, coefY: real)
    requires IsSquare(src, |src|) && |cur| == |src|
    requires forall i :: 0 <= i < |src| ==> RowSettled(cur, src, src, coefX, coefY, i)
    ensures cur == FullInterior(src, src, coefX, coefY)
  {
    var t := FullInterior(src, src, coefX, coefY);
    forall i | 0 <= i < |src|
      ensures cur[i] == t[i]
    {
      assert RowSettled(cur, src, src, coefX, coefY, i);
    }
  }

  /* ---------------- the cursor loop ---------------- */

  /**
   * The cursor loop after `i` ranges: `done` is that prefix of the
   * partition, the rest is still to come, and `cur` is one past its last row.
   */
  ghost predicate Cursor(n: int, workers: int, done: seq<LineRange>, cur: int, i: int)
    requires n >= 3 && workers >= 1
  {
    && 0 <= i <= Min(workers, n - 2) && |done| == i
    && done + RangesFrom(n, workers, cur, i) == Partition(n, workers)
    && cur == (if i == 0 then 1 else done[i - 1].end + 1)
  }

  /** The partition's ranges numbered `i` onwards, laid out from row `cur`. */
  function RangesFrom(n: int, workers: int, cur: int, i: int): seq<LineRange>
    requires n >= 3 && workers >= 1
  {
    var interior := n - 2;
    var count := Min(workers, interior);
    Chunks(cur, i, count, interior / count, interior % count)
  }

  /** The rows the loop gives range `i`, from the quotient and remainder of the interior size by the worker count. */
  function ChunkLength(interior: int, workers: int, i: int): int
    requires workers >= 1
  {
    interior / workers + (if i < interior % workers then 1 else 0)
  }

  /**
   * While the loop runs, range `i` has `base + (i < rem ? 1 : 0)` rows with
   * `base` and `rem` taken over the worker count, never zero and never past
   * row `n-2`, and it is the partition's next range.
   */
  lemma NextChunk(n: int, workers: int, done: seq<LineRange>, cur: int, i: int)
    requires n >= 3 && workers >= 1 && Cursor(n, workers, done, cur, i)
    requires i < workers && cur <= n - 2
    ensures var chunk := ChunkLength(n - 2, workers, i);
      && chunk >= 1 && 1 <= cur && cur + chunk - 1 <= n - 2
      && Cursor(n, workers, done + [LineRange(cur, cur + chunk - 1)], cur + chunk, i + 1)
  {
    var interior := n - 2;
    var count := Min(workers, interior);
    var base, rem := interior / count, interior % count;
    var p := Partition(n, workers);
    CursorBeforeEnd(n, workers, done, cur, i);
    ChunkSizeAgrees(interior, workers, i);
    var size := base + (if i < rem then 1 else 0);
    var rest := Chunks(cur, i, count, base, rem);
    var next := Chunks(cur + size, i + 1, count, base, rem);
    assert rest == [LineRange(cur, cur + size - 1)] + next;
    assert p[i] == rest[0];
    PartitionInInterior(n, workers);
    assert (done + [LineRange(cur, cur + size - 1)]) + next == p;
  }

  /** The loop's `chunk`, from `base` and `rem` of the interior by the worker count, is the next range's size. */
  lemma ChunkIsNext(n: int, workers: int, done: seq<LineRange>, cur: int, i: int, base: int, rem: int, chunk: int)
    requires n >= 3 && workers >= 1 && Cursor(n, workers, done, cur, i)
    requires i < workers && cur <= n - 2
    requires base == Max(0, n - 2) / workers && rem == Max(0, n - 2) % workers && chunk == base + (if i < rem then 1 else 0)
    ensures chunk >= 1 && 1 <= cur && cur + chunk - 1 <= n - 2
    ensures Cursor(n, workers, done + [LineRange(cur, cur + chunk - 1)], cur + chunk, i + 1)
  {
    assert chunk == ChunkLength(n - 2, workers, i);
    NextChunk(n, workers, done, cur, i);
  }

  /** A cursor inside the interior has not produced every range yet. */
  lemma CursorBeforeEnd(n: int, workers: int, done: seq<LineRange>, cur: int, i: int)
    requires n >= 3 && workers >= 1 && Cursor(n, workers, done, cur, i)
    requires cur <= n - 2
    ensures i < Min(workers, n - 2)
  {
    var interior := n - 2;
    var count := Min(workers, interior);
    if i == count {
      assert Chunks(cur, i, count, interior / count, interior % count) == [];
      PartitionShape(n, workers);
      assert false;
    }
  }

  /** Range `i` gets as many rows from the worker count's quotient and remainder as from the range count's. */
  lemma ChunkSizeAgrees(interior: int, workers: int, i: int)
    requires interior >= 1 && workers >= 1 && 0 <= i < Min(workers, interior)
    ensures var count := Min(workers, interior);
      ChunkLength(interior, workers, i) == interior / count + (if i < interior % count then 1 else 0)
  {
    if workers > interior {
      assert interior / workers == 0 && interior % workers == interior;
      assert interior / interior == 1 && interior % interior == 0;
    }
  }

  /** When the loop stops, it has produced exactly the partition and the cursor is at row `n-1`. */
  lemma CursorExit(n: int, workers: int, done: seq<LineRange>, cur: int, i: int)
    requires n >= 3 && workers >= 1 && Cursor(n, workers, done, cur, i)
    requires !(i < workers && cur <= n - 2)
    ensures done == Partition(n, workers) && cur == n - 1
  {
    var interior := n - 2;
    var count := Min(workers, interior);
    if i < count {
      CursorStartsRange(n, workers, done, cur, i);
    }
    assert Chunks(cur, i, count, interior / count, interior % count) == [];
    assert done == Partition(n, workers);
    PartitionShape(n, workers);
  }

  /** Before the last range, the cursor is where the partition's next range starts. */
  lemma CursorStartsRange(n: int, workers: int, done: seq<LineRange>, cur: int, i: int)
    requires n >= 3 && workers >= 1 && Cursor(n, workers, done, cur, i)
    requires i < Min(workers, n - 2)
    ensures cur == Partition(n, workers)[i].start && cur <= n - 2
  {
    var interior := n - 2;
    var count := Min(workers, interior);
    var rest := Chunks(cur, i, count, interior / count, interior % count);
    assert rest[0].start == cur;
    assert Partition(n, workers)[i] == rest[0];
    PartitionInInterior(n, workers);
  }

  /* ---------------- batches ---------------- */

  /**
   * One fallback round on the pair (`T`, `newT`): rows `s..e` of `newT`
   * recomputed from `T`, then `T` set to `newT` with the edges clamped.
   */
  function Round(st: (Matrix, Matrix), s: int, e: int, b: Borders, coefX: real, coefY: real): (r: (Matrix, Matrix))
    requires SameGrid(st.0, st.1) && InteriorBand(|st.1|, s, e)
    ensures SameGrid(r.0, r.1) && |r.1| == |st.1|
  {
    var nt := InteriorUpdate(st.0, st.1, s, e, coefX, coefY);
    (WithBoundaries(nt, b), nt)
  }

  /** `k` fallback rounds over rows `s..e`. */
  function Rounds(st: (Matrix, Matrix), s: int, e: int, b: Borders, coefX: real, coefY: real, k: nat): (r: (Matrix, Matrix))
    requires SameGrid(st.0, st.1) && InteriorBand(|st.1|, s, e)
    ensures SameGrid(r.0, r.1) && |r.1| == |st.1|
  {
    if k == 0 then st else Round(Rounds(st, s, e, b, coefX, coefY, k - 1), s, e, b, coefX, coefY)
  }

  /** `a` rounds followed by `c` rounds are `a + c` rounds. */
  lemma {:induction false} RoundsAdd(st: (Matrix, Matrix), s: int, e: int, b: Borders, coefX: real, coefY: real, a: nat, c: nat)
    requires SameGrid(st.0, st.1) && InteriorBand(|st.1|, s, e)
    ensures Rounds(Rounds(st, s, e, b, coefX, coefY, a), s, e, b, coefX, coefY, c) == Rounds(st, s, e, b, coefX, coefY, a + c)
  {
    if c > 0 {
      RoundsAdd(st, s, e, b, coefX, coefY, a, c - 1);
    }
  }

  /**
   * When `T` is `newT` with the edges clamped, one round over the whole
   * interior moves `T` to the sequential engine's next generation.
   */
  lemma RoundIsNextGeneration(t: Matrix, nt: Matrix, b: Borders, coefX: real, coefY: real)
    requires SameGrid(t, nt) && t == WithBoundaries(nt, b)
    ensures Round((t, nt), 1, |nt| - 2, b, coefX, coefY).0 == NextGeneration(t, b, coefX, coefY)
  {
    var n := |nt|;
    var upd := InteriorUpdate(t, nt, 1, n - 2, coefX, coefY);
    var r := Round((t, nt), 1, n - 2, b, coefX, coefY).0;
    var g := NextGeneration(t, b, coefX, coefY);
    UpdateWritesOnlyBand(t, nt, 1, n - 2, coefX, coefY);
    BoundariesExact(upd, b);
    BoundariesExact(nt, b);
    forall i, j | 0 <= i < n && 0 <= j < n
      ensures r[i][j] == g[i][j]
    {
      NextGenerationCells(t, b, coefX, coefY, i, j);
    }
    CellsEqual(r, g);
  }

  /**
   * With no worker to call, a batch of `k` local rounds over the whole
   * interior is `k` generations of the sequential engine, and `T` stays
   * `newT` with the edges clamped.
   */
  lemma {:induction false} RoundsAreGenerations(t: Matrix, nt: Matrix, b: Borders, coefX: real, coefY: real, k: nat)
    requires SameGrid(t, nt) && t == WithBoundaries(nt, b)
    ensures var r := Rounds((t, nt), 1, |nt| - 2, b, coefX, coefY, k);
      r.0 == Generations(t, b, coefX, coefY, k) && r.0 == WithBoundaries(r.1, b)
  {
    if k > 0 {
      RoundsAreGenerations(t, nt, b, coefX, coefY, k - 1);
      var prev := Rounds((t, nt), 1, |nt| - 2, b, coefX, coefY, k - 1);
      RoundIsNextGeneration(prev.0, prev.1, b, coefX, coefY);
    }
  }

  /** The rows a worker sends back for range `r` after `k` steps, from the `T` it was sent. */
  function BatchReply(src: Matrix, r: LineRange, coefX: real, coefY: real, k: int): (rows: Matrix)
    requires IsSquare(src, |src|) && 1 <= r.start <= r.end <= |src| - 2 && k >= 1
    ensures |rows| == r.end - r.start + 1 && HasWidth(rows, |src|)
  {
    ExtractedHalo(src, r.start, r.end);
    MultiStepShape(Some(Extracted(src, r.start - 1, r.end + 1)), r.start, r.end, |src|, coefX, coefY, k);
    MultiStepResult(Some(Extracted(src, r.start - 1, r.end + 1)), r.start, r.end, |src|, coefX, coefY, k)
  }

  /** The rows of the first `upto` ranges of `rs` hold their replies. */
  ghost predicate RepliesMerged(m: Matrix, src: Matrix, rs: seq<LineRange>, coefX: real, coefY: real, k: int, upto: int)
    requires IsSquare(src, |src|) && k >= 1
  {
    forall p, i :: 0 <= p < upto && p < |rs| && 1 <= rs[p].start <= i <= rs[p].end <= |src| - 2 ==>
      i < |m| && m[i] == BatchReply(src, rs[p], coefX, coefY, k)[i - rs[p].start]
  }

  /** Every interior row that a range of `rs` covers holds the matching row of that range's reply. */
  ghost predicate MergedReplies(m: Matrix, src: Matrix, rs: seq<LineRange>, coefX: real, coefY: real, k: int)
    requires IsSquare(src, |src|) && k >= 1
  {
    RepliesMerged(m, src, rs, coefX, coefY, k, |rs|)
  }

  /**
   * Merging the answered reply of partition range `k` keeps the replies of
   * the earlier ranges, whose rows it does not touch, and adds its own.
   */
  lemma MergeNextReply(m: Matrix, src: Matrix, rs: seq<LineRange>, workers: int, coefX: real, coefY: real, bs: int, k: int, reply: Matrix)
    requires IsSquare(src, |src|) && |m| == |src| && bs >= 1 && workers >= 1
    requires rs == Partition(|src|, workers) && 0 <= k < |rs| && 1 <= rs[k].start <= rs[k].end <= |src| - 2
    requires reply == BatchReply(src, rs[k], coefX, coefY, bs)
    requires RepliesMerged(m, src, rs, coefX, coefY, bs, k)
    ensures MergeFits(reply, rs[k].start, rs[k].end, |m|)
    ensures RepliesMerged(Merged(m, rs[k].start, rs[k].end, reply), src, rs, coefX, coefY, bs, k + 1)
    ensures Merged(m, rs[k].start, rs[k].end, reply)[0] == m[0]
    ensures Merged(m, rs[k].start, rs[k].end, reply)[|m| - 1] == m[|m| - 1]
  {
    var r := rs[k];
    var mm := Merged(m, r.start, r.end, reply);
    forall p, i | 0 <= p < k + 1 && p < |rs| && 1 <= rs[p].start <= i <= rs[p].end <= |src| - 2
      ensures i < |mm| && mm[i] == BatchReply(src, rs[p], coefX, coefY, bs)[i - rs[p].start]
    {
      if p < k {
        PartitionDisjoint(|src|, workers, p, k, i);
        MergedRowOutside(m, r.start, r.end, reply, i);
      } else {
        MergedRowInside(m, r.start, r.end, reply, i);
      }
    }
  }

  /** Every cache entry is a live worker and every call is answered. */
  predicate AllAnswered(cache: seq<WorkerRef>, outcomes: seq<CallOutcome>)
  {
    |outcomes| == |cache| && forall i :: 0 <= i < |cache| ==> cache[i].Remote? && outcomes[i] == Answered
  }

  /* ---------------- the batch plan ---------------- */

  /** Integer division truncating toward zero, as Java's `/`. */
  function TruncDiv(a: int, d: int): int
    requires d > 0
  {
    if a >= 0 then a / d else -((-a) / d)
  }

  /** The remainder that goes with `TruncDiv`, as Java's `%`: it has the sign of `a`. */
  function TruncRem(a: int, d: int): int
    requires d > 0
  {
    a - d * TruncDiv(a, d)
  }

  /** The batch sizes `runSteps(steps)` issues: `steps/10` full batches, then the remainder when it is positive. */
  function BatchSizes(steps: int): seq<int>
  {
    var full := TruncDiv(steps, BatchSize);
    var rem := TruncRem(steps, BatchSize);
    seq(Max(full, 0), _ => BatchSize) + (if rem > 0 then [rem] else [])
  }

  /** How many batches `runSteps(steps)` issues: the full ones, then one more for a positive remainder. */
  lemma BatchCount(steps: int)
    ensures |BatchSizes(steps)| == Max(TruncDiv(steps, BatchSize), 0) + (if TruncRem(steps, BatchSize) > 0 then 1 else 0)
    ensures BatchSize * Max(TruncDiv(steps, BatchSize), 0) + Max(TruncRem(steps, BatchSize), 0) == Max(steps, 0)
    ensures steps >= 1 <==> TruncDiv(steps, BatchSize) >= 1 || TruncRem(steps, BatchSize) > 0
  {
    TruncSplit(steps);
  }

  /** Java's quotient and remainder by the batch size put `steps` back together; a negative count gives no batch. */
  lemma TruncSplit(steps: int)
    ensures steps == BatchSize * TruncDiv(steps, BatchSize) + TruncRem(steps, BatchSize)
    ensures steps >= 0 ==> TruncDiv(steps, BatchSize) >= 0 && 0 <= TruncRem(steps, BatchSize) < BatchSize
    ensures steps < 0 ==> TruncDiv(steps, BatchSize) <= 0 && TruncRem(steps, BatchSize) <= 0
  {
  }

  /**
   * With no worker to call, the rounds of `runSteps(steps)` (the full
   * batches, then the remainder) are `steps` generations of the sequential
   * engine when `T` starts as `newT` with the edges clamped.
   */
  lemma LocalRunIsGenerations(st: (Matrix, Matrix), b: Borders, coefX: real, coefY: real, steps: int, mid: (Matrix, Matrix), fin: (Matrix, Matrix))
    requires SameGrid(st.0, st.1) && st.0 == WithBoundaries(st.1, b)
    requires mid == Rounds(st, 1, |st.1| - 2, b, coefX, coefY, BatchSize * Max(TruncDiv(steps, BatchSize), 0))
    requires fin == if TruncRem(steps, BatchSize) > 0 then Rounds(mid, 1, |st.1| - 2, b, coefX, coefY, TruncRem(steps, BatchSize)) else mid
    ensures fin.0 == Generations(st.0, b, coefX, coefY, Max(steps, 0))
  {
    var n := |st.1|;
    var full := BatchSize * Max(TruncDiv(steps, BatchSize), 0);
    var rem := TruncRem(steps, BatchSize);
    BatchCount(steps);
    if rem > 0 {
      RoundsAdd(st, 1, n - 2, b, coefX, coefY, full, rem);
      assert full + rem == Max(steps, 0);
      assert fin == Rounds(st, 1, n - 2, b, coefX, coefY, Max(steps, 0));
    } else {
      assert full == Max(steps, 0);
      assert fin == Rounds(st, 1, n - 2, b, coefX, coefY, Max(steps, 0));
    }
    RoundsAreGenerations(st.0, st.1, b, coefX, coefY, Max(steps, 0));
  }

  function Sum(xs: seq<int>): int
  {
    if |xs| == 0 then 0 else Sum(xs[..|xs| - 1]) + xs[|xs| - 1]
  }

  lemma {:induction false} SumOfFull(q: nat)
    ensures Sum(seq(q, _ => BatchSize)) == BatchSize * q
  {
    if q > 0 {
      SumOfFull(q - 1);
      assert seq(q, _ => BatchSize)[..q - 1] == seq(q - 1, _ => BatchSize);
    }
  }

  /**
   * Every batch has between 1 and 10 steps and together they make `steps`
   * (none when `steps <= 0`); all batches but a last partial one are full.
   */
  lemma BatchPlan(steps: int)
    ensures var sizes := BatchSizes(steps);
      && (forall b :: 0 <= b < |sizes| ==> 1 <= sizes[b] <= BatchSize)
      && (forall b :: 0 <= b < |sizes| - 1 ==> sizes[b] == BatchSize)
      && Sum(sizes) == Max(steps, 0)
  {
    var full := TruncDiv(steps, BatchSize);
    var rem := TruncRem(steps, BatchSize);
    var fulls := seq(Max(full, 0), _ => BatchSize);
    TruncSplit(steps);
    SumOfFull(Max(full, 0));
    assert BatchSizes(steps) == fulls + (if rem > 0 then [rem] else []);
    if rem > 0 {
      assert (fulls + [rem])[..|fulls|] == fulls;
      assert Sum(fulls + [rem]) == Sum(fulls) + rem;
    } else {
      assert fulls + [] == fulls;
    }
  }
}
