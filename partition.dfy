/**
 * The row partitioner: the interior rows `1..n-2` split into contiguous,
 * near-equal ranges, one per worker, the first `interior mod count` ranges
 * one row longer than the rest.
 */
module RowPartition {

  /** The inclusive row range `start..end`. */
  datatype LineRange = LineRange(start: int, end: int)

  function Min(a: int, b: int): int { if a < b then a else b }

  function Max(a: int, b: int): int { if a < b then b else a }

  /**
   * The ranges numbered `i..count-1`, laid end to end from row `cur`: range
   * `k` has `base` rows, plus one when `k < rem`.
   */
  function Chunks(cur: int, i: int, count: int, base: int, rem: int): seq<LineRange>
    decreases count - i
  {
    if i >= count then []
    else
      var size := base + (if i < rem then 1 else 0);
      [LineRange(cur, cur + size - 1)] + Chunks(cur + size, i + 1, count, base, rem)
  }

  /** The partition of the interior rows of an `n`-row grid among `workers` workers. */
  function Partition(n: int, workers: int): seq<LineRange>
    requires workers >= 1
  {
    if n - 2 < 1 then []
    else
      var interior := n - 2;
      var count := Min(workers, interior);
      Chunks(1, 0, count, interior / count, interior % count)
  }

  /** A non-empty run of chunks is its first range followed by the chunks after it. */
  lemma ChunksNext(cur: int, i: int, count: int, base: int, rem: int)
    requires i < count
    ensures var size := base + (if i < rem then 1 else 0);
      Chunks(cur, i, count, base, rem) == [LineRange(cur, cur + size - 1)] + Chunks(cur + size, i + 1, count, base, rem)
  {
  }

  /** The partition of a grid with an interior is the chunks of its interior size by the worker count. */
  lemma PartitionFrom(n: int, workers: int, count: int, base: int, rem: int)
    requires workers >= 1 && n >= 3 && count == Min(workers, n - 2)
    requires base == (n - 2) / count && rem == (n - 2) % count
    ensures Partition(n, workers) == Chunks(1, 0, count, base, rem)
  {
  }

  /** Row `row` lies in `r`. */
  predicate Contains(r: LineRange, row: int)
  {
    r.start <= row <= r.end
  }

  /** Some range of `rs` contains row `row`. */
  predicate Covered(rs: seq<LineRange>, row: int)
  {
    exists k :: 0 <= k < |rs| && Contains(rs[k], row)
  }

  /** No range is empty and each starts right after the previous one ends. */
  predicate Contiguous(rs: seq<LineRange>)
  {
    && (forall k :: 0 <= k < |rs| ==> rs[k].start <= rs[k].end)
    && (forall k :: 0 <= k < |rs| - 1 ==> rs[k + 1].start == rs[k].end + 1)
  }

  /** The rows `1..n-2` of an `n`-row grid. */
  predicate InInterior(n: int, r: LineRange)
  {
    1 <= r.start && r.end <= n - 2
  }

  /** `Chunks` lays out one range for each number `i..count-1`. */
  lemma {:induction false} ChunksCount(cur: int, i: int, count: int, base: int, rem: int)
    requires i <= count
    ensures |Chunks(cur, i, count, base, rem)| == count - i
    decreases count - i
  {
    if i < count {
      ChunksCount(cur + base + (if i < rem then 1 else 0), i + 1, count, base, rem);
    }
  }

  /** Range `k` of `Chunks` has `base` rows, plus one when its number is below `rem`. */
  lemma {:induction false} ChunksSizes(cur: int, i: int, count: int, base: int, rem: int)
    ensures var c := Chunks(cur, i, count, base, rem);
      forall k :: 0 <= k < |c| ==> c[k].end - c[k].start + 1 == base + (if i + k < rem then 1 else 0)
    decreases count - i
  {
    if i < count {
      var size := base + (if i < rem then 1 else 0);
      ChunksSizes(cur + size, i + 1, count, base, rem);
      assert var c := Chunks(cur + size, i + 1, count, base, rem);
        forall k :: 0 <= k < |c| ==> c[k].end - c[k].start + 1 == base + (if i + 1 + k < rem then 1 else 0);
      var c := Chunks(cur, i, count, base, rem);
      var tail := Chunks(cur + size, i + 1, count, base, rem);
      assert c == [LineRange(cur, cur + size - 1)] + tail;
      forall k | 0 <= k < |c|
        ensures c[k].end - c[k].start + 1 == base + (if i + k < rem then 1 else 0)
      {
        if k > 0 {
          assert c[k] == tail[k - 1];
        }
      }
    }
  }

  /** The ranges of `Chunks` are non-empty and laid end to end, the first starting at `cur`. */
  lemma {:induction false} ChunksContiguous(cur: int, i: int, count: int, base: int, rem: int)
    requires base >= 1
    ensures var c := Chunks(cur, i, count, base, rem);
      Contiguous(c) && (|c| > 0 ==> c[0].start == cur)
    decreases count - i
  {
    if i < count {
      var size := base + (if i < rem then 1 else 0);
      ChunksContiguous(cur + size, i + 1, count, base, rem);
      var c := Chunks(cur, i, count, base, rem);
      var tail := Chunks(cur + size, i + 1, count, base, rem);
      forall k | 0 < k < |c|
        ensures c[k] == tail[k - 1]
      {
      }
    }
  }

  /** The last range of `Chunks` ends `(count-i)*base + max(rem-i, 0)` rows after `cur - 1`. */
  lemma {:induction false} ChunksEnd(cur: int, i: int, count: int, base: int, rem: int)
    requires i < count && rem <= count
    ensures var c := Chunks(cur, i, count, base, rem);
      |c| > 0 && c[|c| - 1].end == cur - 1 + (count - i) * base + Max(rem - i, 0)
    decreases count - i
  {
    var size := base + (if i < rem then 1 else 0);
    var c := Chunks(cur, i, count, base, rem);
    var tail := Chunks(cur + size, i + 1, count, base, rem);
    assert c == [LineRange(cur, cur + size - 1)] + tail;
    if i + 1 < count {
      ChunksEnd(cur + size, i + 1, count, base, rem);
      assert c[|c| - 1] == tail[|tail| - 1];
      assert (count - i) * base == base + (count - (i + 1)) * base;
    }
  }

  /** Shape of `Chunks`: how many ranges, their sizes, where the first starts and the last ends. */
  lemma ChunksShape(cur: int, i: int, count: int, base: int, rem: int)
    requires 0 <= i <= count && base >= 1 && 0 <= rem <= count
    ensures var c := Chunks(cur, i, count, base, rem);
      && |c| == count - i
      && (forall k :: 0 <= k < |c| ==> c[k].end - c[k].start + 1 == base + (if i + k < rem then 1 else 0))
      && Contiguous(c)
      && (|c| > 0 ==> c[0].start == cur)
      && (|c| > 0 ==> c[|c| - 1].end == cur - 1 + (count - i) * base + Max(rem - i, 0))
  {
    ChunksCount(cur, i, count, base, rem);
    ChunksSizes(cur, i, count, base, rem);
    ChunksContiguous(cur, i, count, base, rem);
    if i < count {
      ChunksEnd(cur, i, count, base, rem);
    }
  }

  /**
   * For `n >= 3` the partition has `min(workers, n-2)` ranges; the first
   * starts at row 1, each later one right after its predecessor, the last
   * ends at row `n-2`; range `k` has `base` rows, plus one exactly when
   * `k < rem`, where `base` and `rem` are the quotient and remainder of the
   * interior size by the range count.
   */
  lemma PartitionShape(n: int, workers: int)
    requires workers >= 1 && n >= 3
    ensures var p := Partition(n, workers);
      var count := Min(workers, n - 2);
      && |p| == count
      && p[0].start == 1
      && p[|p| - 1].end == n - 2
      && Contiguous(p)
      && (forall k :: 0 <= k < |p| ==>
            p[k].end - p[k].start + 1 == (n - 2) / count + (if k < (n - 2) % count then 1 else 0))
  {
    var interior := n - 2;
    var count := Min(workers, interior);
    var base, rem := interior / count, interior % count;
    QuotientSplit(interior, count);
    ChunksShape(1, 0, count, base, rem);
    var c := Chunks(1, 0, count, base, rem);
    assert Partition(n, workers) == c;
    assert c[|c| - 1].end == count * base + rem;
  }

  /** Dividing `interior` rows among `count <= interior` ranges leaves at least one row each. */
  lemma QuotientSplit(interior: int, count: int)
    requires 1 <= count <= interior
    ensures interior / count >= 1 && 0 <= interior % count < count
    ensures count * (interior / count) + interior % count == interior
  {
  }

  /** For `n < 3` there is no interior and no range. */
  lemma PartitionOfNoInterior(n: int, workers: int)
    requires workers >= 1 && n < 3
    ensures Partition(n, workers) == []
  {
  }

  /** Later ranges of a contiguous list lie strictly after earlier ones. */
  lemma {:induction false} ContiguousOrdered(rs: seq<LineRange>, k1: int, k2: int)
    requires Contiguous(rs)
    requires 0 <= k1 < k2 < |rs|
    ensures rs[k1].end < rs[k2].start
    decreases k2 - k1
  {
    if k1 + 1 < k2 {
      ContiguousOrdered(rs, k1 + 1, k2);
    }
  }

  /** A contiguous list covers exactly the rows from its first start to its last end. */
  lemma {:induction false} ContiguousCovers(rs: seq<LineRange>, row: int)
    requires Contiguous(rs) && |rs| > 0
    ensures Covered(rs, row) <==> rs[0].start <= row <= rs[|rs| - 1].end
    decreases |rs|
  {
    var last := |rs| - 1;
    if Covered(rs, row) {
      var k :| 0 <= k < |rs| && Contains(rs[k], row);
      if k > 0 {
        ContiguousOrdered(rs, 0, k);
      }
      if k < last {
        ContiguousOrdered(rs, k, last);
      }
    }
    if rs[0].start <= row <= rs[last].end && row > rs[0].end {
      assert |rs| > 1;
      var tail := rs[1..];
      assert Contiguous(tail) by {
        forall k | 0 <= k < |tail| - 1
          ensures tail[k + 1].start == tail[k].end + 1
        {
          assert tail[k] == rs[k + 1] && tail[k + 1] == rs[k + 2];
        }
      }
      ContiguousCovers(tail, row);
      var k :| 0 <= k < |tail| && Contains(tail[k], row);
      assert Contains(rs[k + 1], row);
    }
  }

  /** The partition covers exactly the interior rows `1..n-2` (for every `n`). */
  lemma PartitionCovers(n: int, workers: int, row: int)
    requires workers >= 1
    ensures Covered(Partition(n, workers), row) <==> 1 <= row <= n - 2
  {
    if n >= 3 {
      PartitionShape(n, workers);
      ContiguousCovers(Partition(n, workers), row);
    }
  }

  /** Two different ranges of the partition share no row. */
  lemma PartitionDisjoint(n: int, workers: int, k1: int, k2: int, row: int)
    requires workers >= 1
    requires 0 <= k1 < |Partition(n, workers)| && 0 <= k2 < |Partition(n, workers)| && k1 != k2
    ensures !(Contains(Partition(n, workers)[k1], row) && Contains(Partition(n, workers)[k2], row))
  {
    PartitionShape(n, workers);
    if k1 < k2 {
      ContiguousOrdered(Partition(n, workers), k1, k2);
    } else {
      ContiguousOrdered(Partition(n, workers), k2, k1);
    }
  }

  /** Every range of the partition is a non-empty band of interior rows. */
  lemma PartitionInInterior(n: int, workers: int)
    requires workers >= 1
    ensures forall k :: 0 <= k < |Partition(n, workers)| ==>
      InInterior(n, Partition(n, workers)[k]) && Partition(n, workers)[k].start <= Partition(n, workers)[k].end
  {
    var p := Partition(n, workers);
    if n >= 3 {
      PartitionShape(n, workers);
      forall k | 0 <= k < |p|
        ensures InInterior(n, p[k])
      {
        if k > 0 {
          ContiguousOrdered(p, 0, k);
        }
        if k < |p| - 1 {
          ContiguousOrdered(p, k, |p| - 1);
        }
      }
    }
  }
}
