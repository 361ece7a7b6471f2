/** The row partition of the parallel program: `NUM_PROCESSES` x
    `NUM_THREADS_PER_PROCESS` workers, each given a band of
    `height / 16` consecutive rows. */
module Partition {
  import opened Arith

  const Processes: nat := 4
  const ThreadsPerProcess: nat := 4
  /** Number of workers, one per (process, thread) pair. */
  const Workers: nat := Processes * ThreadsPerProcess

  /** The rows `[start, end)` of one worker. */
  datatype Band = Band(start: nat, end: nat) {
    predicate Contains(y: nat) {
      start <= y < end
    }
    predicate Empty() {
      end <= start
    }
  }

  /** `rows_per_thread`. */
  function RowsPerThread(height: nat): nat {
    height / Workers
  }

  /** Worker (i, j), the k = 4*i + j-th worker, gets rows
      `[k * rows_per_thread, (k + 1) * rows_per_thread)`; the clamp to
      `height` never changes the end row. */
  function WorkerBand(height: nat, i: nat, j: nat): (b: Band)
    requires i < Processes && j < ThreadsPerProcess
    ensures b.start == (ThreadsPerProcess * i + j) * RowsPerThread(height)
    ensures b.end == (ThreadsPerProcess * i + j + 1) * RowsPerThread(height)
    ensures b.end <= height
  {
    var rpt := RowsPerThread(height);
    var start := i * ThreadsPerProcess * rpt + j * rpt;
    var end := start + rpt;
    UnclampedEndFits(height, ThreadsPerProcess * i + j);
    assert end == (ThreadsPerProcess * i + j + 1) * rpt;
    Band(start, if end > height then height else end)
  }

  /** Before the clamp, every worker's end row is already at most `height`. */
  lemma UnclampedEndFits(height: nat, k: nat)
    requires k < Workers
    ensures (k + 1) * RowsPerThread(height) <= Workers * RowsPerThread(height) <= height
  {
    MulMono(k + 1, Workers, RowsPerThread(height));
  }

  /** All workers' bands, in the order the nested `i`, `j` loops create them. */
  function Bands(height: nat): (bs: seq<Band>)
    ensures |bs| == Workers
  {
    seq(Workers, k requires 0 <= k < Workers => WorkerBand(height, k / ThreadsPerProcess, k % ThreadsPerProcess))
  }

  /** Band `k` of the row-major worker order is `[k * rpt, (k + 1) * rpt)`. */
  lemma BandAt(height: nat, k: nat)
    requires k < Workers
    ensures Bands(height)[k] == Band(k * RowsPerThread(height), (k + 1) * RowsPerThread(height))
  {
    assert ThreadsPerProcess * (k / ThreadsPerProcess) + k % ThreadsPerProcess == k;
  }

  /** Consecutive workers get adjacent bands: worker 0 starts at row 0, each
      worker ends where the next one starts, and the last one ends at
      `16 * (height / 16)`. */
  lemma BandsContiguous(height: nat)
    ensures Bands(height)[0].start == 0
    ensures forall k | 0 <= k < Workers - 1 :: Bands(height)[k].end == Bands(height)[k + 1].start
    ensures Bands(height)[Workers - 1].end == Workers * RowsPerThread(height)
  {
    BandAt(height, 0);
    forall k | 0 <= k < Workers - 1
      ensures Bands(height)[k].end == Bands(height)[k + 1].start
    {
      BandAt(height, k);
      BandAt(height, k + 1);
    }
    BandAt(height, Workers - 1);
  }

  /** No row belongs to two workers. */
  lemma BandsDisjoint(height: nat, k: nat, l: nat, y: nat)
    requires k < Workers && l < Workers && k != l
    ensures !(Bands(height)[k].Contains(y) && Bands(height)[l].Contains(y))
  {
    var rpt := RowsPerThread(height);
    BandAt(height, k);
    BandAt(height, l);
    if k < l {
      MulMono(k + 1, l, rpt);
    } else {
      MulMono(l + 1, k, rpt);
    }
  }

  /** A row is processed by some worker exactly when it lies below
      `16 * (height / 16)`. */
  lemma CoveredIff(height: nat, y: nat)
    ensures (exists k | 0 <= k < Workers :: Bands(height)[k].Contains(y)) <==> y < Workers * RowsPerThread(height)
  {
    var rpt := RowsPerThread(height);
    if y < Workers * rpt {
      var k := CoveringWorker(height, y, Workers - 1);
      assert Bands(height)[k].Contains(y);
    } else {
      forall k | 0 <= k < Workers
        ensures !Bands(height)[k].Contains(y)
      {
        BandAt(height, k);
        UnclampedEndFits(height, k);
      }
    }
  }

  /** The worker whose band holds row `y`, searched among workers `0..last`. */
  lemma {:induction false} CoveringWorker(height: nat, y: nat, last: nat) returns (k: nat)
    requires last < Workers && y < (last + 1) * RowsPerThread(height)
    ensures k <= last && Bands(height)[k].Contains(y)
  {
    BandAt(height, last);
    if y >= last * RowsPerThread(height) {
      k := last;
    } else {
      k := CoveringWorker(height, y, last - 1);
    }
  }

  /** The remainder rows `[16 * (height / 16), height)` (at most 15 of them)
      belong to no worker. */
  lemma RemainderNeverProcessed(height: nat, y: nat)
    requires Workers * RowsPerThread(height) <= y < height
    ensures height - Workers * RowsPerThread(height) < Workers
    ensures forall k | 0 <= k < Workers :: !Bands(height)[k].Contains(y)
  {
    CoveredIff(height, y);
  }

  /** A 17-row image: row 16 belongs to no worker. */
  lemma SeventeenRowsLeaveLastRow()
    ensures forall k | 0 <= k < Workers :: Bands(17)[k] == Band(k, k + 1)
    ensures forall k | 0 <= k < Workers :: !Bands(17)[k].Contains(16)
  {
    forall k | 0 <= k < Workers
      ensures Bands(17)[k] == Band(k, k + 1)
    {
      BandAt(17, k);
    }
  }

  /** An image shorter than 16 rows gives every worker an empty band. */
  lemma ShortImageEmptyBands(height: nat)
    requires height < Workers
    ensures forall k | 0 <= k < Workers :: Bands(height)[k] == Band(0, 0)
  {
    forall k | 0 <= k < Workers
      ensures Bands(height)[k] == Band(0, 0)
    {
      BandAt(height, k);
    }
  }

  // ---- the corrected partition ----

  /** The partition the clamp evidently aimed at: as written, except that the
      last worker's band runs to `height` and absorbs the remainder rows. */
  function FixedBands(height: nat): (bs: seq<Band>)
    ensures |bs| == Workers
  {
    var bs := Bands(height);
    bs[Workers - 1 := Band(bs[Workers - 1].start, height)]
  }

  /** Band `k` of the corrected partition: as written for the first fifteen
      workers, and from the last worker's start row to `height` for the last. */
  lemma FixedBandAt(height: nat, k: nat)
    requires k < Workers
    ensures FixedBands(height)[k] == if k == Workers - 1
      then Band((Workers - 1) * RowsPerThread(height), height)
      else Band(k * RowsPerThread(height), (k + 1) * RowsPerThread(height))
  {
    BandAt(height, k);
    BandAt(height, Workers - 1);
  }

  lemma FixedBandsContiguous(height: nat)
    ensures FixedBands(height)[0].start == 0 && FixedBands(height)[Workers - 1].end == height
    ensures forall k | 0 <= k < Workers - 1 :: FixedBands(height)[k].end == FixedBands(height)[k + 1].start
  {
    BandsContiguous(height);
    FixedBandAt(height, Workers - 1);
  }

  lemma FixedBandsCover(height: nat, y: nat)
    ensures (exists k | 0 <= k < Workers :: FixedBands(height)[k].Contains(y)) <==> y < height
  {
    var rpt := RowsPerThread(height);
    UnclampedEndFits(height, Workers - 1);
    if y < height {
      if y < (Workers - 1) * rpt {
        var k := CoveringWorker(height, y, Workers - 2);
        FixedBandAt(height, k);
        BandAt(height, k);
        assert FixedBands(height)[k].Contains(y);
      } else {
        FixedBandAt(height, Workers - 1);
        assert FixedBands(height)[Workers - 1].Contains(y);
      }
    } else {
      forall k | 0 <= k < Workers
        ensures !FixedBands(height)[k].Contains(y)
      {
        FixedBandAt(height, k);
        UnclampedEndFits(height, k);
      }
    }
  }

  lemma FixedBandsDisjoint(height: nat, y: nat)
    ensures forall k, l | 0 <= k < l < Workers :: !(FixedBands(height)[k].Contains(y) && FixedBands(height)[l].Contains(y))
  {
    var rpt := RowsPerThread(height);
    forall k, l | 0 <= k < l < Workers
      ensures !(FixedBands(height)[k].Contains(y) && FixedBands(height)[l].Contains(y))
    {
      FixedBandAt(height, k);
      FixedBandAt(height, l);
      MulMono(k + 1, l, rpt);
    }
  }

  /** With the corrected partition the bands are adjacent and every row
      `[0, height)` belongs to exactly one worker. */
  lemma FixedBandsPartition(height: nat, y: nat)
    ensures FixedBands(height)[0].start == 0 && FixedBands(height)[Workers - 1].end == height
    ensures forall k | 0 <= k < Workers - 1 :: FixedBands(height)[k].end == FixedBands(height)[k + 1].start
    ensures (exists k | 0 <= k < Workers :: FixedBands(height)[k].Contains(y)) <==> y < height
    ensures forall k, l | 0 <= k < l < Workers :: !(FixedBands(height)[k].Contains(y) && FixedBands(height)[l].Contains(y))
  {
    FixedBandsContiguous(height);
    FixedBandsCover(height, y);
    FixedBandsDisjoint(height, y);
  }
}
