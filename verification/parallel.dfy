/** The parallel program: sixteen workers, each running the grayscale pass
    `Iterations` times over its own row band, started and awaited through one
    start and one done semaphore per worker. Threads are modelled as a
    sequential protocol in which the workers finish in an arbitrary order. */
module Parallel {
  import opened Wrappers
  import opened Raster
  import opened Traversal
  import opened Grayscale
  import opened Partition

  /** Passes each worker makes over its band. */
  const Iterations: nat := 10000

  /** `process_image` after its start permit: `iterations` row-major passes over
      the band, each pixel updated in place by the loop body. */
  method ProcessImage(img: Image, band: Band, luma: Luma, iterations: nat) returns (r: Image)
    requires img.Valid() && band.end <= img.height
    ensures r == Transform(img, luma, BandPasses(band.start, band.end, iterations))
  {
    r := img;
    ProgressStart(img, luma, band.start, band.end);
    var iteration := 0;
    while iteration < iterations
      invariant iteration <= iterations
      invariant r == Transform(img, luma, Progress(band.start, band.end, iteration, band.start, 0))
    {
      r := ConvertPass(img, luma, band.start, band.end, iteration, r);
      iteration := iteration + 1;
    }
    ProgressDone(img, luma, band.start, band.end, iterations);
  }

  /** The traversal `process_image` makes, as a sequence of pixel visits. */
  function WorkerSchedule(width: nat, band: Band): (s: seq<Pos>)
    ensures forall q | q in s :: band.Contains(q.y) && q.x < width
  {
    RepeatedWithin(RowMajor(width, band.start, band.end), Iterations);
    RowMajorWithin(width, band.start, band.end);
    Repeated(RowMajor(width, band.start, band.end), Iterations)
  }

  // ---- the start/done protocol ----

  /** One worker: its band and whether its start and done semaphores have been posted. */
  datatype WorkerState = WorkerState(band: Band, started: bool, done: bool)

  /** The shared buffer and the workers. */
  datatype Engine = Engine(img: Image, workers: seq<WorkerState>)

  /** The buffer is valid and every band lies inside the image. */
  predicate Wf(e: Engine) {
    e.img.Valid() && forall k | 0 <= k < |e.workers| :: e.workers[k].band.end <= e.img.height
  }

  /** Thread creation: one worker per band, both semaphores initialised to zero. */
  function Setup(img: Image, bands: seq<Band>): (e: Engine)
    ensures e.img == img && |e.workers| == |bands|
    ensures forall k | 0 <= k < |bands| :: e.workers[k] == WorkerState(bands[k], false, false)
  {
    Engine(img, seq(|bands|, k requires 0 <= k < |bands| => WorkerState(bands[k], false, false)))
  }

  /** The main thread posts every start semaphore. */
  function PostStarts(e: Engine): (r: Engine)
    ensures r.img == e.img && |r.workers| == |e.workers|
    ensures forall k | 0 <= k < |e.workers| :: r.workers[k] == e.workers[k].(started := true)
  {
    e.(workers := seq(|e.workers|, k requires 0 <= k < |e.workers| => e.workers[k].(started := true)))
  }

  /** Worker `k` runs to completion: it needs its start permit, runs its
      passes and posts its done semaphore. A worker that has not been started,
      or has already finished, cannot be the next to complete. */
  function RunWorker(e: Engine, k: nat, luma: Luma): (r: Option<Engine>)
    requires Wf(e)
    ensures r.Some? <==> k < |e.workers| && e.workers[k].started && !e.workers[k].done
    ensures r.Some? ==> Wf(r.value) && r.value.img.SameShape(e.img) && |r.value.workers| == |e.workers|
    ensures r.Some? ==> forall l | 0 <= l < |e.workers| ::
      r.value.workers[l] == if l == k then e.workers[l].(done := true) else e.workers[l]
  {
    if k < |e.workers| && e.workers[k].started && !e.workers[k].done then
      var band := e.workers[k].band;
      BandScheduleIsTransform(e.img, band.start, band.end, Iterations, luma);
      Some(e.(img := ApplyInOrder(e.img, WorkerSchedule(e.img.width, band), luma),
              workers := e.workers[k := e.workers[k].(done := true)]))
    else
      None
  }

  /** The workers complete in the order `order`. `None` when that order is
      impossible (an unknown worker, or one completing twice). */
  function RunAll(e: Engine, order: seq<nat>, luma: Luma): (r: Option<Engine>)
    requires Wf(e)
    ensures r.Some? ==> Wf(r.value) && r.value.img.SameShape(e.img) && |r.value.workers| == |e.workers|
    ensures r.Some? ==> forall k | 0 <= k < |e.workers| ::
      r.value.workers[k].band == e.workers[k].band && r.value.workers[k].started == e.workers[k].started
  {
    if order == [] then Some(e)
    else
      match RunAll(e, order[..|order| - 1], luma)
      case None => None
      case Some(e') => RunWorker(e', order[|order| - 1], luma)
  }

  /** The main thread waits on every done semaphore; it gets past the loop
      only when every worker has posted. */
  function AwaitAll(e: Engine): (r: Option<Image>)
    ensures r.Some? <==> forall k | 0 <= k < |e.workers| :: e.workers[k].done
    ensures r.Some? ==> r.value == e.img
  {
    if forall k | 0 <= k < |e.workers| :: e.workers[k].done then Some(e.img) else None
  }

  /** The parallel program from thread creation to the buffer handed to the
      encoder, for a given partition and worker completion order. */
  function ParallelRun(img: Image, bands: seq<Band>, luma: Luma, order: seq<nat>): (r: Option<Image>)
    requires img.Valid() && forall k | 0 <= k < |bands| :: bands[k].end <= img.height
    ensures r.Some? <==> IsSchedule(order, |bands|)
    ensures r.Some? ==> r.value.Valid() && r.value.SameShape(img)
  {
    RunAllOutcome(PostStarts(Setup(img, bands)), order, luma);
    match RunAll(PostStarts(Setup(img, bands)), order, luma)
    case None => None
    case Some(e) => AwaitAll(e)
  }

  /** `main` of the parallel program after a successful read, with the
      partition as written: the buffer reaches the encoder exactly when every
      one of the 16 workers completes once. */
  function ParallelMain(img: Image, luma: Luma, order: seq<nat>): (r: Option<Image>)
    requires img.Valid()
    ensures r.Some? <==> IsSchedule(order, Workers)
    ensures r.Some? ==> r.value.Valid() && r.value.SameShape(img)
  {
    ParallelRun(img, Bands(img.height), luma, order)
  }

  /** The same program with the corrected partition. */
  function ParallelMainFixed(img: Image, luma: Luma, order: seq<nat>): Option<Image>
    requires img.Valid()
  {
    FixedBandsPartition(img.height, 0);
    ParallelRun(img, FixedBands(img.height), luma, order)
  }

  // ---- what the protocol computes ----

  /** An order in which every one of `n` workers completes exactly once. */
  predicate IsSchedule(order: seq<nat>, n: nat) {
    && (forall i | 0 <= i < |order| :: order[i] < n)
    && (forall i, j | 0 <= i < j < |order| :: order[i] != order[j])
    && (forall k | 0 <= k < n :: k in order)
  }

  /** No row is in two bands. */
  ghost predicate Disjoint(bands: seq<Band>) {
    forall k, l, y: nat | 0 <= k < |bands| && 0 <= l < |bands| && k != l :: !(bands[k].Contains(y) && bands[l].Contains(y))
  }

  /** The workers' bands. */
  function BandsOf(e: Engine): (bs: seq<Band>)
    ensures |bs| == |e.workers| && forall k | 0 <= k < |bs| :: bs[k] == e.workers[k].band
  {
    seq(|e.workers|, k requires 0 <= k < |e.workers| => e.workers[k].band)
  }

  /** Pixels on a row some finished worker owns are visited `Iterations` times. */
  function DoneVisits(e: Engine): Pos -> nat {
    (p: Pos) => if exists k | 0 <= k < |e.workers| :: e.workers[k].done && e.workers[k].band.Contains(p.y) then Iterations else 0
  }

  /** Pixels on a row some band owns are visited `Iterations` times. */
  function CoverVisits(bands: seq<Band>): Pos -> nat {
    (p: Pos) => if Owned(bands, p.y) then Iterations else 0
  }

  /** The protocol invariant: the buffer holds exactly the finished workers' passes. */
  ghost predicate Tracks(e: Engine, img: Image, luma: Luma) {
    Wf(e) && img.Valid() && e.img == Transform(img, luma, DoneVisits(e))
  }

  lemma RunWorkerTracks(e: Engine, img: Image, k: nat, luma: Luma)
    requires Tracks(e, img, luma) && RunWorker(e, k, luma).Some?
    requires Disjoint(BandsOf(e))
    ensures Tracks(RunWorker(e, k, luma).value, img, luma)
  {
    var e' := RunWorker(e, k, luma).value;
    var band := e.workers[k].band;
    var bands := BandsOf(e);
    BandScheduleIsTransform(e.img, band.start, band.end, Iterations, luma);
    TransformCompose(img, luma, DoneVisits(e), BandPasses(band.start, band.end, Iterations));
    forall y: nat, x: nat | y < img.height && x < img.width
      ensures Plus(DoneVisits(e), BandPasses(band.start, band.end, Iterations))(Pos(y, x)) == DoneVisits(e')(Pos(y, x))
    {
      if band.Contains(y) {
        forall l | 0 <= l < |e.workers| && e.workers[l].done
          ensures !e.workers[l].band.Contains(y)
        {
          assert bands[l] == e.workers[l].band && bands[k] == band;
        }
        assert e'.workers[k].done;
      } else {
        forall l | 0 <= l < |e.workers|
          ensures (e'.workers[l].done && e'.workers[l].band.Contains(y)) == (e.workers[l].done && e.workers[l].band.Contains(y))
        {
        }
      }
    }
    TransformExt(img, luma, Plus(DoneVisits(e), BandPasses(band.start, band.end, Iterations)), DoneVisits(e'));
  }

  lemma {:induction false} RunAllTracks(e: Engine, img: Image, order: seq<nat>, luma: Luma)
    requires Tracks(e, img, luma) && Disjoint(BandsOf(e)) && RunAll(e, order, luma).Some?
    ensures Tracks(RunAll(e, order, luma).value, img, luma)
    ensures BandsOf(RunAll(e, order, luma).value) == BandsOf(e)
    decreases |order|
  {
    if order != [] {
      var front := order[..|order| - 1];
      RunAllTracks(e, img, front, luma);
      RunWorkerTracks(RunAll(e, front, luma).value, img, order[|order| - 1], luma);
    }
  }

  /** The completion orders the protocol admits from `e`: every worker named
      exists and has not finished yet, and no worker is named twice. */
  predicate Admissible(e: Engine, order: seq<nat>) {
    && (forall i | 0 <= i < |order| :: order[i] < |e.workers| && !e.workers[order[i]].done)
    && (forall i, j | 0 <= i < j < |order| :: order[i] != order[j])
  }

  /** An order stays admissible after one more completion exactly when that
      worker exists, was not done at the start and has not completed yet. */
  lemma AdmissibleSnoc(e: Engine, front: seq<nat>, last: nat)
    ensures Admissible(e, front + [last]) <==>
      Admissible(e, front) && last < |e.workers| && !e.workers[last].done && last !in front
  {
    var order := front + [last];
    assert forall i | 0 <= i < |front| :: order[i] == front[i];
    assert order[|front|] == last;
    assert last in front <==> exists i | 0 <= i < |front| :: front[i] == last;
  }

  /** Which completion orders the protocol admits, and which workers have
      posted done afterwards: exactly the admissible orders succeed, and
      afterwards exactly the workers already done or named in `order` are
      done. */
  lemma {:induction false} RunAllOutcome(e: Engine, order: seq<nat>, luma: Luma)
    requires Wf(e) && forall k | 0 <= k < |e.workers| :: e.workers[k].started
    ensures RunAll(e, order, luma).Some? <==> Admissible(e, order)
    ensures RunAll(e, order, luma).Some? ==> forall k | 0 <= k < |e.workers| ::
      RunAll(e, order, luma).value.workers[k].done <==> (e.workers[k].done || k in order)
    decreases |order|
  {
    if order != [] {
      var front, last := order[..|order| - 1], order[|order| - 1];
      assert order == front + [last];
      RunAllOutcome(e, front, luma);
      AdmissibleSnoc(e, front, last);
      var r := RunAll(e, front, luma);
      if r.Some? && RunWorker(r.value, last, luma).Some? {
        forall k | 0 <= k < |e.workers|
          ensures k in order <==> k in front || k == last
        {
        }
      }
    }
  }

  /** The parallel run for any disjoint partition: `main` gets past its done
      loop and writes the buffer exactly when every worker completes once, and
      the buffer it writes then holds `Iterations` passes over every row some
      band owns and the original bytes elsewhere. */
  lemma ParallelRunResult(img: Image, bands: seq<Band>, luma: Luma, order: seq<nat>)
    requires img.Valid() && forall k | 0 <= k < |bands| :: bands[k].end <= img.height
    requires Disjoint(bands)
    ensures ParallelRun(img, bands, luma, order).Some? <==> IsSchedule(order, |bands|)
    ensures ParallelRun(img, bands, luma, order).Some? ==>
      ParallelRun(img, bands, luma, order).value == Transform(img, luma, CoverVisits(bands))
  {
    var e0 := PostStarts(Setup(img, bands));
    assert BandsOf(e0) == bands;
    TransformNone(img, luma, DoneVisits(e0));
    assert Tracks(e0, img, luma);
    RunAllOutcome(e0, order, luma);
    var r := RunAll(e0, order, luma);
    if r.Some? {
      RunAllTracks(e0, img, order, luma);
      var e := r.value;
      if AwaitAll(e).Some? {
        forall y: nat, x: nat | y < img.height && x < img.width
          ensures DoneVisits(e)(Pos(y, x)) == CoverVisits(bands)(Pos(y, x))
        {
          assert forall k | 0 <= k < |bands| :: e.workers[k].done && e.workers[k].band == bands[k];
        }
        TransformExt(img, luma, DoneVisits(e), CoverVisits(bands));
      }
    }
  }

  lemma BandsAreDisjoint(height: nat)
    ensures Disjoint(Bands(height))
  {
    forall k, l, y: nat | 0 <= k < Workers && 0 <= l < Workers && k != l
      ensures !(Bands(height)[k].Contains(y) && Bands(height)[l].Contains(y))
    {
      BandsDisjoint(height, k, l, y);
    }
  }

  /** `main` as written: it writes the buffer exactly when every one of the 16
      workers completes once, and the rows it has processed are exactly
      `[0, 16 * (height / 16))`; the remainder rows keep their original bytes. */
  lemma ParallelMainResult(img: Image, luma: Luma, order: seq<nat>)
    requires img.Valid()
    ensures ParallelMain(img, luma, order).Some? <==> IsSchedule(order, Workers)
    ensures ParallelMain(img, luma, order).Some? ==>
      ParallelMain(img, luma, order).value == Transform(img, luma, BandPasses(0, Workers * RowsPerThread(img.height), Iterations))
  {
    var bands := Bands(img.height);
    forall k | 0 <= k < |bands|
      ensures bands[k].end <= img.height
    {
      BandAt(img.height, k);
      UnclampedEndFits(img.height, k);
    }
    BandsAreDisjoint(img.height);
    ParallelRunResult(img, bands, luma, order);
    forall y: nat, x: nat | y < img.height && x < img.width
      ensures CoverVisits(bands)(Pos(y, x)) == BandPasses(0, Workers * RowsPerThread(img.height), Iterations)(Pos(y, x))
    {
      CoveredIff(img.height, y);
    }
    TransformExt(img, luma, CoverVisits(bands), BandPasses(0, Workers * RowsPerThread(img.height), Iterations));
  }

  /** The whole of `main`: a failed read (no buffer) returns 1 before any
      thread is created and writes nothing; otherwise the buffer written is
      rows `[0, 16 * (height / 16))` converted `Iterations` times. `None`
      means no output file is written. */
  function ParallelProgram(decoded: Option<Image>, luma: Luma, order: seq<nat>): (w: Option<Image>)
    requires decoded.Some? ==> decoded.value.Valid()
    ensures decoded.None? ==> w.None?
    ensures decoded.Some? ==> (w.Some? <==> IsSchedule(order, Workers))
    ensures decoded.Some? && w.Some? ==>
      w.value == Transform(decoded.value, luma, BandPasses(0, Workers * RowsPerThread(decoded.value.height), Iterations))
  {
    match decoded
    case None => None
    case Some(img) =>
      ParallelMainResult(img, luma, order);
      ParallelMain(img, luma, order)
  }

  /** With fewer than 16 rows every band is empty and the buffer written is the
      buffer read. */
  lemma ShortImageUnchanged(img: Image, luma: Luma, order: seq<nat>)
    requires img.Valid() && img.height < Workers && IsSchedule(order, Workers)
    ensures ParallelMain(img, luma, order) == Some(img)
  {
    ParallelMainResult(img, luma, order);
    var processed := Workers * RowsPerThread(img.height);
    assert processed == 0;
    TransformNone(img, luma, BandPasses(0, processed, Iterations));
  }

  /** With the corrected partition the parallel program processes every row:
      its output is `Iterations` passes over the whole image. */
  lemma ParallelMainFixedResult(img: Image, luma: Luma, order: seq<nat>)
    requires img.Valid()
    ensures ParallelMainFixed(img, luma, order).Some? <==> IsSchedule(order, Workers)
    ensures ParallelMainFixed(img, luma, order).Some? ==>
      ParallelMainFixed(img, luma, order).value == Transform(img, luma, BandPasses(0, img.height, Iterations))
  {
    var bands := FixedBands(img.height);
    FixedBandsPartition(img.height, 0);
    forall k, l, y: nat | 0 <= k < Workers && 0 <= l < Workers && k != l
      ensures !(bands[k].Contains(y) && bands[l].Contains(y))
    {
      FixedBandsPartition(img.height, y);
      if k > l {
        assert !(bands[l].Contains(y) && bands[k].Contains(y));
      }
    }
    ParallelRunResult(img, bands, luma, order);
    forall y: nat, x: nat | y < img.height && x < img.width
      ensures CoverVisits(bands)(Pos(y, x)) == BandPasses(0, img.height, Iterations)(Pos(y, x))
    {
      FixedBandsPartition(img.height, y);
    }
    TransformExt(img, luma, CoverVisits(bands), BandPasses(0, img.height, Iterations));
  }

  // ---- interleavings at pixel granularity ----

  /** Every worker's traversal, one after the other. */
  function AllWork(width: nat, bands: seq<Band>): seq<Pos> {
    if bands == [] then [] else AllWork(width, bands[..|bands| - 1]) + WorkerSchedule(width, bands[|bands| - 1])
  }

  /** Some band of `bands` holds row `y`. */
  predicate Owned(bands: seq<Band>, y: nat) {
    exists k | 0 <= k < |bands| :: bands[k].Contains(y)
  }

  lemma WorkerScheduleCount(width: nat, band: Band, p: Pos)
    ensures Count(WorkerSchedule(width, band), p) == if p.x < width && band.Contains(p.y) then Iterations else 0
  {
    RepeatedCount(RowMajor(width, band.start, band.end), Iterations, p);
    RowMajorCount(width, band.start, band.end, p);
  }

  lemma DisjointFront(bands: seq<Band>)
    requires Disjoint(bands) && bands != []
    ensures Disjoint(bands[..|bands| - 1])
    ensures forall y: nat :: Owned(bands, y) <==> Owned(bands[..|bands| - 1], y) || bands[|bands| - 1].Contains(y)
  {
    var front := bands[..|bands| - 1];
    forall y: nat
      ensures Owned(bands, y) <==> Owned(front, y) || bands[|bands| - 1].Contains(y)
    {
      if Owned(bands, y) {
        var k :| 0 <= k < |bands| && bands[k].Contains(y);
        if k < |front| {
          assert front[k] == bands[k];
        }
      }
      if Owned(front, y) {
        var k :| 0 <= k < |front| && front[k].Contains(y);
        assert bands[k] == front[k];
      }
    }
  }

  lemma {:induction false} AllWorkCount(width: nat, bands: seq<Band>, p: Pos)
    requires Disjoint(bands)
    ensures Count(AllWork(width, bands), p) == if p.x < width && Owned(bands, p.y) then Iterations else 0
    decreases |bands|
  {
    if bands != [] {
      var front, last := bands[..|bands| - 1], bands[|bands| - 1];
      DisjointFront(bands);
      AllWorkCount(width, front, p);
      WorkerScheduleCount(width, last, p);
      var a, b := AllWork(width, front), WorkerSchedule(width, last);
      assert AllWork(width, bands) == a + b;
      CountAppend(a, b, p);
    }
  }

  /** Real threads interleave their pixel updates arbitrarily. Any interleaving
      of the sixteen workers' traversals (any sequence holding exactly their
      pixel visits) stays inside the image and leaves the buffer the protocol
      produces. */
  lemma AnyInterleavingSameResult(img: Image, luma: Luma, ps: seq<Pos>)
    requires img.Valid()
    requires multiset(ps) == multiset(AllWork(img.width, Bands(img.height)))
    ensures AllInBounds(img, ps)
    ensures ApplyInOrder(img, ps, luma) == Transform(img, luma, BandPasses(0, Workers * RowsPerThread(img.height), Iterations))
  {
    var bands := Bands(img.height);
    BandsAreDisjoint(img.height);
    forall k | 0 <= k < |ps|
      ensures img.InBounds(ps[k])
    {
      var p := ps[k];
      CountOfMember(ps, k);
      CountIsMultiplicity(ps, p);
      CountIsMultiplicity(AllWork(img.width, bands), p);
      AllWorkCount(img.width, bands, p);
      assert Owned(bands, p.y);
      var l :| 0 <= l < |bands| && bands[l].Contains(p.y);
      BandAt(img.height, l);
      UnclampedEndFits(img.height, l);
    }
    ApplyInOrderIsTransform(img, ps, luma);
    forall y: nat, x: nat | y < img.height && x < img.width
      ensures Counts(ps)(Pos(y, x)) == BandPasses(0, Workers * RowsPerThread(img.height), Iterations)(Pos(y, x))
    {
      CountIsMultiplicity(ps, Pos(y, x));
      CountIsMultiplicity(AllWork(img.width, bands), Pos(y, x));
      AllWorkCount(img.width, bands, Pos(y, x));
      CoveredIff(img.height, y);
    }
    TransformExt(img, luma, Counts(ps), BandPasses(0, Workers * RowsPerThread(img.height), Iterations));
  }
}
