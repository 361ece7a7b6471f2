/** How the outputs of the three programs relate to each other. */
module Agreement {
  import opened Wrappers
  import opened Raster
  import opened Grayscale
  import opened Partition
  import opened Parallel
  import opened Sequential
  import opened IntegerLuma
  import opened Gui

  /** The result `SequentialMain` produces. */
  ghost function SequentialResult(img: Image, luma: Luma): Image
    requires img.Valid()
  {
    Transform(img, luma, BandPasses(0, img.height, Passes))
  }

  /** The parallel program as written agrees with the sequential one on the
      rows below `16 * (height / 16)` and leaves the remaining rows as the
      decoder produced them, whatever order the workers finish in. */
  lemma ParallelVersusSequential(img: Image, luma: Luma, order: seq<nat>, y: nat, x: nat, c: nat)
    requires img.Valid() && IsSchedule(order, Workers)
    requires y < img.height && x < img.width && c < img.components
    ensures ParallelMain(img, luma, order).Some?
    ensures var p := ParallelMain(img, luma, order).value;
      && (y < Workers * RowsPerThread(img.height) ==> p.At(y, x, c) == SequentialResult(img, luma).At(y, x, c))
      && (y >= Workers * RowsPerThread(img.height) ==> p.At(y, x, c) == img.At(y, x, c))
  {
    ParallelMainResult(img, luma, order);
    BandPassesEffect(img, 0, Workers * RowsPerThread(img.height), Iterations, luma, y, x, c);
    BandPassesEffect(img, 0, img.height, Passes, luma, y, x, c);
  }

  /** With the corrected partition the parallel program produces exactly the
      sequential program's output. */
  lemma FixedParallelIsSequential(img: Image, luma: Luma, order: seq<nat>)
    requires img.Valid() && IsSchedule(order, Workers)
    ensures ParallelMainFixed(img, luma, order) == Some(SequentialResult(img, luma))
  {
    ParallelMainFixedResult(img, luma, order);
  }

  /** When `height` is a multiple of 16 there are no remainder rows, and the
      parallel program as written produces the sequential program's output. */
  lemma ParallelIsSequentialWhenDivisible(img: Image, luma: Luma, order: seq<nat>)
    requires img.Valid() && IsSchedule(order, Workers) && img.height % Workers == 0
    ensures ParallelMain(img, luma, order) == Some(SequentialResult(img, luma))
  {
    ParallelMainResult(img, luma, order);
    assert Workers * RowsPerThread(img.height) == img.height;
  }

  /** With the luma computed exactly, the GUI's single pass writes the same
      image as the sequential program's 10000 passes. The parallel program
      as written agrees only when the height is a multiple of 16. */
  lemma GuiMatchesSequentialExactly(img: Image)
    requires img.Valid()
    ensures GrayscaleOnce(img, IntLuma) == SequentialResult(img, IntLuma)
  {
    PassesIdempotent(img, 0, img.height, Passes);
  }
}
