# Grayscale benchmark: a Dafny model

The repository converts a decoded JPEG to grayscale. Three programs do it:

- `main_sequential.c` converts the whole image 10000 times over, with a busy loop per pixel whose result is discarded.
- `main_parallel.c` splits the rows among 4 × 4 worker threads. Each worker converts its band of rows 10000 times. The threads are started and awaited through two semaphores each; `main` never joins them.
- `main_gui.c` is a GTK front end. It converts the chosen file once, in either "mode", and shows the result.

The conversion writes the luma `0.299 r + 0.587 g + 0.114 b` of a pixel's first three bytes into those three bytes.

What the model contains:

- `Raster` is the decoded buffer: `width × height` pixels of `components` bytes, row-major, with the offset `(y * width + x) * components`.
- `Traversal` describes the programs' loops as sequences of pixel positions and counts how often each pixel is visited.
- `Grayscale` defines the per-pixel update and a reference meaning of any traversal. In `Transform(img, luma, visits)`, pixel `p` has been visited `visits(p)` times. Its channels 0..2 then hold the luma iterated that many times on its original triple, and every other byte is unchanged. Every loop and schedule in the programs is proved equal to some `Transform`.
- `Partition` is the row split of the parallel program, exactly as written, plus a corrected split (see Findings).
- `Parallel` holds the worker's band loop. It also holds the start/done semaphore handshake, as a sequential state machine over an arbitrary completion order.
- `Sequential` is the sequential program.
- `IntegerLuma` reads the luma expression in exact arithmetic.
- `Gui` holds the GUI callbacks, as pure updates of the state they share.
- `Agreement` relates the three programs' outputs.

The luma is a parameter `luma: Rgb -> byte` throughout. The C code computes it in double precision, which the model does not reproduce. `IntegerLuma.IntLuma` is the same expression computed exactly, `(299 r + 587 g + 114 b) / 1000`. It is an abstraction of the double arithmetic, and every result that depends on it says so by naming it.

Reading and writing JPEG files are outside the model:

- a decoded image is an input;
- a written file is an entry of a map from path to image;
- a read that yields no buffer is `None`.

## Model

| member | source | states |
|---|---|---|
| `Raster.OffsetInBounds` | main_sequential.c:20-32 | For a pixel inside the image and any channel below `num_components`, the flat index is below `width * height * num_components`, and so is the index of channel 2. |
| `Raster.OffsetInjective` | main_parallel.c:31-35 | Distinct (pixel, channel) pairs have distinct flat offsets, so a pixel's writes never touch another pixel's bytes. |
| `Grayscale.IteratedShift` | main_sequential.c:17-35 | Visiting a pixel `m` times and then `n` more times leaves what visiting it `m + n` times does. |
| `Grayscale.GrayPixel` | main_parallel.c:31-35 | The loop body writes the luma of the pixel's own first three bytes into its channels 0..2. Every other byte of the buffer keeps its value. |
| `Grayscale.GrayPixelIsTransform` | main_sequential.c:20-32 | One execution of the loop body is the reference meaning with that pixel visited once. |
| `Grayscale.TransformNone` | main_parallel.c:29 | A traversal that visits no pixel leaves the buffer as it was. |
| `Grayscale.TransformCompose` | main_parallel.c:28-38 | Running one traversal after another equals the single traversal that visits each pixel as often as both together, with no disjointness needed. |
| `Grayscale.ApplyInOrder` | main_parallel.c:31-35 | Running the loop body on a sequence of in-bounds pixels, one after another, keeps the buffer's shape and validity; its content is stated by `ApplyInOrderIsTransform`. |
| `Grayscale.ApplyInOrderIsTransform` | main_parallel.c:28-38 | Any sequence of loop-body executions gives the reference result for the number of times each pixel occurs in the sequence. |
| `Grayscale.OrderIndependent` | main_parallel.c:65-87 | Two sequences of pixel updates that visit each pixel equally often produce the same buffer, whatever their order. |
| `Traversal.RowContents` | main_parallel.c:30 | The `x` loop of row `y` visits `(y, 0), ..., (y, n - 1)` in this order, and nothing else. |
| `Traversal.RowCount` | main_sequential.c:19 | The `x` loop of row `y` visits each pixel `(y, x)` with `x < n` once and no other pixel. |
| `Traversal.RowMajorWithin` | main_parallel.c:29-30 | The `y` loop over rows `[start, end)` only visits pixels of those rows left of `width`. |
| `Traversal.RepeatedWithin` | main_parallel.c:28 | The `iteration` loop visits no pixel that one pass does not visit. |
| `Traversal.RowMajorInside` | main_sequential.c:18-19 | The `y` and `x` loops over rows `[start, end)` visit each pixel of those rows exactly once. |
| `Traversal.RowMajorOutside` | main_sequential.c:18-19 | The same loops never visit a pixel outside those rows or past the last column. |
| `Traversal.RowMajorCount` | main_sequential.c:18-19 | The `y` and `x` loops over rows `[start, end)` visit every pixel of those rows exactly once and no other pixel. |
| `Traversal.RepeatedCount` | main_sequential.c:17 | Repeating a traversal `n` times multiplies every pixel's visit count by `n`. |
| `Traversal.BandScheduleCount` | main_parallel.c:28-30 | The three nested loops over a band visit each pixel of the band `n` times and every other pixel never. |
| `Grayscale.BandScheduleIsTransform` | main_parallel.c:28-38 | The three nested loops over a band stay inside the image, and they visit each pixel of the band `n` times and nothing else. |
| `Grayscale.ConvertRow` | main_parallel.c:30-36 | Given a buffer holding `it` passes over the band plus this pass's rows before `y`, the `x` loop adds exactly one visit to every pixel of row `y`. |
| `Grayscale.ConvertPass` | main_parallel.c:29-37 | Given a buffer holding `it` passes over the band, the `y` loop leaves it holding `it + 1` passes. An empty band is left unchanged. |
| `Grayscale.BandPassesEffect` | main_parallel.c:29-35 | After `n` passes over a band, the band's channels 0..2 hold luma iterated `n` times on the original triple. Channels from 3 on, and pixels outside the band, are unchanged. |
| `Partition.WorkerBand` | main_parallel.c:70-78 | Worker (i, j) gets rows `[(4i + j) * rpt, (4i + j + 1) * rpt)`, with `rpt = height / 16`, and its end row is at most `height`. |
| `Partition.UnclampedEndFits` | main_parallel.c:78 | Before the clamp every end row is already at most `16 * rpt <= height`, so the clamp never changes a band. |
| `Partition.BandAt` | main_parallel.c:63-71 | The k-th worker in (i, j) row-major order has the band `[k * rpt, (k + 1) * rpt)`. |
| `Partition.BandsContiguous` | main_parallel.c:65-78 | Worker 0 starts at row 0, each worker ends where the next one starts, and the last one ends at `16 * (height / 16)`. |
| `Partition.BandsDisjoint` | main_parallel.c:65-78 | No row belongs to two workers. |
| `Partition.CoveredIff` | main_parallel.c:63-78 | A row is in some worker's band if and only if it lies below `16 * (height / 16)`. |
| `Partition.RemainderNeverProcessed` | main_parallel.c:63-78 | Rows `[16 * (height / 16), height)` belong to no worker, and there are fewer than 16 of them. |
| `Partition.SeventeenRowsLeaveLastRow` | main_parallel.c:63-71 | For a 17-row image, worker k gets row k alone, and row 16 belongs to no worker. |
| `Partition.ShortImageEmptyBands` | main_parallel.c:63 | For an image shorter than 16 rows, every worker's band is empty. |
| `Partition.FixedBandAt` | main_parallel.c:70-78 | In the corrected split the first fifteen workers keep their bands and the last worker's band runs from its start row to `height`. |
| `Partition.FixedBandsPartition` | main_parallel.c:78 | In the corrected split the bands are contiguous from 0 to `height`, every row below `height` is in exactly one band, and no other row is in any. |
| `Parallel.ProcessImage` | main_parallel.c:28-38 | The worker's three loops (iterations, rows of its band, columns) produce the reference result with every pixel of the band visited `iterations` times and nothing else touched. |
| `Parallel.WorkerSchedule` | main_parallel.c:28-38 | The pixel updates of one worker lie in its band and to the left of `width`; how often each is made is stated by `WorkerScheduleCount`. |
| `Parallel.Setup` | main_parallel.c:65-80 | Every worker works on the decoded buffer itself; there is one worker per band, in creation order, and none is started or done. |
| `Parallel.PostStarts` | main_parallel.c:91-95 | Every worker's start semaphore is posted. Bands and buffer are unchanged. |
| `Parallel.RunWorker` | main_parallel.c:24-42 | A worker can complete if and only if it has been started and is not yet done. Completing marks it done, keeps the buffer's shape and changes no other worker. |
| `Parallel.RunAll` | main_parallel.c:26-40 | Running workers in a given completion order keeps every worker's band and start flag, and keeps the buffer's shape. |
| `Parallel.AwaitAll` | main_parallel.c:97-101 | The main thread gets past the done semaphores if and only if every worker is done, and then it sees the current buffer. |
| `Parallel.ParallelRun` | main_parallel.c:65-108 | For any partition, the buffer reaches the write if and only if the completion order names every worker exactly once, and it keeps the decoded shape. |
| `Parallel.ParallelMain` | main_parallel.c:58-108 | With the split as written, `main` reaches the write exactly when each of the 16 workers completes once, with a buffer of the decoded shape. Its content is stated by `ParallelMainResult`. |
| `Parallel.ParallelProgram` | main_parallel.c:44-108 | A failed read writes nothing. After a successful read, the output is written exactly when every worker completes once, and it holds rows `[0, 16 * (height / 16))` converted 10000 times and every other byte as decoded. |
| `Parallel.RunWorkerTracks` | main_parallel.c:24-42 | If the buffer is the reference result for the bands finished so far, it still is after one more worker finishes. This holds when the bands are disjoint. |
| `Parallel.RunAllTracks` | main_parallel.c:91-101 | Whatever the completion order, the buffer is always the reference result for the bands finished so far. |
| `Parallel.AdmissibleSnoc` | main_parallel.c:24-42 | One more completion is possible exactly when that worker exists, was not done at the start and has not completed earlier in the order. |
| `Parallel.RunAllOutcome` | main_parallel.c:91-101 | A completion order can happen if and only if it names only existing workers, none twice and none already done. Afterwards the done workers are exactly those done before plus those named. |
| `Parallel.ParallelRunResult` | main_parallel.c:91-108 | The buffer reaches the write if and only if the completion order is a permutation of the workers. It then holds the reference result with every row of every band visited 10000 times. |
| `Parallel.BandsAreDisjoint` | main_parallel.c:65-78 | The workers' bands are pairwise disjoint. |
| `Parallel.ParallelMainResult` | main_parallel.c:63-108 | For every permutation as completion order, the written buffer is rows `[0, 16 * (height / 16))` converted 10000 times, with every other byte unchanged. |
| `Parallel.ShortImageUnchanged` | main_parallel.c:63-71 | An image shorter than 16 rows is written back unchanged. |
| `Parallel.ParallelMainFixedResult` | main_parallel.c:78 | With the corrected split, the written buffer is every row converted 10000 times. |
| `Parallel.AllWorkCount` | main_parallel.c:65-87 | Taken together, the workers' pixel updates visit each pixel of a covered row 10000 times and no other pixel. |
| `Parallel.AnyInterleavingSameResult` | main_parallel.c:28-38 | Any interleaving of all workers' pixel updates stays inside the image and yields the same buffer as the sequential reference for the covered rows. |
| `Sequential.BusyLoop` | main_sequential.c:24-26 | The extra loop keeps `gray` a byte at every step and computes `(gray + 50) % 256`, because 0 + … + 299 = 44850. |
| `Sequential.VisitPixel` | main_sequential.c:20-32 | Whatever the extra loop computed, the pixel receives the luma of its current first three bytes, exactly as in the common loop body. |
| `Sequential.SequentialRow` | main_sequential.c:19-33 | With the extra loop in every pixel, the `x` loop still adds exactly one visit to every pixel of row `y` and nothing else. |
| `Sequential.SequentialPass` | main_sequential.c:18-34 | One pass of the `y` loop turns a buffer holding `it` whole-image passes into one holding `it + 1`. |
| `Sequential.SequentialMain` | main_sequential.c:17-35 | The 10000 whole-image passes produce the reference result with every pixel visited 10000 times. |
| `Sequential.SequentialEffect` | main_sequential.c:30-32 | After the sequential program, channels 0..2 hold luma iterated 10000 times on the original triple, and channels from 3 on are untouched. |
| `IntegerLuma.IntLuma` | main_sequential.c:21 | The luma in exact arithmetic lies between the smallest and the largest of the three channels. |
| `IntegerLuma.IntLumaFixesGrey` | main_sequential.c:29 | In exact arithmetic a grey pixel keeps its level, because the weights sum to one. |
| `IntegerLuma.IteratedFixed` | main_sequential.c:17-35 | Under a luma that fixes grey levels, a pixel visited any number of times `k >= 1` holds its luma after one visit. |
| `IntegerLuma.VisitedOnlyMatters` | main_sequential.c:17-35 | Under a luma that fixes grey levels, two traversals give the same buffer whenever they visit the same set of pixels, however often. |
| `IntegerLuma.PassesIdempotent` | main_sequential.c:17 | With the exact luma, `n >= 1` passes over a band give the same buffer as one pass. |
| `Gui.Initial` | main_gui.c:152 | The zero-initialised state has no input, no output, nothing shown, nothing written, and mode 0, which is sequential. |
| `Gui.OnFileSet` | main_gui.c:55-60 | The chosen path, possibly none, replaces the previous input, and nothing else changes. |
| `Gui.OnModeChanged` | main_gui.c:62-69 | "Séquentiel" selects sequential mode and "Parallèle" selects parallel mode. Any other text, or no active entry, changes nothing, and only the mode ever changes. |
| `Gui.ModeChangeIdempotent` | main_gui.c:62-69 | Selecting an entry twice equals selecting it once, and a recognised label selected last decides the mode. |
| `Gui.OutputName` | main_gui.c:77-78 | The output path is `output_sequential.jpg` in sequential mode and `output_parallel.jpg` in parallel mode. |
| `Gui.OutputNamesDistinct` | main_gui.c:77-78 | The two modes write to different paths. |
| `Gui.GrayscaleOnce` | main_gui.c:27-35 | One row-major pass gives every pixel's channels 0..2 the luma of its original bytes, and keeps every other byte. |
| `Gui.ProcessSequential` | main_gui.c:17-38 | A failed read writes nothing. Otherwise exactly the output path is added or replaced, with the one-pass conversion, and every other file is kept. |
| `Gui.ProcessParallel` | main_gui.c:45-48 | The "parallel" routine writes exactly what the sequential routine writes. |
| `Gui.OnProcessClicked` | main_gui.c:71-86 | Without an input file nothing changes. Otherwise the output path follows the mode, the widget is pointed at it, and the file is written with the one-pass conversion unless the read failed. |
| `Gui.ModesWriteSameImage` | main_gui.c:77-84 | From the same state, both modes write the same image under their two names, and a parallel run leaves an earlier sequential output alone. |
| `Gui.ReadFailureShowsStaleFile` | main_gui.c:21-25 | After a failed read the widget is still pointed at the output path, which is an entry of `written` only if an earlier click of this session wrote it. Files already on disk before launch are not modelled. |
| `Agreement.ParallelVersusSequential` | main_parallel.c:63-78 | The parallel program as written matches the sequential program's output on rows below `16 * (height / 16)`, and it leaves the remaining rows as decoded. |
| `Agreement.FixedParallelIsSequential` | main_parallel.c:70-78 | With the corrected split, the parallel program's output equals the sequential program's output. |
| `Agreement.ParallelIsSequentialWhenDivisible` | main_parallel.c:63 | When the height is a multiple of 16, the parallel program as written equals the sequential one. |
| `Agreement.GuiMatchesSequentialExactly` | main_gui.c:27-35 | With the exact luma, the GUI's single pass writes what the sequential program's 10000 passes write. The parallel program as written agrees only when the height is a multiple of 16 (`Agreement.ParallelIsSequentialWhenDivisible`). |

## Left out

- Double-precision luma. The C expression is evaluated in `double` and truncated. A grey pixel may then come out one level darker, so the model does not claim that repeated passes are idempotent for it. Idempotence is proved only for `IntegerLuma.IntLuma`.
- JPEG decoding and encoding (`image_io.c`). A decoded image is a parameter, and the row-major layout appears only as `Image.Valid`.
  - An unopenable input file ends the process inside `read_jpeg_file` (image_io.c:5-9), which is not modelled.
  - `read_jpeg_file` does not check its `malloc`. When it fails, `jpeg_read_scanlines` writes through the null-based pointer (image_io.c:23-27) before NULL is returned. The `None` read of `Gui.ProcessSequential` and `Parallel.ParallelProgram` is therefore reachable only through that undefined behaviour.
  - main_parallel.c:52-56 checks the buffer and returns 1 without writing; `Parallel.ParallelProgram` models this. main_sequential.c:13 does not check it, and `Sequential.SequentialMain` takes a decoded image.
- Gui.ProcessSequential: assumes the output file can be opened. `write_jpeg_file` ends the whole process when it cannot (image_io.c:38-42), so no map entry is added and the GUI does not continue; the model does not represent that exit. The same holds for `Gui.ProcessParallel`, `Gui.OnProcessClicked` and the final write of both command-line programs.
- The file system before launch: `Gui.App.written` holds only the files this session wrote, so an `output_<mode>.jpg` left by an earlier run is not represented.
- Images with fewer than three components. `Image.Valid` requires `components >= 3`. A one-channel JPEG would make every program write past the pixel, and that is not modelled.
- 32-bit `int` arithmetic. Offsets are unbounded integers, so a buffer of 2^31 bytes or more, where `(y * width + x) * num_components` would overflow, is not modelled.
- Real threads and semaphores. The handshake is modelled as a sequential protocol with an arbitrary completion order, and the pixel-level interleaving as an arbitrary order of pixel updates. Memory ordering is not modelled.
- The early `return 1` when `pthread_create` fails (main_parallel.c:82-85). Returning from `main` ends the process and the threads already created, and nothing is written. This resource-failure path is not modelled.
- Timing and printing: `clock`, `gettimeofday`, execution-time output, log messages.
- GTK window construction, CSS and signal wiring (main_gui.c:90-184), and the image widget's rendering. The model records only which path the widget is given.
- Memory leaks: the leaked `output_filename` on repeated clicks and the leaked combo-box text. Neither affects the state the model tracks.
- `Partition.FixedBands` is the split in which the last worker's band ends at `height`; see Findings. The programs' behaviour is modelled with the split as written.

## Findings

| source | as written | input that shows it | evidently intended | confidence | as-written member | corrected member |
|---|---|---|---|---|---|---|
| main_parallel.c:63-78 | Each of the 16 workers gets `height / 16` rows. The clamp `end_row > height ? height : end_row` never fires, so rows `[16 * (height / 16), height)` are never converted. | A 17-row image: workers 0..15 get rows 0..15 and row 16 stays in colour. Any image shorter than 16 rows is written back unchanged. | The last worker's band ends at `height`, so every row is converted and the output equals the sequential program's. | not executed | `Partition.SeventeenRowsLeaveLastRow` | `Partition.FixedBandsPartition` |
