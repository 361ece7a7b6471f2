/** The GTK front end: a file chooser, a mode combo box and a button that
    converts the chosen JPEG once and shows the result. Widgets are reduced
    to the state the callbacks read and write. */
module Gui {
  import opened Wrappers
  import opened Raster
  import opened Traversal
  import opened Grayscale

  /** `MODE_SEQUENTIAL` (0) and `MODE_PARALLEL` (1). */
  datatype Mode = Sequential | Parallel

  /** The two combo box entries. */
  const SequentialLabel: string := "Séquentiel"
  const ParallelLabel: string := "Parallèle"

  /** What the callbacks share: the chosen input path, the last output path,
      the mode, the file the image widget was last pointed at, and the JPEG
      files written so far (path to the buffer handed to the encoder; the
      lossy JPEG encoding itself is not modelled). */
  datatype App = App(input: Option<string>, output: Option<string>, mode: Mode,
                     shown: Option<string>, written: map<string, Image>)

  /** The zero-initialised state: no file, no output, mode 0 (sequential).
      The image widget starts out showing a fixed picture; `shown` only
      records paths that a click has pointed it at. */
  function Initial(): (a: App)
    ensures a.input.None? && a.output.None? && a.shown.None? && a.written == map[]
    ensures a.mode == Sequential
  {
    App(None, None, Sequential, None, map[])
  }

  /** The file chooser callback: the chosen path (possibly none) replaces the
      previous one; nothing else changes. */
  function OnFileSet(app: App, chosen: Option<string>): (r: App)
    ensures r.input == chosen
    ensures r.(input := app.input) == app
  {
    app.(input := chosen)
  }

  /** The combo box callback: an exact match of one of the two labels selects
      that mode; any other text, or no active entry, leaves the mode as it was.
      Nothing but the mode changes. */
  function OnModeChanged(app: App, text: Option<string>): (r: App)
    ensures r.(mode := app.mode) == app
    ensures text == Some(SequentialLabel) ==> r.mode == Sequential
    ensures text == Some(ParallelLabel) ==> r.mode == Parallel
    ensures text != Some(SequentialLabel) && text != Some(ParallelLabel) ==> r == app
  {
    if text == Some(SequentialLabel) then app.(mode := Sequential)
    else if text == Some(ParallelLabel) then app.(mode := Parallel)
    else app
  }

  /** Selecting the same entry twice is the same as selecting it once, and
      whichever of the two labels was selected last decides the mode. */
  lemma ModeChangeIdempotent(app: App, text: Option<string>, text': Option<string>)
    ensures OnModeChanged(OnModeChanged(app, text), text) == OnModeChanged(app, text)
    ensures text' == Some(SequentialLabel) || text' == Some(ParallelLabel) ==>
      OnModeChanged(OnModeChanged(app, text), text') == OnModeChanged(app, text')
  {
  }

  /** `g_strdup_printf("output_%s.jpg", ...)` with "sequential" in
      sequential mode and "parallel" otherwise. */
  function OutputName(mode: Mode): (s: string)
    ensures |s| > 11 && s[..7] == "output_" && s[|s| - 4..] == ".jpg"
    ensures mode == Sequential ==> s == "output_sequential.jpg"
    ensures mode == Parallel ==> s == "output_parallel.jpg"
  {
    "output_" + (if mode == Sequential then "sequential" else "parallel") + ".jpg"
  }

  /** The two modes write to different files, so neither overwrites the other. */
  lemma OutputNamesDistinct()
    ensures OutputName(Sequential) != OutputName(Parallel)
  {
    assert OutputName(Sequential)[7] == 's';
    assert OutputName(Parallel)[7] == 'p';
  }

  /** The nested loops of `process_image_sequential`: one row-major pass over
      every pixel. Channels 0..2 of every pixel receive its luma once; all
      other bytes are kept. */
  function GrayscaleOnce(img: Image, luma: Luma): (r: Image)
    requires img.Valid()
    ensures r == Transform(img, luma, BandPasses(0, img.height, 1))
  {
    BandScheduleIsTransform(img, 0, img.height, 1, luma);
    assert Repeated(RowMajor(img.width, 0, img.height), 1) == RowMajor(img.width, 0, img.height);
    ApplyInOrder(img, RowMajor(img.width, 0, img.height), luma)
  }

  /** `process_image_sequential`. `decoded` is what reading the input file
      yields; a failed read writes nothing, otherwise the converted image is
      written under `outName`. */
  function ProcessSequential(decoded: Option<Image>, outName: string, written: map<string, Image>, luma: Luma): (w: map<string, Image>)
    requires decoded.Some? ==> decoded.value.Valid()
    ensures decoded.None? ==> w == written
    ensures decoded.Some? ==> w.Keys == written.Keys + {outName}
    ensures decoded.Some? ==> w[outName] == Transform(decoded.value, luma, BandPasses(0, decoded.value.height, 1))
    ensures forall path | path in written && path != outName :: path in w && w[path] == written[path]
  {
    match decoded
    case None => written
    case Some(img) => written[outName := GrayscaleOnce(img, luma)]
  }

  /** `process_image_parallel`: delegates to the sequential routine, so it
      writes exactly what that writes. */
  function ProcessParallel(decoded: Option<Image>, outName: string, written: map<string, Image>, luma: Luma): (w: map<string, Image>)
    requires decoded.Some? ==> decoded.value.Valid()
    ensures decoded.None? ==> w == written
    ensures decoded.Some? ==> w == written[outName := Transform(decoded.value, luma, BandPasses(0, decoded.value.height, 1))]
  {
    ProcessSequential(decoded, outName, written, luma)
  }

  /** The button callback. Without a chosen file nothing changes. Otherwise
      the output path is derived from the mode, the image is processed (or the
      read fails and nothing is written), and the image widget is pointed at
      the output path in either case. */
  function OnProcessClicked(app: App, decoded: Option<Image>, luma: Luma): (r: App)
    requires decoded.Some? ==> decoded.value.Valid()
    ensures app.input.None? ==> r == app
    ensures app.input.Some? ==> r.input == app.input && r.mode == app.mode
    ensures app.input.Some? ==> r.output == Some(OutputName(app.mode)) && r.shown == r.output
    ensures app.input.Some? && decoded.None? ==> r.written == app.written
    ensures app.input.Some? && decoded.Some? ==>
      r.written == app.written[OutputName(app.mode) := Transform(decoded.value, luma, BandPasses(0, decoded.value.height, 1))]
  {
    if app.input.None? then app
    else
      var out := OutputName(app.mode);
      var w := if app.mode == Sequential then ProcessSequential(decoded, out, app.written, luma)
               else ProcessParallel(decoded, out, app.written, luma);
      app.(output := Some(out), shown := Some(out), written := w)
  }

  /** The mode only chooses the file name: from the same state and the same
      decoded input, the sequential and the parallel entries write the same
      image, under their two different names, and a parallel run leaves an
      earlier sequential output as it was. */
  lemma ModesWriteSameImage(app: App, decoded: Option<Image>, luma: Luma)
    requires app.input.Some? && decoded.Some? && decoded.value.Valid()
    ensures OutputName(Sequential) in OnProcessClicked(app.(mode := Sequential), decoded, luma).written
    ensures OutputName(Parallel) in OnProcessClicked(app.(mode := Parallel), decoded, luma).written
    ensures OnProcessClicked(app.(mode := Sequential), decoded, luma).written[OutputName(Sequential)]
         == OnProcessClicked(app.(mode := Parallel), decoded, luma).written[OutputName(Parallel)]
    ensures OutputName(Sequential) in app.written ==>
      OnProcessClicked(app.(mode := Parallel), decoded, luma).written[OutputName(Sequential)] == app.written[OutputName(Sequential)]
  {
    var img := decoded.value;
    var one := Transform(img, luma, BandPasses(0, img.height, 1));
    var s := OnProcessClicked(app.(mode := Sequential), decoded, luma);
    var p := OnProcessClicked(app.(mode := Parallel), decoded, luma);
    assert s.written == app.written[OutputName(Sequential) := one];
    assert p.written == app.written[OutputName(Parallel) := one];
    OutputNamesDistinct();
  }

  /** When the read fails, the image widget is still pointed at the output
      path, which is an entry of `written` only if an earlier click wrote
      it. Files on disk before the application starts are not modelled. */
  lemma ReadFailureShowsStaleFile(app: App, luma: Luma)
    requires app.input.Some?
    ensures var r := OnProcessClicked(app, None, luma);
      && r.shown == Some(OutputName(app.mode))
      && (r.shown.value in r.written <==> OutputName(app.mode) in app.written)
  {
  }
}
