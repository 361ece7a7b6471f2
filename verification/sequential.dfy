/** The sequential program: 10000 row-major passes over the whole image, with
    an extra loop per pixel whose result is thrown away. */
module Sequential {
  import opened Arith
  import opened Raster
  import opened Grayscale

  /** Passes over the image. */
  const Passes: nat := 10000

  /** `NUM_ITERATIONS_PER_PIXEL`: length of the busy loop. */
  const IterationsPerPixel: nat := 300

  /** 0 + 1 + ... + (n - 1). */
  function Triangle(n: nat): nat {
    if n == 0 then 0 else Triangle(n - 1) + (n - 1)
  }

  lemma {:induction false} TriangleClosedForm(n: nat)
    ensures 2 * Triangle(n) == n * (n - 1)
  {
    if n > 0 {
      TriangleClosedForm(n - 1);
    }
  }

  /** The busy loop: `gray = (gray + i) % 256` for `i` in `[0, 300)`. The value
      stays a byte at every step, and what it computes is the input shifted by
      0 + 1 + ... + 299 = 44850, i.e. by 50, modulo 256. */
  method BusyLoop(gray: byte) returns (g: byte)
    ensures g == (gray + 50) % 256
  {
    g := gray;
    var i := 0;
    while i < IterationsPerPixel
      invariant i <= IterationsPerPixel
      invariant g == (gray + Triangle(i)) % 256
    {
      ModAdd(gray + Triangle(i), i, 256);
      g := (g + i) % 256;
      i := i + 1;
    }
    TriangleClosedForm(IterationsPerPixel);
    assert Triangle(IterationsPerPixel) == 50 + 175 * 256;
    ModShift(gray + 50, 175, 256);
  }

  /** One pixel of the sequential program: compute luma, run the busy loop on
      it, compute luma again from the same bytes and write that. Whatever the
      busy loop computed, the update is the common loop body. */
  method VisitPixel(img: Image, y: nat, x: nat, luma: Luma) returns (r: Image)
    requires img.Valid() && y < img.height && x < img.width
    ensures r == GrayPixel(img, Pos(y, x), luma)
  {
    OffsetInBounds(img, y, x, 2);
    var index := Offset(img.width, img.components, y, x);
    var gray := luma(Rgb(img.data[index], img.data[index + 1], img.data[index + 2]));
    gray := BusyLoop(gray);
    gray := luma(Rgb(img.data[index], img.data[index + 1], img.data[index + 2]));
    r := img.(data := img.data[index := gray][index + 1 := gray][index + 2 := gray]);
  }

  /** The `x` loop of row `y` in pass `it`, each pixel visited with the extra
      loop. */
  method SequentialRow(img: Image, luma: Luma, it: nat, y: nat, r0: Image) returns (r: Image)
    requires img.Valid() && y < img.height
    requires r0 == Transform(img, luma, Progress(0, img.height, it, y, 0))
    ensures r == Transform(img, luma, Progress(0, img.height, it, y + 1, 0))
  {
    r := r0;
    var x := 0;
    while x < img.width
      invariant x <= img.width
      invariant r == Transform(img, luma, Progress(0, img.height, it, y, x))
    {
      ProgressStep(img, luma, 0, img.height, it, y, x);
      r := VisitPixel(r, y, x, luma);
      x := x + 1;
    }
    ProgressRowEnd(img, luma, 0, img.height, it, y);
  }

  /** The `y` loop: pass `it` over every row. */
  method SequentialPass(img: Image, luma: Luma, it: nat, r0: Image) returns (r: Image)
    requires img.Valid()
    requires r0 == Transform(img, luma, Progress(0, img.height, it, 0, 0))
    ensures r == Transform(img, luma, Progress(0, img.height, it + 1, 0, 0))
  {
    r := r0;
    var y := 0;
    while y < img.height
      invariant y <= img.height
      invariant r == Transform(img, luma, Progress(0, img.height, it, y, 0))
    {
      r := SequentialRow(img, luma, it, y, r);
      y := y + 1;
    }
    ProgressPassEnd(img, luma, 0, img.height, it, y);
  }

  /** `main` between the read and the write: `Passes` row-major passes over
      every row. Each pixel's channels 0..2 end up holding its luma iterated
      `Passes` times on its original triple; all other bytes are unchanged. */
  method SequentialMain(img: Image, luma: Luma) returns (r: Image)
    requires img.Valid()
    ensures r == Transform(img, luma, BandPasses(0, img.height, Passes))
  {
    r := img;
    ProgressStart(img, luma, 0, img.height);
    var iteration := 0;
    while iteration < Passes
      invariant iteration <= Passes
      invariant r == Transform(img, luma, Progress(0, img.height, iteration, 0, 0))
    {
      r := SequentialPass(img, luma, iteration, r);
      iteration := iteration + 1;
    }
    ProgressDone(img, luma, 0, img.height, Passes);
  }

  /** What the sequential program writes, byte by byte: for every pixel inside
      the image, channels 0..2 hold luma iterated `Passes` times on the pixel's
      original first three bytes, and channels from 3 on are untouched. */
  lemma SequentialEffect(img: Image, luma: Luma, y: nat, x: nat, c: nat)
    requires img.Valid() && y < img.height && x < img.width && c < img.components
    ensures c < 3 ==> Transform(img, luma, BandPasses(0, img.height, Passes)).At(y, x, c) == Iterated(luma, Passes, img.PixelRgb(y, x))
    ensures c >= 3 ==> Transform(img, luma, BandPasses(0, img.height, Passes)).At(y, x, c) == img.At(y, x, c)
  {
    BandPassesEffect(img, 0, img.height, Passes, luma, y, x, c);
  }
}
