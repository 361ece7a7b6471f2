/** The luma expression `0.299 * r + 0.587 * g + 0.114 * b`, truncated to a
    byte, read in exact arithmetic, and what it implies for repeated passes. */
module IntegerLuma {
  import opened Raster
  import opened Grayscale

  /** A luma that maps every grey triple to its own grey level. */
  predicate FixesGrey(luma: Luma) {
    forall v: byte :: luma(Grey(v)) == v
  }

  /** Under a grey-fixing luma, later visits of a pixel rewrite the value the
      first visit wrote. */
  lemma {:induction false} IteratedFixed(luma: Luma, k: nat, t: Rgb)
    requires FixesGrey(luma) && k >= 1
    ensures Iterated(luma, k, t) == luma(t)
  {
    if k > 1 {
      IteratedFixed(luma, k - 1, t);
      assert luma(Grey(luma(t))) == luma(t);
    }
  }

  /** Under a grey-fixing luma only whether a pixel was visited matters, not
      how often. */
  lemma VisitedOnlyMatters(img: Image, luma: Luma, f: Pos -> nat, g: Pos -> nat)
    requires img.Valid() && FixesGrey(luma)
    requires forall y: nat, x: nat | y < img.height && x < img.width :: (f(Pos(y, x)) == 0 <==> g(Pos(y, x)) == 0)
    ensures Transform(img, luma, f) == Transform(img, luma, g)
  {
    var a, b := Transform(img, luma, f), Transform(img, luma, g);
    forall y: nat, x: nat, c: nat | y < img.height && x < img.width && c < img.components
      ensures a.At(y, x, c) == b.At(y, x, c)
    {
      var t := img.PixelRgb(y, x);
      if f(Pos(y, x)) > 0 {
        IteratedFixed(luma, f(Pos(y, x)), t);
        IteratedFixed(luma, g(Pos(y, x)), t);
      }
    }
    ImageExt(a, b);
  }

  /** The luma expression in exact arithmetic: the weights are thousandths and
      the conversion to `unsigned char` truncates the non-negative result. */
  function IntLuma(t: Rgb): (v: byte)
    ensures t.r <= t.g && t.r <= t.b ==> t.r <= v
    ensures t.g <= t.r && t.g <= t.b ==> t.g <= v
    ensures t.b <= t.r && t.b <= t.g ==> t.b <= v
    ensures v <= t.r || v <= t.g || v <= t.b
  {
    (299 * t.r + 587 * t.g + 114 * t.b) / 1000
  }

  /** The weights sum to one, so a grey pixel keeps its level. */
  lemma IntLumaFixesGrey()
    ensures FixesGrey(IntLuma)
  {
    forall v: byte
      ensures IntLuma(Grey(v)) == v
    {
      assert 299 * v + 587 * v + 114 * v == 1000 * v;
    }
  }

  /** With exact arithmetic, any number `n >= 1` of passes over a band gives
      the same image as one pass. */
  lemma PassesIdempotent(img: Image, start: nat, end: nat, n: nat)
    requires img.Valid() && n >= 1
    ensures Transform(img, IntLuma, BandPasses(start, end, n)) == Transform(img, IntLuma, BandPasses(start, end, 1))
  {
    IntLumaFixesGrey();
    VisitedOnlyMatters(img, IntLuma, BandPasses(start, end, n), BandPasses(start, end, 1));
  }
}
