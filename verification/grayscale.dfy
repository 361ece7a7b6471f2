/** The per-pixel grayscale update shared by all three programs, and the
    reference meaning of any number of passes over any set of pixels. */
module Grayscale {
  import opened Raster
  import opened Traversal

  /** The per-pixel map applied `k >= 1` times to a pixel whose original first
      three channels are `t`: the first visit writes `luma(t)` into channels
      0..2, every later visit recomputes luma of the grey triple it finds. */
  function Iterated(luma: Luma, k: nat, t: Rgb): byte
    requires k >= 1
  {
    if k == 1 then luma(t) else luma(Grey(Iterated(luma, k - 1, t)))
  }

  /** Visiting a pixel `m` times and then `n` more times is visiting it `m + n` times. */
  lemma {:induction false} IteratedShift(luma: Luma, m: nat, n: nat, t: Rgb)
    requires m >= 1 && n >= 1
    ensures Iterated(luma, n, Grey(Iterated(luma, m, t))) == Iterated(luma, m + n, t)
    decreases n
  {
    if n > 1 {
      IteratedShift(luma, m, n - 1, t);
    }
  }

  /** The byte `c` of pixel `p` after that pixel was visited `k` times. */
  function Expected(img: Image, luma: Luma, k: nat, y: nat, x: nat, c: nat): byte
    requires img.Valid() && y < img.height && x < img.width && c < img.components
  {
    if c < 3 && k > 0 then Iterated(luma, k, img.PixelRgb(y, x)) else img.At(y, x, c)
  }

  /** Reference meaning of a traversal: pixel `p` has been visited `visits(p)`
      times. Channels 0..2 of a visited pixel hold its luma iterated that many
      times; every other byte keeps its value. */
  ghost function Transform(img: Image, luma: Luma, visits: Pos -> nat): (r: Image)
    requires img.Valid()
    ensures r.Valid() && r.SameShape(img)
    ensures forall y: nat, x: nat, c: nat | y < img.height && x < img.width && c < img.components ::
      r.At(y, x, c) == Expected(img, luma, visits(Pos(y, x)), y, x, c)
  {
    var d := seq(|img.data|, i requires 0 <= i < |img.data| => FlatExpected(img, luma, visits, i));
    var r := img.(data := d);
    TransformAt(img, luma, visits, r);
    r
  }

  /** Byte `i` of the flat buffer after the visits, found through the pixel
      and channel it belongs to. */
  ghost function FlatExpected(img: Image, luma: Luma, visits: Pos -> nat, i: nat): byte
    requires img.Valid() && i < |img.data|
  {
    DecomposeDiv(img, i);
    var y, x, c := i / img.components / img.width, i / img.components % img.width, i % img.components;
    Expected(img, luma, visits(Pos(y, x)), y, x, c)
  }

  lemma TransformAt(img: Image, luma: Luma, visits: Pos -> nat, r: Image)
    requires img.Valid() && r == img.(data := seq(|img.data|, i requires 0 <= i < |img.data| => FlatExpected(img, luma, visits, i)))
    ensures r.Valid()
    ensures forall y: nat, x: nat, c: nat | y < img.height && x < img.width && c < img.components ::
      r.At(y, x, c) == Expected(img, luma, visits(Pos(y, x)), y, x, c)
  {
    forall y: nat, x: nat, c: nat | y < img.height && x < img.width && c < img.components
      ensures r.At(y, x, c) == Expected(img, luma, visits(Pos(y, x)), y, x, c)
    {
      OffsetDivMod(img, y, x, c);
      var i := Offset(img.width, img.components, y, x) + c;
      assert r.At(y, x, c) == FlatExpected(img, luma, visits, i);
    }
  }

  /** Transforms whose visit counts agree on every in-bounds pixel are equal. */
  lemma TransformExt(img: Image, luma: Luma, f: Pos -> nat, g: Pos -> nat)
    requires img.Valid()
    requires forall y: nat, x: nat | y < img.height && x < img.width :: f(Pos(y, x)) == g(Pos(y, x))
    ensures Transform(img, luma, f) == Transform(img, luma, g)
  {
    ImageExt(Transform(img, luma, f), Transform(img, luma, g));
  }

  /** No visit, no change. */
  lemma TransformNone(img: Image, luma: Luma, f: Pos -> nat)
    requires img.Valid()
    requires forall y: nat, x: nat | y < img.height && x < img.width :: f(Pos(y, x)) == 0
    ensures Transform(img, luma, f) == img
  {
    ImageExt(Transform(img, luma, f), img);
  }

  /** Running one traversal after another is one traversal that visits each
      pixel as often as both together. No disjointness is needed: a pixel
      visited by both just has luma iterated further. */
  lemma TransformCompose(img: Image, luma: Luma, f: Pos -> nat, g: Pos -> nat)
    requires img.Valid()
    ensures Transform(Transform(img, luma, f), luma, g) == Transform(img, luma, Plus(f, g))
  {
    var mid := Transform(img, luma, f);
    var lhs := Transform(mid, luma, g);
    var rhs := Transform(img, luma, Plus(f, g));
    forall y: nat, x: nat, c: nat | y < img.height && x < img.width && c < img.components
      ensures lhs.At(y, x, c) == rhs.At(y, x, c)
    {
      ComposeAt(img, luma, f, g, y, x, c);
    }
    ImageExt(lhs, rhs);
  }

  /** `TransformCompose` for one byte. */
  lemma ComposeAt(img: Image, luma: Luma, f: Pos -> nat, g: Pos -> nat, y: nat, x: nat, c: nat)
    requires img.Valid() && y < img.height && x < img.width && c < img.components
    ensures Transform(Transform(img, luma, f), luma, g).At(y, x, c)
         == Transform(img, luma, Plus(f, g)).At(y, x, c)
  {
    var mid := Transform(img, luma, f);
    var p := Pos(y, x);
    var t := img.PixelRgb(y, x);
    if c < 3 && g(p) > 0 && f(p) > 0 {
      assert mid.PixelRgb(y, x) == Grey(Iterated(luma, f(p), t));
      IteratedShift(luma, f(p), g(p), t);
    } else if c < 3 && g(p) > 0 {
      assert mid.PixelRgb(y, x) == t;
    }
  }

  /** The body of the pixel loop in all three programs: compute the flat index,
      read the pixel's first three bytes, and write their luma into all three. */
  function GrayPixel(img: Image, p: Pos, luma: Luma): (r: Image)
    requires img.Valid() && img.InBounds(p)
    ensures r.Valid() && r.SameShape(img)
    ensures r.At(p.y, p.x, 0) == r.At(p.y, p.x, 1) == r.At(p.y, p.x, 2) == luma(img.PixelRgb(p.y, p.x))
    ensures forall y: nat, x: nat, c: nat | y < img.height && x < img.width && c < img.components
      && (Pos(y, x) != p || c >= 3) :: r.At(y, x, c) == img.At(y, x, c)
  {
    OffsetInBounds(img, p.y, p.x, 2);
    var index := Offset(img.width, img.components, p.y, p.x);
    var gray := luma(Rgb(img.data[index], img.data[index + 1], img.data[index + 2]));
    var r := img.(data := img.data[index := gray][index + 1 := gray][index + 2 := gray]);
    GrayPixelFrame(img, p, gray, r);
    r
  }

  lemma GrayPixelFrame(img: Image, p: Pos, gray: byte, r: Image)
    requires img.Valid() && img.InBounds(p)
    requires Offset(img.width, img.components, p.y, p.x) + 2 < |img.data|
    requires var index := Offset(img.width, img.components, p.y, p.x);
      r == img.(data := img.data[index := gray][index + 1 := gray][index + 2 := gray])
    ensures r.Valid()
    ensures r.At(p.y, p.x, 0) == r.At(p.y, p.x, 1) == r.At(p.y, p.x, 2) == gray
    ensures forall y: nat, x: nat, c: nat | y < img.height && x < img.width && c < img.components
      && (Pos(y, x) != p || c >= 3) :: r.At(y, x, c) == img.At(y, x, c)
  {
    var index := Offset(img.width, img.components, p.y, p.x);
    forall y: nat, x: nat, c: nat | y < img.height && x < img.width && c < img.components
      && (Pos(y, x) != p || c >= 3)
      ensures r.At(y, x, c) == img.At(y, x, c)
    {
      OffsetInBounds(img, y, x, c);
      var o := Offset(img.width, img.components, y, x) + c;
      if index <= o < index + 3 {
        OffsetInjective(img.width, img.components, y, x, c, p.y, p.x, o - index);
        assert false;
      }
      assert r.data[o] == img.data[o];
    }
  }

  /** Visit counts of two traversals run one after the other. */
  function Plus(f: Pos -> nat, g: Pos -> nat): Pos -> nat {
    (p: Pos) => f(p) + g(p)
  }

  /** Visit counts of a traversal: how often each pixel occurs in it. */
  function Counts(ps: seq<Pos>): Pos -> nat {
    (p: Pos) => Count(ps, p)
  }

  /** Visit counts for a single pixel. */
  function Once(p: Pos): Pos -> nat {
    (q: Pos) => if q == p then 1 else 0
  }

  /** The loop body agrees with the reference: it is a transform that visits
      exactly pixel `p`, once. */
  lemma GrayPixelIsTransform(img: Image, p: Pos, luma: Luma)
    requires img.Valid() && img.InBounds(p)
    ensures GrayPixel(img, p, luma) == Transform(img, luma, Once(p))
  {
    ImageExt(GrayPixel(img, p, luma), Transform(img, luma, Once(p)));
  }

  /** One loop-body step after a transform adds one visit to that pixel. */
  lemma GrayPixelAfter(img: Image, luma: Luma, f: Pos -> nat, p: Pos)
    requires img.Valid() && img.InBounds(p)
    ensures GrayPixel(Transform(img, luma, f), p, luma) == Transform(img, luma, Plus(f, Once(p)))
  {
    GrayPixelIsTransform(Transform(img, luma, f), p, luma);
    TransformCompose(img, luma, f, Once(p));
  }

  // ---- arbitrary traversals ----

  predicate AllInBounds(img: Image, ps: seq<Pos>) {
    forall k | 0 <= k < |ps| :: img.InBounds(ps[k])
  }

  /** The loop body applied to the pixels of `ps`, in that order. */
  function ApplyInOrder(img: Image, ps: seq<Pos>, luma: Luma): (r: Image)
    requires img.Valid() && AllInBounds(img, ps)
    ensures r.Valid() && r.SameShape(img)
  {
    if ps == [] then img
    else GrayPixel(ApplyInOrder(img, ps[..|ps| - 1], luma), ps[|ps| - 1], luma)
  }

  /** Any traversal is the transform that visits each pixel as many times as
      it occurs in the traversal. */
  lemma {:induction false} ApplyInOrderIsTransform(img: Image, ps: seq<Pos>, luma: Luma)
    requires img.Valid() && AllInBounds(img, ps)
    ensures ApplyInOrder(img, ps, luma) == Transform(img, luma, Counts(ps))
    decreases |ps|
  {
    if ps == [] {
      TransformNone(img, luma, Counts(ps));
    } else {
      var front, last := ps[..|ps| - 1], ps[|ps| - 1];
      assert ps == front + [last];
      ApplyInOrderIsTransform(img, front, luma);
      GrayPixelAfter(img, luma, Counts(front), last);
      TransformExt(img, luma, Plus(Counts(front), Once(last)), Counts(ps));
    }
  }

  /** Traversal-order independence: two traversals that visit the same pixels
      the same number of times, in whatever order, leave the same buffer. */
  lemma OrderIndependent(img: Image, ps: seq<Pos>, qs: seq<Pos>, luma: Luma)
    requires img.Valid() && AllInBounds(img, ps) && AllInBounds(img, qs)
    requires multiset(ps) == multiset(qs)
    ensures ApplyInOrder(img, ps, luma) == ApplyInOrder(img, qs, luma)
  {
    ApplyInOrderIsTransform(img, ps, luma);
    ApplyInOrderIsTransform(img, qs, luma);
    forall y: nat, x: nat | y < img.height && x < img.width
      ensures Counts(ps)(Pos(y, x)) == Counts(qs)(Pos(y, x))
    {
      CountIsMultiplicity(ps, Pos(y, x));
      CountIsMultiplicity(qs, Pos(y, x));
    }
    TransformExt(img, luma, Counts(ps), Counts(qs));
  }

  // ---- the row-major band loops ----

  /** Visit counts of `n` passes over rows `[start, end)`. */
  function BandPasses(start: nat, end: nat, n: nat): Pos -> nat {
    (p: Pos) => if start <= p.y < end then n else 0
  }

  /** `n` row-major passes over rows `[start, end)` visit every pixel of those
      rows `n` times and no other pixel, whatever the traversal order within. */
  lemma BandScheduleIsTransform(img: Image, start: nat, end: nat, n: nat, luma: Luma)
    requires img.Valid() && end <= img.height
    ensures AllInBounds(img, Repeated(RowMajor(img.width, start, end), n))
    ensures ApplyInOrder(img, Repeated(RowMajor(img.width, start, end), n), luma)
         == Transform(img, luma, BandPasses(start, end, n))
  {
    var ps := Repeated(RowMajor(img.width, start, end), n);
    forall k | 0 <= k < |ps|
      ensures img.InBounds(ps[k])
    {
      var p := ps[k];
      CountOfMember(ps, k);
      BandScheduleCount(img.width, start, end, n, p);
    }
    ApplyInOrderIsTransform(img, ps, luma);
    forall y: nat, x: nat | y < img.height && x < img.width
      ensures Counts(ps)(Pos(y, x)) == BandPasses(start, end, n)(Pos(y, x))
    {
      BandScheduleCount(img.width, start, end, n, Pos(y, x));
    }
    TransformExt(img, luma, Counts(ps), BandPasses(start, end, n));
  }

  /** What `n` passes over a band do to each byte: channels 0..2 of the band's
      pixels hold luma iterated `n` times on the original triple; channels from
      3 on, and every pixel outside the band, are unchanged. */
  lemma BandPassesEffect(img: Image, start: nat, end: nat, n: nat, luma: Luma, y: nat, x: nat, c: nat)
    requires img.Valid() && y < img.height && x < img.width && c < img.components
    ensures var r := Transform(img, luma, BandPasses(start, end, n));
      && (c < 3 && start <= y < end && n >= 1 ==> r.At(y, x, c) == Iterated(luma, n, img.PixelRgb(y, x)))
      && (c >= 3 || y < start || y >= end || n == 0 ==> r.At(y, x, c) == img.At(y, x, c))
  {
  }

  // ---- loop progress, shared by the imperative band loops ----

  /** Visit counts part-way through pass `it` of the band `[start, end)`, with
      rows before `y` and columns before `x` of row `y` done in this pass. */
  function Progress(start: nat, end: nat, it: nat, y: nat, x: nat): Pos -> nat {
    (p: Pos) => if start <= p.y < end then it + (if p.y < y || (p.y == y && p.x < x) then 1 else 0) else 0
  }

  lemma ProgressStep(img: Image, luma: Luma, start: nat, end: nat, it: nat, y: nat, x: nat)
    requires img.Valid() && start <= y < end && x < img.width && y < img.height
    ensures GrayPixel(Transform(img, luma, Progress(start, end, it, y, x)), Pos(y, x), luma)
         == Transform(img, luma, Progress(start, end, it, y, x + 1))
  {
    var f := Progress(start, end, it, y, x);
    GrayPixelAfter(img, luma, f, Pos(y, x));
    TransformExt(img, luma, Plus(f, Once(Pos(y, x))), Progress(start, end, it, y, x + 1));
  }

  lemma ProgressRowEnd(img: Image, luma: Luma, start: nat, end: nat, it: nat, y: nat)
    requires img.Valid()
    ensures Transform(img, luma, Progress(start, end, it, y, img.width))
         == Transform(img, luma, Progress(start, end, it, y + 1, 0))
  {
    TransformExt(img, luma, Progress(start, end, it, y, img.width), Progress(start, end, it, y + 1, 0));
  }

  lemma ProgressPassEnd(img: Image, luma: Luma, start: nat, end: nat, it: nat, y: nat)
    requires img.Valid() && y >= end
    ensures Transform(img, luma, Progress(start, end, it, y, 0))
         == Transform(img, luma, Progress(start, end, it + 1, start, 0))
  {
    TransformExt(img, luma, Progress(start, end, it, y, 0), Progress(start, end, it + 1, start, 0));
  }

  lemma ProgressStart(img: Image, luma: Luma, start: nat, end: nat)
    requires img.Valid()
    ensures Transform(img, luma, Progress(start, end, 0, start, 0)) == img
  {
    TransformNone(img, luma, Progress(start, end, 0, start, 0));
  }

  lemma ProgressDone(img: Image, luma: Luma, start: nat, end: nat, n: nat)
    requires img.Valid()
    ensures Transform(img, luma, Progress(start, end, n, start, 0)) == Transform(img, luma, BandPasses(start, end, n))
  {
    TransformExt(img, luma, Progress(start, end, n, start, 0), BandPasses(start, end, n));
  }

  // ---- the band loops, one method per loop level ----

  /** The `x` loop over row `y` in pass `it` over rows `[start, end)`: it takes
      the buffer from "row `y` not yet visited in this pass" to "row `y`
      visited". */
  method ConvertRow(img: Image, luma: Luma, start: nat, end: nat, it: nat, y: nat, r0: Image) returns (r: Image)
    requires img.Valid() && start <= y < end && y < img.height
    requires r0 == Transform(img, luma, Progress(start, end, it, y, 0))
    ensures r == Transform(img, luma, Progress(start, end, it, y + 1, 0))
  {
    r := r0;
    var x := 0;
    while x < img.width
      invariant x <= img.width
      invariant r == Transform(img, luma, Progress(start, end, it, y, x))
    {
      ProgressStep(img, luma, start, end, it, y, x);
      r := GrayPixel(r, Pos(y, x), luma);
      x := x + 1;
    }
    ProgressRowEnd(img, luma, start, end, it, y);
  }

  /** The `y` loop: pass `it` over rows `[start, end)` (no rows when the band
      is empty). */
  method ConvertPass(img: Image, luma: Luma, start: nat, end: nat, it: nat, r0: Image) returns (r: Image)
    requires img.Valid() && end <= img.height
    requires r0 == Transform(img, luma, Progress(start, end, it, start, 0))
    ensures r == Transform(img, luma, Progress(start, end, it + 1, start, 0))
  {
    r := r0;
    var y := start;
    while y < end
      invariant start <= y
      invariant y <= end || y == start
      invariant r == Transform(img, luma, Progress(start, end, it, y, 0))
    {
      r := ConvertRow(img, luma, start, end, it, y, r);
      y := y + 1;
    }
    ProgressPassEnd(img, luma, start, end, it, y);
  }
}
