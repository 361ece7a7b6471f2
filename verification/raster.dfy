/** The decoded image buffer shared by every program of the benchmark: a
    row-major array of `width * height` pixels, each `components` bytes long,
    with the red, green and blue samples in channels 0, 1 and 2. */
module Raster {
  import opened Arith

  /** One unsigned 8-bit sample. */
  type byte = x: int | 0 <= x < 256

  /** The first three channels of one pixel. */
  datatype Rgb = Rgb(r: byte, g: byte, b: byte)

  /** The triple every grayscale write produces: the same value in all three channels. */
  function Grey(v: byte): Rgb {
    Rgb(v, v, v)
  }

  /** A luma function. The C code computes `0.299*r + 0.587*g + 0.114*b` in
      double precision and truncates it to `unsigned char`; the model keeps
      that computation abstract and only uses that it yields a byte. */
  type Luma = Rgb -> byte

  /** A pixel position: row `y`, column `x`. */
  datatype Pos = Pos(y: nat, x: nat)

  /** The C expression `(y * width + x) * num_components`: the offset of the
      first byte of pixel (y, x). */
  function Offset(width: nat, components: nat, y: nat, x: nat): nat {
    (y * width + x) * components
  }

  datatype Image = Image(width: nat, height: nat, components: nat, data: seq<byte>) {

    /** The layout the decoder produces (row r starts at `r * width * components`)
        and the transform relies on: at least three channels per pixel. */
    predicate Valid() {
      components >= 3 && |data| == width * height * components
    }

    predicate InBounds(p: Pos) {
      p.y < height && p.x < width
    }

    /** Byte `c` of pixel (y, x). */
    function At(y: nat, x: nat, c: nat): byte
      requires Valid() && y < height && x < width && c < components
    {
      OffsetInBounds(this, y, x, c);
      data[Offset(width, components, y, x) + c]
    }

    /** The three channels the transform reads. */
    function PixelRgb(y: nat, x: nat): Rgb
      requires Valid() && y < height && x < width
    {
      Rgb(At(y, x, 0), At(y, x, 1), At(y, x, 2))
    }

    /** Same geometry and buffer length. */
    predicate SameShape(other: Image) {
      width == other.width && height == other.height && components == other.components
      && |data| == |other.data|
    }
  }

  /** Every byte a pass touches lies inside the buffer: for a pixel inside the
      image and any channel `c < components`, the flat index
      `(y * width + x) * components + c` is below `width * height * components`. */
  lemma OffsetInBounds(img: Image, y: nat, x: nat, c: nat)
    requires img.Valid() && y < img.height && x < img.width && c < img.components
    ensures Offset(img.width, img.components, y, x) + c < |img.data|
    ensures Offset(img.width, img.components, y, x) + 2 < |img.data|
  {
    var w, h, nc := img.width, img.height, img.components;
    MulMono(y, h - 1, w);
    assert y * w + x < h * w by {
      assert (h - 1) * w == h * w - w;
    }
    MulMono(y * w + x + 1, h * w, nc);
    assert (y * w + x + 1) * nc == (y * w + x) * nc + nc;
    assert w * h * nc == h * w * nc;
  }

  /** Distinct (pixel, channel) pairs have distinct flat offsets. */
  lemma OffsetInjective(w: nat, nc: nat, y: nat, x: nat, c: nat, y': nat, x': nat, c': nat)
    requires x < w && x' < w && c < nc && c' < nc
    requires Offset(w, nc, y, x) + c == Offset(w, nc, y', x') + c'
    ensures y == y' && x == x' && c == c'
  {
    var a, a' := y * w + x, y' * w + x';
    UniqueDivMod(nc, a, c, a', c');
    UniqueDivMod(w, y, x, y', x');
  }

  /** Dividing the flat offset of an in-bounds (pixel, channel) pair by the
      pixel size and the width recovers the pair. */
  lemma OffsetDivMod(img: Image, y: nat, x: nat, c: nat)
    requires img.Valid() && y < img.height && x < img.width && c < img.components
    ensures var i := Offset(img.width, img.components, y, x) + c;
      && i < |img.data|
      && i / img.components / img.width == y
      && i / img.components % img.width == x
      && i % img.components == c
  {
    OffsetInBounds(img, y, x, c);
    var a := y * img.width + x;
    DivModOf(a * img.components + c, img.components, a, c);
    DivModOf(a, img.width, y, x);
  }

  /** Every flat index of a valid buffer is the offset of some in-bounds
      (pixel, channel) pair. */
  lemma Decompose(img: Image, i: nat) returns (y: nat, x: nat, c: nat)
    requires img.Valid() && i < |img.data|
    ensures img.width > 0
    ensures y == i / img.components / img.width && x == i / img.components % img.width
    ensures c == i % img.components
    ensures y < img.height && x < img.width && c < img.components
    ensures i == Offset(img.width, img.components, y, x) + c
  {
    var w, h, nc := img.width, img.height, img.components;
    var q;
    q, c := Split(i, nc);
    if q >= w * h {
      MulMono(w * h, q, nc);
      assert false;
    }
    assert w > 0;
    y, x := Split(q, w);
    if y >= h {
      MulMono(h, y, w);
      assert false;
    }
  }

  /** The pixel and channel of flat index `i`, computed by division as a
      function must, lie inside the image. */
  lemma DecomposeDiv(img: Image, i: nat)
    requires img.Valid() && i < |img.data|
    ensures && img.width > 0
            && 0 <= i / img.components / img.width < img.height
            && 0 <= i / img.components % img.width < img.width
            && 0 <= i % img.components < img.components
  {
    var y, x, c := Decompose(img, i);
  }

  /** Two images of the same valid shape that agree on every in-bounds byte are equal. */
  lemma ImageExt(a: Image, b: Image)
    requires a.Valid() && b.Valid() && a.SameShape(b)
    requires forall y: nat, x: nat, c: nat | y < a.height && x < a.width && c < a.components :: a.At(y, x, c) == b.At(y, x, c)
    ensures a == b
  {
    forall i | 0 <= i < |a.data|
      ensures a.data[i] == b.data[i]
    {
      var y, x, c := Decompose(a, i);
      assert a.At(y, x, c) == b.At(y, x, c);
    }
  }
}
