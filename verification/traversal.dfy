/** Pixel traversals as sequences of positions: the row-major loops of the
    three programs, and how often a traversal visits each pixel. */
module Traversal {
  import opened Raster

  /** How often pixel `p` occurs in the traversal `ps`. */
  function Count(ps: seq<Pos>, p: Pos): nat {
    if ps == [] then 0 else Count(ps[..|ps| - 1], p) + (if ps[|ps| - 1] == p then 1 else 0)
  }

  /** `Count` is the multiplicity of `p` in the multiset of `ps`. */
  lemma {:induction false} CountIsMultiplicity(ps: seq<Pos>, p: Pos)
    ensures Count(ps, p) == multiset(ps)[p]
    decreases |ps|
  {
    if ps != [] {
      var front := ps[..|ps| - 1];
      assert ps == front + [ps[|ps| - 1]];
      CountIsMultiplicity(front, p);
    }
  }

  /** Every element of a traversal is visited at least once. */
  lemma CountOfMember(ps: seq<Pos>, k: nat)
    requires k < |ps|
    ensures Count(ps, ps[k]) >= 1
  {
    CountIsMultiplicity(ps, ps[k]);
    assert ps[k] in multiset(ps);
  }

  /** Appending one pixel adds one occurrence of it. */
  lemma CountSnoc(a: seq<Pos>, e: Pos, p: Pos)
    ensures Count(a + [e], p) == Count(a, p) + (if e == p then 1 else 0)
  {
    assert (a + [e])[..|a|] == a;
  }

  /** Occurrences in a concatenation add up. */
  lemma {:induction false} CountAppend(a: seq<Pos>, b: seq<Pos>, p: Pos)
    ensures Count(a + b, p) == Count(a, p) + Count(b, p)
    decreases |b|
  {
    if b != [] {
      var b' := b[..|b| - 1];
      assert (a + b)[..|a + b| - 1] == a + b';
      CountAppend(a, b', p);
    } else {
      assert a + b == a;
    }
  }

  /** The `x` loop: pixels (y, 0), ..., (y, n - 1). */
  function Row(y: nat, n: nat): (ps: seq<Pos>)
    ensures |ps| == n
  {
    if n == 0 then [] else Row(y, n - 1) + [Pos(y, n - 1)]
  }

  /** The `y` loop over rows `[start, end)` of an image `width` pixels wide. */
  function RowMajor(width: nat, start: nat, end: nat): seq<Pos>
    decreases end
  {
    if end <= start then [] else RowMajor(width, start, end - 1) + Row(end - 1, width)
  }

  /** The outer `iteration` loop: the row-major traversal `n` times over. */
  function Repeated(ps: seq<Pos>, n: nat): seq<Pos> {
    if n == 0 then [] else Repeated(ps, n - 1) + ps
  }

  /** The `x` loop visits (y, 0), ..., (y, n - 1), in this order. */
  lemma {:induction false} RowContents(y: nat, n: nat)
    ensures |Row(y, n)| == n && forall i | 0 <= i < n :: Row(y, n)[i] == Pos(y, i)
  {
    if n > 0 {
      RowContents(y, n - 1);
    }
  }

  /** The `y` loop only visits pixels of rows `[start, end)` left of `width`. */
  lemma {:induction false} RowMajorWithin(width: nat, start: nat, end: nat)
    ensures forall q | q in RowMajor(width, start, end) :: start <= q.y < end && q.x < width
    decreases end
  {
    if end > start {
      RowMajorWithin(width, start, end - 1);
      RowContents(end - 1, width);
    }
  }

  /** Repeating a traversal visits no pixel it does not visit. */
  lemma {:induction false} RepeatedWithin(ps: seq<Pos>, n: nat)
    ensures forall q | q in Repeated(ps, n) :: q in ps
  {
    if n > 0 {
      RepeatedWithin(ps, n - 1);
    }
  }

  lemma {:induction false} RowCount(y: nat, n: nat, p: Pos)
    ensures Count(Row(y, n), p) == if p.y == y && p.x < n then 1 else 0
  {
    if n > 0 {
      RowCount(y, n - 1, p);
      CountSnoc(Row(y, n - 1), Pos(y, n - 1), p);
    }
  }

  /** Row `end - 1` adds one occurrence of each of its pixels ... */
  lemma RowMajorHit(width: nat, start: nat, end: nat, p: Pos)
    requires start < end && p.y == end - 1 && p.x < width
    ensures Count(RowMajor(width, start, end), p) == Count(RowMajor(width, start, end - 1), p) + 1
  {
    CountAppend(RowMajor(width, start, end - 1), Row(end - 1, width), p);
    RowCount(end - 1, width, p);
  }

  /** ... and no occurrence of any other pixel. */
  lemma RowMajorMiss(width: nat, start: nat, end: nat, p: Pos)
    requires start < end && !(p.y == end - 1 && p.x < width)
    ensures Count(RowMajor(width, start, end), p) == Count(RowMajor(width, start, end - 1), p)
  {
    CountAppend(RowMajor(width, start, end - 1), Row(end - 1, width), p);
    RowCount(end - 1, width, p);
  }

  /** A pixel of rows `[start, end)` occurs once in their row-major traversal. */
  lemma {:induction false} RowMajorInside(width: nat, start: nat, end: nat, p: Pos)
    requires start <= p.y < end && p.x < width
    ensures Count(RowMajor(width, start, end), p) == 1
    decreases end
  {
    if p.y < end - 1 {
      RowMajorMiss(width, start, end, p);
      RowMajorInside(width, start, end - 1, p);
    } else {
      RowMajorHit(width, start, end, p);
      RowMajorOutside(width, start, end - 1, p);
    }
  }

  /** Any other pixel does not occur in it. */
  lemma {:induction false} RowMajorOutside(width: nat, start: nat, end: nat, p: Pos)
    requires !(start <= p.y < end && p.x < width)
    ensures Count(RowMajor(width, start, end), p) == 0
    decreases end
  {
    if end > start {
      RowMajorMiss(width, start, end, p);
      RowMajorOutside(width, start, end - 1, p);
    }
  }

  /** The `y` and `x` loops visit each pixel of rows `[start, end)` exactly
      once and no other pixel. */
  lemma RowMajorCount(width: nat, start: nat, end: nat, p: Pos)
    ensures Count(RowMajor(width, start, end), p) == if start <= p.y < end && p.x < width then 1 else 0
  {
    if start <= p.y < end && p.x < width {
      RowMajorInside(width, start, end, p);
    } else {
      RowMajorOutside(width, start, end, p);
    }
  }

  lemma {:induction false} RepeatedCount(ps: seq<Pos>, n: nat, p: Pos)
    ensures Count(Repeated(ps, n), p) == n * Count(ps, p)
  {
    if n > 0 {
      RepeatedCount(ps, n - 1, p);
      CountAppend(Repeated(ps, n - 1), ps, p);
      var c := Count(ps, p);
      assert (n - 1) * c + c == n * c;
    }
  }

  /** Visits of pixel `p` in `n` row-major passes over rows `[start, end)`. */
  lemma BandScheduleCount(width: nat, start: nat, end: nat, n: nat, p: Pos)
    ensures Count(Repeated(RowMajor(width, start, end), n), p) == if start <= p.y < end && p.x < width then n else 0
  {
    var ps := RowMajor(width, start, end);
    RepeatedCount(ps, n, p);
    if start <= p.y < end && p.x < width {
      RowMajorInside(width, start, end, p);
      assert n * Count(ps, p) == n;
    } else {
      RowMajorOutside(width, start, end, p);
      assert n * Count(ps, p) == 0;
    }
  }
}
