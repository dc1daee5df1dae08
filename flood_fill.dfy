/**
 * `fill` and `bboxes` of src/lib.rs over an `Image` updated in place.
 */
module FloodFill {
  import opened Wrappers
  import opened Images
  import opened Rects
  import opened SpanSpec
  import opened Regions
  import opened FillProof
  import opened Sweeps

  /** The `set_pixel` closure of `fill`: paint `(x, y)` with `nv` and grow the box to take it in. */
  method PaintPixel<T(==)>(img: Image<T>, nv: T, x: int, y: int, rect: Rect) returns (rect1: Rect)
    requires img.Valid()
    modifies img
    ensures img.Valid()
    ensures img.data == Write(old(img.data), img.width, img.height, x, y, nv)
    ensures rect1 == rect.Insert(x, y)
  {
    img.SetPixel(x, y, nv);
    rect1 := rect.Insert(x, y);
  }

  /** The loop at src/lib.rs:79-82: paint leftwards while the left neighbour is flooded-colour. */
  method ExtendLeftLoop<T(==)>(img: Image<T>, inside: T, nv: T, x1: int, y: int, s: seq<Span>, rect: Rect)
      returns (x: int, rect1: Rect)
    requires img.Valid()
    modifies img
    ensures img.Valid()
    ensures Cursor(img.data, x, s, rect1) == ExtendLeft(Env(img.width, img.height, inside, nv), old(img.data), x1, y, s, rect)
  {
    ghost var e := Env(img.width, img.height, inside, nv);
    x, rect1 := x1, rect;
    while img.GetPixel(x - 1, y) == Some(inside)
      invariant img.Valid()
      invariant ExtendLeft(e, img.data, x, y, s, rect1) == ExtendLeft(e, old(img.data), x1, y, s, rect)
      decreases x
    {
      rect1 := PaintPixel(img, nv, x - 1, y, rect1);
      x := x - 1;
    }
  }

  /** The loop at src/lib.rs:90-97: paint one run rightwards from `x1`, pushing as it goes. */
  method PaintRunLoop<T(==)>(img: Image<T>, inside: T, nv: T, x: int, x1: int, x2: int, y: int, dy: int,
                             s: seq<Span>, rect: Rect) returns (e1: int, s1: seq<Span>, rect1: Rect)
    requires img.Valid()
    modifies img
    ensures img.Valid()
    ensures Cursor(img.data, e1, s1, rect1) == PaintRun(Env(img.width, img.height, inside, nv), old(img.data), x, x1, x2, y, dy, s, rect)
  {
    ghost var e := Env(img.width, img.height, inside, nv);
    e1, s1, rect1 := x1, s, rect;
    while img.GetPixel(e1, y) == Some(inside)
      invariant img.Valid()
      invariant PaintRun(e, img.data, x, e1, x2, y, dy, s1, rect1) == PaintRun(e, old(img.data), x, x1, x2, y, dy, s, rect)
      decreases img.width - e1
    {
      rect1 := PaintPixel(img, nv, e1, y, rect1);
      e1 := e1 + 1;
      s1 := s1 + [Span(x, e1 - 1, y + dy, dy)];
      if e1 - 1 > x2 {
        s1 := s1 + [Span(x2 + 1, e1 - 1, y - dy, -dy)];
      }
    }
  }

  /** The loop at src/lib.rs:101-103: step over pixels that are not flooded-colour, stopping at `x2`. */
  method SkipGapLoop<T(==)>(img: Image<T>, inside: T, ghost nv: T, x1: int, x2: int, y: int) returns (r: int)
    requires img.Valid()
    ensures r == SkipGap(Env(img.width, img.height, inside, nv), img.data, x1, x2, y)
  {
    ghost var e := Env(img.width, img.height, inside, nv);
    r := x1;
    while r < x2 && img.GetPixel(r, y) != Some(inside)
      invariant SkipGap(e, img.data, r, x2, y) == SkipGap(e, img.data, x1, x2, y)
      decreases x2 - r
    {
      r := r + 1;
    }
  }

  /** The loop at src/lib.rs:89-106: alternate runs and gaps until the cursor passes `x2`. */
  method ScanRowLoop<T(==)>(img: Image<T>, inside: T, nv: T, x: int, x1: int, x2: int, y: int, dy: int,
                            s: seq<Span>, rect: Rect) returns (s1: seq<Span>, rect1: Rect)
    requires img.Valid()
    modifies img
    ensures img.Valid()
    ensures State(img.data, s1, rect1) == ScanRow(Env(img.width, img.height, inside, nv), old(img.data), x, x1, x2, y, dy, s, rect)
  {
    ghost var e := Env(img.width, img.height, inside, nv);
    var x', x1' := x, x1;
    s1, rect1 := s, rect;
    while x1' <= x2
      invariant img.Valid()
      invariant ScanRow(e, img.data, x', x1', x2, y, dy, s1, rect1) == ScanRow(e, old(img.data), x, x1, x2, y, dy, s, rect)
      decreases x2 - x1'
    {
      ghost var run := PaintRun(e, img.data, x', x1', x2, y, dy, s1, rect1);
      ghost var before := ScanRow(e, img.data, x', x1', x2, y, dy, s1, rect1);
      x1', s1, rect1 := PaintRunLoop(img, inside, nv, x', x1', x2, y, dy, s1, rect1);
      assert img.data == run.g && x1' == run.x && s1 == run.s && rect1 == run.rect;
      x1' := x1' + 1;
      x1' := SkipGapLoop(img, inside, nv, x1', x2, y);
      x' := x1';
      assert before == ScanRow(e, img.data, x', x1', x2, y, dy, s1, rect1);
    }
  }

  /**
   * `fill`: span flood fill from `(x, y)` with a LIFO work list.  Returns
   * `None`, changing nothing, when the seed is off the grid or already has
   * colour `nv`; otherwise paints and returns the box of what it painted.
   */
  method Fill<T(==)>(x: int, y: int, nv: T, img: Image<T>) returns (r: Option<Rect>)
    requires img.Valid()
    modifies img
    ensures img.Valid()
    ensures Filled(img.data, r) == FillSpec(old(img.data), img.width, img.height, x, y, nv)
    ensures r.None? <==> !InBounds(img.width, img.height, x, y) || old(img.data)[Index(img.width, img.height, x, y)] == nv
    ensures r.None? ==> img.data == old(img.data)
    ensures r.Some? ==>
      var v := old(img.data)[Index(img.width, img.height, x, y)];
      RegionFilled(old(img.data), img.data, img.width, img.height, x, y, v, nv) &&
      RegionBox(old(img.data), img.width, img.height, x, y, v, r.value)
    ensures r.Some? ==> At(img.data, img.width, img.height, x, y) == Some(nv)
  {
    ghost var g := img.data;
    var inside: T;
    match img.GetPixel(x, y) {
      case None =>
        FillNone(g, img.width, img.height, x, y, nv);
        return None;
      case Some(px) =>
        if px == nv {
          FillNone(g, img.width, img.height, x, y, nv);
          return None;
        }
        inside := px;
    }
    ghost var e := Env(img.width, img.height, inside, nv);
    var rect := Rect.Point(x, y);
    var s: seq<Span> := [];
    s := s + [Span(x, x, y, 1)];
    s := s + [Span(x, x, y - 1, -1)];
    ghost var st0 := State(img.data, s, rect);
    assert s == [Span(x, x, y, 1), Span(x, x, y - 1, -1)];

    while s != []
      invariant img.Valid() && e.inside != e.nv
      invariant Drain(e, State(img.data, s, rect)) == Drain(e, st0)
      decreases Count(img.data, inside), |s|
    {
      ghost var g0, rect0 := img.data, rect;
      var t := s[|s| - 1];
      s := s[..|s| - 1];
      ghost var rest := s;
      var x1, x2, y, dy := t.x1, t.x2, t.y, t.dy;
      var x := x1;
      if img.GetPixel(x, y) == Some(inside) {
        x, rect := ExtendLeftLoop(img, inside, nv, x1, y, s, rect);
      }

      if x < x1 {
        s := s + [Span(x, x1 - 1, y - dy, -dy)];
      }

      ghost var scan := ScanRow(e, img.data, x, x1, x2, y, dy, s, rect);
      s, rect := ScanRowLoop(img, inside, nv, x, x1, x2, y, dy, s, rect);
      assert State(img.data, s, rect) == scan == StepSpan(e, g0, t, rest, rect0);
      StepCount(e, g0, t, rest, rect0);
    }

    assert Drain(e, State(img.data, s, rect)) == State(img.data, s, rect);
    r := Some(rect);
    FillNone(g, img.width, img.height, x, y, nv);
    FillSome(g, img.width, img.height, x, y, nv, inside);
  }

  /**
   * `bboxes`: flood every pixel of the grid in row-major order with `nv`,
   * collecting the box and the former colour of each region painted.  The
   * image ends all `nv`; the boxes belong, in order, to the regions whose
   * first pixel in row-major order is the seed that painted them; every pixel
   * not already `nv` lies in one of those regions, and no region is listed twice.
   */
  method BBoxes<T(==)>(nv: T, img: Image<T>) returns (rects: seq<(Rect, T)>, ghost seeds: seq<Pos>)
    requires img.Valid()
    modifies img
    ensures img.Valid()
    ensures Swept(img.data, rects) == BBoxesSpec(old(img.data), img.width, img.height, nv)
    ensures forall a, b :: InBounds(img.width, img.height, a, b) ==> At(img.data, img.width, img.height, a, b) == Some(nv)
    ensures |seeds| == |rects|
    ensures forall j :: 0 <= j < |seeds| ==> SeedBox(old(img.data), img.width, img.height, nv, seeds[j], rects[j])
    ensures forall i, j :: 0 <= i < j < |seeds| ==> Ahead(img.width, img.height, seeds[i], seeds[j])
    ensures forall a, b :: Leader(old(img.data), img.width, img.height, nv, a, b) ==> Pos(a, b) in seeds
    ensures Covers(old(img.data), img.width, img.height, nv, seeds) && OnePerRegion(old(img.data), img.width, img.height, seeds)
    ensures |rects| <= img.width * img.height && forall j :: 0 <= j < |rects| ==> rects[j].1 != nv
    ensures |rects| == 0 <==> forall a, b :: InBounds(img.width, img.height, a, b) ==> At(old(img.data), img.width, img.height, a, b) == Some(nv)
  {
    ghost var g0 := img.data;
    seeds := BBoxesCorrect(g0, img.width, img.height, nv);
    BoxesCount(g0, img.width, img.height, nv);
    rects := [];
    var y := 0;
    while y < img.height
      invariant img.Valid() && 0 <= y <= img.height
      invariant Sweep(img.data, img.width, img.height, nv, 0, y, rects) == BBoxesSpec(g0, img.width, img.height, nv)
      decreases img.height - y
    {
      var x := 0;
      while x < img.width
        invariant img.Valid() && 0 <= x <= img.width
        invariant Sweep(img.data, img.width, img.height, nv, x, y, rects) == BBoxesSpec(g0, img.width, img.height, nv)
        decreases img.width - x
      {
        var color := img.GetPixel(x, y).value;
        var r := Fill(x, y, nv, img);
        if r.Some? {
          rects := rects + [(r.value, color)];
        }
        x := x + 1;
      }
      y := y + 1;
    }
  }
}
