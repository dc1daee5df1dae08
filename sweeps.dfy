/**
 * `bboxes` (src/lib.rs:38-55): call `fill` at every pixel in row-major
 * order, keeping the box and the pixel's colour whenever `fill` paints.
 *
 * Each call sees the image as the earlier calls left it.  The lemmas relate
 * that image to the original one: every box returned is the bounding box of
 * one 4-connected single-colour region of the ORIGINAL image, each region
 * not already of the paint colour is reported exactly once, at its first
 * pixel in row-major order, and afterwards every pixel holds the paint.
 */
module Sweeps {
  import opened Wrappers
  import opened Images
  import opened Rects
  import opened Regions
  import opened SpanSpec
  import opened FillProof

  /** What `bboxes` leaves behind: the grid and the list of boxes with their colours. */
  datatype Swept<T> = Swept(g: seq<T>, boxes: seq<(Rect, T)>)

  /** The two nested `for` loops at src/lib.rs:45-52, from column `x` of row `y` on. */
  function Sweep<T(==)>(g: seq<T>, w: nat, h: nat, nv: T, x: nat, y: nat, boxes: seq<(Rect, T)>): (r: Swept<T>)
    requires |g| == w * h && x <= w
    ensures |r.g| == |g|
    decreases h - y, w - x
  {
    if y >= h then Swept(g, boxes)
    else if x == w then Sweep(g, w, h, nv, 0, y + 1, boxes)
    else
      var color := g[Index(w, h, x, y)];
      var f := FillSpec(g, w, h, x, y, nv);
      Sweep(f.g, w, h, nv, x + 1, y, if f.rect.Some? then boxes + [(f.rect.value, color)] else boxes)
  }

  /** `bboxes` on the grid `g`. */
  function BBoxesSpec<T(==)>(g: seq<T>, w: nat, h: nat, nv: T): (r: Swept<T>)
    requires |g| == w * h
    ensures |r.g| == |g|
  {
    Sweep(g, w, h, nv, 0, 0, [])
  }

  /** `(a, b)` lies on the grid strictly before row-major position `k`. */
  predicate Before(w: nat, h: nat, k: int, a: int, b: int)
  {
    InBounds(w, h, a, b) && Index(w, h, a, b) < k
  }

  /**
   * After the pixels before position `k` have been visited, `(a, b)` of the
   * original grid `g0` holds the paint: it had the paint already, or it lies
   * in the region of some visited pixel.
   */
  ghost predicate Done<T>(g0: seq<T>, w: nat, h: nat, nv: T, k: int, a: int, b: int)
  {
    At(g0, w, h, a, b) == Some(nv) ||
    exists a', b' {:trigger Same(g0, w, h, a', b', a, b)} :: Before(w, h, k, a', b') && Same(g0, w, h, a', b', a, b)
  }

  /** `(a, b)` is in the region of `(x, y)`, whatever their common colour. */
  ghost predicate Same<T>(g0: seq<T>, w: nat, h: nat, x: int, y: int, a: int, b: int)
  {
    At(g0, w, h, a, b).Some? && Reach(g0, w, h, At(g0, w, h, a, b).value, x, y, a, b)
  }

  /** `Same` for a walk of a known colour. */
  lemma SameOf<T>(g0: seq<T>, w: nat, h: nat, v: T, x: int, y: int, a: int, b: int)
    requires Reach(g0, w, h, v, x, y, a, b)
    ensures Same(g0, w, h, x, y, a, b) && At(g0, w, h, x, y) == Some(v)
  {
    ReachColour(g0, w, h, v, x, y, a, b);
    ReachSymmetric(g0, w, h, v, x, y, a, b);
    ReachColour(g0, w, h, v, a, b, x, y);
  }

  /** `(a, b)` is the first pixel, in row-major order, of a region that does not have the paint. */
  ghost predicate Leader<T>(g0: seq<T>, w: nat, h: nat, nv: T, a: int, b: int)
  {
    InBounds(w, h, a, b) && !Done(g0, w, h, nv, Index(w, h, a, b), a, b)
  }

  /** The grid after visiting the pixels before position `k`. */
  ghost predicate GridAt<T>(g0: seq<T>, g: seq<T>, w: nat, h: nat, nv: T, k: int)
  {
    |g| == |g0| &&
    forall a, b {:trigger Done(g0, w, h, nv, k, a, b)} ::
      At(g, w, h, a, b) == if Done(g0, w, h, nv, k, a, b) then Some(nv) else At(g0, w, h, a, b)
  }

  /** Box `e` with its colour is what `bboxes` reports for the leader at `p`. */
  ghost predicate SeedBox<T>(g0: seq<T>, w: nat, h: nat, nv: T, p: Pos, e: (Rect, T))
  {
    Leader(g0, w, h, nv, p.x, p.y) && At(g0, w, h, p.x, p.y) == Some(e.1) &&
    RegionBox(g0, w, h, p.x, p.y, e.1, e.0)
  }

  predicate Ahead(w: nat, h: nat, p: Pos, q: Pos)
  {
    InBounds(w, h, p.x, p.y) && InBounds(w, h, q.x, q.y) && Index(w, h, p.x, p.y) < Index(w, h, q.x, q.y)
  }

  /** `boxes` lists, for the leaders before position `k` in order, their boxes and colours. */
  ghost predicate BoxesAt<T>(g0: seq<T>, w: nat, h: nat, nv: T, k: int, seeds: seq<Pos>, boxes: seq<(Rect, T)>)
  {
    |seeds| == |boxes| &&
    (forall j :: 0 <= j < |seeds| ==> SeedBox(g0, w, h, nv, seeds[j], boxes[j]) && Before(w, h, k, seeds[j].x, seeds[j].y)) &&
    (forall i, j :: 0 <= i < j < |seeds| ==> Ahead(w, h, seeds[i], seeds[j])) &&
    (forall a, b {:trigger Leader(g0, w, h, nv, a, b)} :: Leader(g0, w, h, nv, a, b) && Before(w, h, k, a, b) ==> Pos(a, b) in seeds)
  }

  /** Being painted spreads along regions: a pixel in the region of a painted one is painted. */
  lemma DoneSpread<T>(g0: seq<T>, w: nat, h: nat, nv: T, k: int, x: int, y: int, a: int, b: int, v: T)
    requires Reach(g0, w, h, v, x, y, a, b)
    ensures Done(g0, w, h, nv, k, x, y) ==> Done(g0, w, h, nv, k, a, b)
  {
    SameOf(g0, w, h, v, x, y, a, b);
    if Done(g0, w, h, nv, k, x, y) && At(g0, w, h, x, y) != Some(nv) {
      var a', b' :| Before(w, h, k, a', b') && Same(g0, w, h, a', b', x, y);
      ReachTrans(g0, w, h, v, a', b', x, y, a, b);
      SameOf(g0, w, h, v, a', b', a, b);
    }
  }

  /** Visiting `(x, y)` at position `k` adds the region of `(x, y)` to what is painted. */
  lemma DoneNext<T>(g0: seq<T>, w: nat, h: nat, nv: T, x: int, y: int, a: int, b: int)
    requires InBounds(w, h, x, y)
    ensures var k := Index(w, h, x, y);
      Done(g0, w, h, nv, k + 1, a, b) <==> Done(g0, w, h, nv, k, a, b) || Same(g0, w, h, x, y, a, b)
  {
    var k := Index(w, h, x, y);
    if Done(g0, w, h, nv, k + 1, a, b) && At(g0, w, h, a, b) != Some(nv) {
      var a', b' :| Before(w, h, k + 1, a', b') && Same(g0, w, h, a', b', a, b);
      IndexInjective(w, h, x, y, a', b');
      if Index(w, h, a', b') < k {
        assert Done(g0, w, h, nv, k, a, b);
      }
    }
    if Done(g0, w, h, nv, k, a, b) && At(g0, w, h, a, b) != Some(nv) {
      var a', b' :| Before(w, h, k, a', b') && Same(g0, w, h, a', b', a, b);
      assert Before(w, h, k + 1, a', b');
    }
    if Same(g0, w, h, x, y, a, b) {
      assert Before(w, h, k + 1, x, y);
    }
  }

  /** Nothing in the region of an unpainted pixel has been painted. */
  lemma NotDoneAlong<T>(g0: seq<T>, w: nat, h: nat, nv: T, k: int, x: int, y: int, a: int, b: int, v: T)
    requires !Done(g0, w, h, nv, k, x, y) && Reach(g0, w, h, v, x, y, a, b)
    ensures !Done(g0, w, h, nv, k, a, b)
  {
    ReachSymmetric(g0, w, h, v, x, y, a, b);
    DoneSpread(g0, w, h, nv, k, a, b, x, y, v);
  }

  /**
   * At an unpainted pixel, its region in the current grid is its region in
   * the original grid: earlier calls painted whole regions and none of them
   * touched this one.
   */
  lemma RegionEq<T>(g0: seq<T>, g: seq<T>, w: nat, h: nat, nv: T, k: int, x: int, y: int, v: T, a: int, b: int)
    requires GridAt(g0, g, w, h, nv, k) && !Done(g0, w, h, nv, k, x, y) && At(g0, w, h, x, y) == Some(v)
    ensures Reach(g, w, h, v, x, y, a, b) <==> Reach(g0, w, h, v, x, y, a, b)
  {
    if Reach(g, w, h, v, x, y, a, b) {
      var p: seq<Pos> :| Walk(g, w, h, v, p, x, y, a, b);
      forall i | 0 <= i < |p| ensures At(g0, w, h, p[i].x, p[i].y) == Some(v) {
        assert At(g, w, h, p[i].x, p[i].y) == Some(v) && !Done(g0, w, h, nv, k, p[i].x, p[i].y);
      }
      assert Walk(g0, w, h, v, p, x, y, a, b);
    }
    if Reach(g0, w, h, v, x, y, a, b) {
      var p: seq<Pos> :| Walk(g0, w, h, v, p, x, y, a, b);
      forall i | 0 <= i < |p| ensures At(g, w, h, p[i].x, p[i].y) == Some(v) {
        ReachPrefix(g0, w, h, v, p, x, y, a, b, i);
        NotDoneAlong(g0, w, h, nv, k, x, y, p[i].x, p[i].y, v);
      }
      assert Walk(g, w, h, v, p, x, y, a, b);
    }
  }

  /** The box of a region of the current grid is the box of the same region of the original grid. */
  lemma BoxEq<T>(g0: seq<T>, g: seq<T>, w: nat, h: nat, nv: T, k: int, x: int, y: int, v: T, box: Rect)
    requires GridAt(g0, g, w, h, nv, k) && !Done(g0, w, h, nv, k, x, y) && At(g0, w, h, x, y) == Some(v)
    requires RegionBox(g, w, h, x, y, v, box)
    ensures RegionBox(g0, w, h, x, y, v, box)
  {
    forall a, b ensures Reach(g, w, h, v, x, y, a, b) <==> Reach(g0, w, h, v, x, y, a, b) {
      RegionEq(g0, g, w, h, nv, k, x, y, v, a, b);
    }
  }

  /** Visiting a pixel that already holds the paint: `fill` returns `None` and nothing changes. */
  lemma StepPainted<T>(g0: seq<T>, g: seq<T>, w: nat, h: nat, nv: T, x: int, y: int,
                       seeds: seq<Pos>, boxes: seq<(Rect, T)>)
    requires |g0| == w * h && InBounds(w, h, x, y)
    requires GridAt(g0, g, w, h, nv, Index(w, h, x, y)) && BoxesAt(g0, w, h, nv, Index(w, h, x, y), seeds, boxes)
    requires At(g, w, h, x, y) == Some(nv)
    ensures GridAt(g0, g, w, h, nv, Index(w, h, x, y) + 1) && BoxesAt(g0, w, h, nv, Index(w, h, x, y) + 1, seeds, boxes)
  {
    var k := Index(w, h, x, y);
    assert Done(g0, w, h, nv, k, x, y);
    forall a, b ensures At(g, w, h, a, b) == if Done(g0, w, h, nv, k + 1, a, b) then Some(nv) else At(g0, w, h, a, b) {
      DoneNext(g0, w, h, nv, x, y, a, b);
      if Same(g0, w, h, x, y, a, b) {
        DoneSpread(g0, w, h, nv, k, x, y, a, b, g0[Index(w, h, a, b)]);
      }
      assert At(g, w, h, a, b) == if Done(g0, w, h, nv, k, a, b) then Some(nv) else At(g0, w, h, a, b);
    }
    forall a, b | Leader(g0, w, h, nv, a, b) && Before(w, h, k + 1, a, b) ensures Pos(a, b) in seeds {
      IndexInjective(w, h, x, y, a, b);
      assert Before(w, h, k, a, b);
    }
  }

  /** Painting the region of an unpainted pixel `(x, y)` of colour `v` moves the grid invariant past it. */
  lemma GridFresh<T>(g0: seq<T>, g: seq<T>, g': seq<T>, w: nat, h: nat, nv: T, x: int, y: int, v: T)
    requires InBounds(w, h, x, y) && GridAt(g0, g, w, h, nv, Index(w, h, x, y))
    requires At(g, w, h, x, y) == Some(v) && v != nv
    requires RegionFilled(g, g', w, h, x, y, v, nv)
    ensures GridAt(g0, g', w, h, nv, Index(w, h, x, y) + 1)
  {
    var k := Index(w, h, x, y);
    assert !Done(g0, w, h, nv, k, x, y);
    forall a, b ensures At(g', w, h, a, b) == if Done(g0, w, h, nv, k + 1, a, b) then Some(nv) else At(g0, w, h, a, b) {
      DoneNext(g0, w, h, nv, x, y, a, b);
      RegionEq(g0, g, w, h, nv, k, x, y, v, a, b);
      if Same(g0, w, h, x, y, a, b) {
        SameOf(g0, w, h, g0[Index(w, h, a, b)], x, y, a, b);
      }
      if Reach(g0, w, h, v, x, y, a, b) {
        SameOf(g0, w, h, v, x, y, a, b);
      }
    }
  }

  /** Appending the leader at position `k` and its box extends the list past position `k`. */
  lemma BoxesSnoc<T>(g0: seq<T>, w: nat, h: nat, nv: T, k: int, seeds: seq<Pos>, boxes: seq<(Rect, T)>,
                     p: Pos, e: (Rect, T))
    requires BoxesAt(g0, w, h, nv, k, seeds, boxes)
    requires InBounds(w, h, p.x, p.y) && Index(w, h, p.x, p.y) == k && SeedBox(g0, w, h, nv, p, e)
    ensures BoxesAt(g0, w, h, nv, k + 1, seeds + [p], boxes + [e])
  {
    var seeds', boxes' := seeds + [p], boxes + [e];
    forall j | 0 <= j < |seeds'|
      ensures SeedBox(g0, w, h, nv, seeds'[j], boxes'[j]) && Before(w, h, k + 1, seeds'[j].x, seeds'[j].y)
    {
      if j < |seeds| {
        assert seeds'[j] == seeds[j] && boxes'[j] == boxes[j];
      }
    }
    forall i, j | 0 <= i < j < |seeds'| ensures Ahead(w, h, seeds'[i], seeds'[j]) {
      assert seeds'[i] == seeds[i];
      if j < |seeds| {
        assert seeds'[j] == seeds[j];
      }
    }
    forall a, b | Leader(g0, w, h, nv, a, b) && Before(w, h, k + 1, a, b) ensures Pos(a, b) in seeds' {
      IndexInjective(w, h, p.x, p.y, a, b);
      if Index(w, h, a, b) < k {
        assert Pos(a, b) in seeds;
      }
    }
  }

  /** An unpainted pixel is a leader, and the box of its current region is that of its original one. */
  lemma FreshSeed<T>(g0: seq<T>, g: seq<T>, w: nat, h: nat, nv: T, x: int, y: int, v: T, box: Rect)
    requires InBounds(w, h, x, y) && GridAt(g0, g, w, h, nv, Index(w, h, x, y))
    requires At(g, w, h, x, y) == Some(v) && v != nv
    requires RegionBox(g, w, h, x, y, v, box)
    ensures SeedBox(g0, w, h, nv, Pos(x, y), (box, v))
  {
    var k := Index(w, h, x, y);
    assert !Done(g0, w, h, nv, k, x, y);
    BoxEq(g0, g, w, h, nv, k, x, y, v, box);
  }

  /** Visiting a pixel that does not hold the paint: `fill` paints its region and reports its box. */
  lemma StepFresh<T>(g0: seq<T>, g: seq<T>, w: nat, h: nat, nv: T, x: int, y: int,
                     seeds: seq<Pos>, boxes: seq<(Rect, T)>, v: T, f: Filled<T>)
    requires InBounds(w, h, x, y)
    requires GridAt(g0, g, w, h, nv, Index(w, h, x, y)) && BoxesAt(g0, w, h, nv, Index(w, h, x, y), seeds, boxes)
    requires At(g, w, h, x, y) == Some(v) && v != nv
    requires f.rect.Some? && RegionFilled(g, f.g, w, h, x, y, v, nv) && RegionBox(g, w, h, x, y, v, f.rect.value)
    ensures GridAt(g0, f.g, w, h, nv, Index(w, h, x, y) + 1)
    ensures BoxesAt(g0, w, h, nv, Index(w, h, x, y) + 1, seeds + [Pos(x, y)], boxes + [(f.rect.value, v)])
  {
    GridFresh(g0, g, f.g, w, h, nv, x, y, v);
    FreshSeed(g0, g, w, h, nv, x, y, v, f.rect.value);
    BoxesSnoc(g0, w, h, nv, Index(w, h, x, y), seeds, boxes, Pos(x, y), (f.rect.value, v));
  }

  lemma RowEnd(w: nat, y: int)
    ensures y * w + w == (y + 1) * w
  {
  }

  /** One visit of the inner loop at src/lib.rs:46-51 keeps both invariants. */
  lemma SweepStep<T>(g0: seq<T>, g: seq<T>, w: nat, h: nat, nv: T, x: nat, y: nat, k: int,
                     seeds: seq<Pos>, boxes: seq<(Rect, T)>) returns (g': seq<T>, seeds': seq<Pos>, boxes': seq<(Rect, T)>)
    requires |g0| == w * h && |g| == w * h && x < w && y < h && k == y * w + x
    requires GridAt(g0, g, w, h, nv, k) && BoxesAt(g0, w, h, nv, k, seeds, boxes)
    ensures |g'| == w * h && Sweep(g, w, h, nv, x, y, boxes) == Sweep(g', w, h, nv, x + 1, y, boxes')
    ensures GridAt(g0, g', w, h, nv, k + 1) && BoxesAt(g0, w, h, nv, k + 1, seeds', boxes')
  {
    var f := FillSpec(g, w, h, x, y, nv);
    var color := g[Index(w, h, x, y)];
    g' := f.g;
    if color == nv {
      FillNone(g, w, h, x, y, nv);
      StepPainted(g0, g, w, h, nv, x, y, seeds, boxes);
      seeds', boxes' := seeds, boxes;
    } else {
      FillSome(g, w, h, x, y, nv, color);
      StepFresh(g0, g, w, h, nv, x, y, seeds, boxes, color, f);
      seeds', boxes' := seeds + [Pos(x, y)], boxes + [(f.rect.value, color)];
    }
  }

  /** Past the last row the sweep stops. */
  lemma SweepDone<T>(g: seq<T>, w: nat, h: nat, nv: T, y: nat, boxes: seq<(Rect, T)>)
    requires |g| == w * h && y >= h
    ensures Sweep(g, w, h, nv, 0, y, boxes) == Swept(g, boxes)
  {
  }

  /** At the end of a row the sweep goes on with the next one. */
  lemma SweepRowEnd<T>(g: seq<T>, w: nat, h: nat, nv: T, y: nat, boxes: seq<(Rect, T)>)
    requires |g| == w * h && y < h
    ensures Sweep(g, w, h, nv, w, y, boxes) == Sweep(g, w, h, nv, 0, y + 1, boxes)
  {
  }

  /**
   * The nested loops keep the two invariants up to the end of the grid, by
   * induction on the pixels left; `k` is the row-major position of `(x, y)`
   * and `n` the number of pixels.
   */
  lemma {:induction false} SweepFacts<T>(g0: seq<T>, g: seq<T>, w: nat, h: nat, nv: T, x: nat, y: nat, k: int, n: int,
                                         seeds: seq<Pos>, boxes: seq<(Rect, T)>) returns (seeds': seq<Pos>)
    requires |g0| == w * h && |g| == w * h && x <= w && y <= h && (y == h ==> x == 0)
    requires k == y * w + x && n == w * h
    requires GridAt(g0, g, w, h, nv, k) && BoxesAt(g0, w, h, nv, k, seeds, boxes)
    ensures var r := Sweep(g, w, h, nv, x, y, boxes);
      GridAt(g0, r.g, w, h, nv, n) && BoxesAt(g0, w, h, nv, n, seeds', r.boxes)
    decreases h - y, w - x
  {
    if y >= h {
      SweepDone(g, w, h, nv, y, boxes);
      assert k == n;
      seeds' := seeds;
    } else if x == w {
      RowEnd(w, y);
      SweepRowEnd(g, w, h, nv, y, boxes);
      seeds' := SweepFacts(g0, g, w, h, nv, 0, y + 1, k, n, seeds, boxes);
    } else {
      var g', s1, b1 := SweepStep(g0, g, w, h, nv, x, y, k, seeds, boxes);
      seeds' := SweepFacts(g0, g', w, h, nv, x + 1, y, k + 1, n, s1, b1);
    }
  }

  /**
   * `bboxes` reports, in row-major order of their first pixels, exactly the
   * regions of the original grid that do not already have the paint: each
   * with its colour and its least bounding box.  Afterwards every pixel
   * holds the paint.
   */
  lemma BBoxesCorrect<T>(g: seq<T>, w: nat, h: nat, nv: T) returns (seeds: seq<Pos>)
    requires |g| == w * h
    ensures var r := BBoxesSpec(g, w, h, nv);
      (forall a, b :: InBounds(w, h, a, b) ==> At(r.g, w, h, a, b) == Some(nv)) &&
      |seeds| == |r.boxes| &&
      (forall j :: 0 <= j < |seeds| ==> SeedBox(g, w, h, nv, seeds[j], r.boxes[j])) &&
      (forall i, j :: 0 <= i < j < |seeds| ==> Ahead(w, h, seeds[i], seeds[j])) &&
      (forall a, b :: Leader(g, w, h, nv, a, b) ==> Pos(a, b) in seeds)
    ensures Covers(g, w, h, nv, seeds) && OnePerRegion(g, w, h, seeds)
  {
    assert GridAt(g, g, w, h, nv, 0);
    seeds := SweepFacts(g, g, w, h, nv, 0, 0, 0, w * h, [], []);
    var r := BBoxesSpec(g, w, h, nv);
    Covered(g, w, h, nv, seeds, r.boxes);
    forall a, b | InBounds(w, h, a, b) ensures At(r.g, w, h, a, b) == Some(nv) {
      if At(g, w, h, a, b) != Some(nv) {
        var v := g[Index(w, h, a, b)];
        ReachSeed(g, w, h, v, a, b);
        SameOf(g, w, h, v, a, b, a, b);
        assert Before(w, h, w * h, a, b);
      }
      assert Done(g, w, h, nv, w * h, a, b);
    }
  }

  /** A strictly increasing list of positions below `n` has at most `n` entries. */
  lemma {:induction false} IncreasingBound(ks: seq<int>, n: nat)
    requires forall i :: 0 <= i < |ks| ==> 0 <= ks[i] < n
    requires forall i, j :: 0 <= i < j < |ks| ==> ks[i] < ks[j]
    ensures |ks| <= n
    decreases |ks|
  {
    if |ks| > 0 {
      var m := |ks| - 1;
      assert forall i :: 0 <= i < m ==> ks[..m][i] == ks[i];
      IncreasingBound(ks[..m], ks[m]);
    }
  }

  /**
   * Every pixel without the paint lies in the region of a leader that comes
   * at or before it in row-major order.
   */
  lemma {:induction false} LeaderExists<T>(g0: seq<T>, w: nat, h: nat, nv: T, a: int, b: int)
      returns (p: Pos)
    requires |g0| == w * h && InBounds(w, h, a, b) && At(g0, w, h, a, b) != Some(nv)
    ensures Leader(g0, w, h, nv, p.x, p.y) && Same(g0, w, h, p.x, p.y, a, b)
    ensures Index(w, h, p.x, p.y) <= Index(w, h, a, b)
    decreases Index(w, h, a, b)
  {
    var v := At(g0, w, h, a, b).value;
    if Leader(g0, w, h, nv, a, b) {
      p := Pos(a, b);
      ReachSeed(g0, w, h, v, a, b);
    } else {
      var a', b' :| Before(w, h, Index(w, h, a, b), a', b') && Same(g0, w, h, a', b', a, b);
      SameOf(g0, w, h, v, a', b', a, b);
      p := LeaderExists(g0, w, h, nv, a', b');
      ReachTrans(g0, w, h, v, p.x, p.y, a', b', a, b);
    }
  }

  /** A region has only one leader: two leaders in one region are the same pixel. */
  lemma LeaderUnique<T>(g0: seq<T>, w: nat, h: nat, nv: T, p: Pos, q: Pos)
    requires Leader(g0, w, h, nv, p.x, p.y) && Leader(g0, w, h, nv, q.x, q.y)
    requires Same(g0, w, h, p.x, p.y, q.x, q.y)
    ensures p == q
  {
    var v := At(g0, w, h, q.x, q.y).value;
    SameOf(g0, w, h, v, p.x, p.y, q.x, q.y);
    if Index(w, h, p.x, p.y) < Index(w, h, q.x, q.y) {
      assert false;
    } else if Index(w, h, q.x, q.y) < Index(w, h, p.x, p.y) {
      ReachSymmetric(g0, w, h, v, p.x, p.y, q.x, q.y);
      SameOf(g0, w, h, v, q.x, q.y, p.x, p.y);
      assert Before(w, h, Index(w, h, p.x, p.y), q.x, q.y);
      assert false;
    } else {
      IndexInjective(w, h, p.x, p.y, q.x, q.y);
    }
  }

  /** `(a, b)` is in the region of one of `seeds`. */
  ghost predicate InSome<T>(g0: seq<T>, w: nat, h: nat, seeds: seq<Pos>, a: int, b: int)
  {
    exists j :: 0 <= j < |seeds| && Same(g0, w, h, seeds[j].x, seeds[j].y, a, b)
  }

  /** Every pixel of `g0` without the paint is in the region of one of `seeds`. */
  ghost predicate Covers<T>(g0: seq<T>, w: nat, h: nat, nv: T, seeds: seq<Pos>)
  {
    forall a, b {:trigger InSome(g0, w, h, seeds, a, b)} ::
      InBounds(w, h, a, b) && At(g0, w, h, a, b) != Some(nv) ==> InSome(g0, w, h, seeds, a, b)
  }

  /** No two of `seeds` lie in one region. */
  ghost predicate OnePerRegion<T>(g0: seq<T>, w: nat, h: nat, seeds: seq<Pos>)
  {
    forall i, j {:trigger Same(g0, w, h, seeds[i].x, seeds[i].y, seeds[j].x, seeds[j].y)} ::
      0 <= i < |seeds| && 0 <= j < |seeds| && Same(g0, w, h, seeds[i].x, seeds[i].y, seeds[j].x, seeds[j].y) ==> i == j
  }

  /** A pixel without the paint is in the region of the reported leader before it. */
  lemma CoveredAt<T>(g: seq<T>, w: nat, h: nat, nv: T, seeds: seq<Pos>, boxes: seq<(Rect, T)>, a: int, b: int)
    requires |g| == w * h && BoxesAt(g, w, h, nv, w * h, seeds, boxes)
    requires InBounds(w, h, a, b) && At(g, w, h, a, b) != Some(nv)
    ensures InSome(g, w, h, seeds, a, b)
  {
    var p := LeaderExists(g, w, h, nv, a, b);
    assert Before(w, h, w * h, p.x, p.y);
    assert Pos(p.x, p.y) in seeds;
    var j :| 0 <= j < |seeds| && seeds[j] == p;
    assert Same(g, w, h, seeds[j].x, seeds[j].y, a, b);
  }

  /** Two reported leaders in one region are the same entry of the list. */
  lemma OnceAt<T>(g: seq<T>, w: nat, h: nat, nv: T, seeds: seq<Pos>, boxes: seq<(Rect, T)>, i: int, j: int)
    requires |g| == w * h && BoxesAt(g, w, h, nv, w * h, seeds, boxes)
    requires 0 <= i < |seeds| && 0 <= j < |seeds| && Same(g, w, h, seeds[i].x, seeds[i].y, seeds[j].x, seeds[j].y)
    ensures i == j
  {
    assert SeedBox(g, w, h, nv, seeds[i], boxes[i]) && SeedBox(g, w, h, nv, seeds[j], boxes[j]);
    LeaderUnique(g, w, h, nv, seeds[i], seeds[j]);
    if i != j {
      assert false;
    }
  }

  /**
   * Every pixel without the paint is in the region of some reported leader,
   * and no two reported leaders share a region.
   */
  lemma Covered<T>(g: seq<T>, w: nat, h: nat, nv: T, seeds: seq<Pos>, boxes: seq<(Rect, T)>)
    requires |g| == w * h && BoxesAt(g, w, h, nv, w * h, seeds, boxes)
    ensures Covers(g, w, h, nv, seeds) && OnePerRegion(g, w, h, seeds)
  {
    forall a, b | InBounds(w, h, a, b) && At(g, w, h, a, b) != Some(nv)
      ensures InSome(g, w, h, seeds, a, b)
    {
      CoveredAt(g, w, h, nv, seeds, boxes, a, b);
    }
    forall i, j | 0 <= i < |seeds| && 0 <= j < |seeds| &&
      Same(g, w, h, seeds[i].x, seeds[i].y, seeds[j].x, seeds[j].y)
      ensures i == j
    {
      OnceAt(g, w, h, nv, seeds, boxes, i, j);
    }
  }

  /**
   * `bboxes` reports at most one box per pixel, never with the paint as its
   * colour, and none at all exactly when every pixel already has the paint.
   */
  lemma BoxesCount<T>(g: seq<T>, w: nat, h: nat, nv: T)
    requires |g| == w * h
    ensures var r := BBoxesSpec(g, w, h, nv);
      |r.boxes| <= w * h &&
      (forall j :: 0 <= j < |r.boxes| ==> r.boxes[j].1 != nv) &&
      (|r.boxes| == 0 <==> forall a, b :: InBounds(w, h, a, b) ==> At(g, w, h, a, b) == Some(nv))
  {
    var seeds := BBoxesCorrect(g, w, h, nv);
    var boxes := BBoxesSpec(g, w, h, nv).boxes;
    var ks := seq(|seeds|, i requires 0 <= i < |seeds| => Index(w, h, seeds[i].x, seeds[i].y));
    forall i | 0 <= i < |ks| ensures 0 <= ks[i] < w * h {
      assert SeedBox(g, w, h, nv, seeds[i], boxes[i]);
    }
    forall i, j | 0 <= i < j < |ks| ensures ks[i] < ks[j] {
      assert Ahead(w, h, seeds[i], seeds[j]);
    }
    IncreasingBound(ks, w * h);
    forall j | 0 <= j < |boxes| ensures boxes[j].1 != nv {
      assert SeedBox(g, w, h, nv, seeds[j], boxes[j]);
    }
    if |boxes| == 0 {
      forall a, b | InBounds(w, h, a, b) ensures At(g, w, h, a, b) == Some(nv) {
        if At(g, w, h, a, b) != Some(nv) {
          var p := LeaderExists(g, w, h, nv, a, b);
          assert false;
        }
      }
    } else {
      assert SeedBox(g, w, h, nv, seeds[0], boxes[0]);
    }
  }
}
