/**
 * The loops of `fill` (src/lib.rs:57-110) as recursive functions over
 * values: each function takes the state a loop starts from and returns the
 * state it stops in.  The method `FloodFill.Fill` runs the same loops over
 * an `Image` and is proved to end in the state these functions compute.
 */
module SpanSpec {
  import opened Wrappers
  import opened Images
  import opened Rects

  /** One work-list entry `(x1, x2, y, dy)`: columns `x1..=x2` of row `y`, explored towards `y + dy`. */
  datatype Span = Span(x1: int, x2: int, y: int, dy: int)

  /** What one call of `fill` keeps fixed: the grid size, the colour being flooded and the paint. */
  datatype Env<T> = Env(w: nat, h: nat, inside: T, nv: T)

  /** The grid, a column cursor, the work list and the box part-way through a row. */
  datatype Cursor<T> = Cursor(g: seq<T>, x: int, s: seq<Span>, rect: Rect)

  /** The grid, the work list and the box between two entries. */
  datatype State<T> = State(g: seq<T>, s: seq<Span>, rect: Rect)

  /** What `fill` leaves behind: the grid and the returned box, if any. */
  datatype Filled<T> = Filled(g: seq<T>, rect: Option<Rect>)

  /** The flooded colour is what `(x, y)` holds. */
  predicate IsInside<T(==)>(e: Env<T>, g: seq<T>, x: int, y: int)
  {
    At(g, e.w, e.h, x, y) == Some(e.inside)
  }

  /** The `set_pixel` closure of `fill`: paint one pixel and take it into the box. */
  function PaintAt<T>(e: Env<T>, g: seq<T>, x: int, y: int): (r: seq<T>)
    ensures |r| == |g|
    ensures |g| == e.w * e.h && InBounds(e.w, e.h, x, y) ==> At(r, e.w, e.h, x, y) == Some(e.nv)
  {
    Write(g, e.w, e.h, x, y, e.nv)
  }

  /** How many pixels of `g` have colour `v`. */
  ghost function Count<T>(g: seq<T>, v: T): (r: nat)
  {
    multiset(g)[v]
  }

  ghost predicate EnvOk<T>(e: Env<T>, g: seq<T>)
  {
    |g| == e.w * e.h && e.inside != e.nv
  }

  /** The loop at src/lib.rs:79-82: paint leftwards from column `x` while the left neighbour is flooded-colour. */
  function ExtendLeft<T(==)>(e: Env<T>, g: seq<T>, x: int, y: int, s: seq<Span>, rect: Rect): (r: Cursor<T>)
    ensures r.x <= x && r.s == s && |r.g| == |g|
    decreases x
  {
    if IsInside(e, g, x - 1, y) then
      ExtendLeft(e, PaintAt(e, g, x - 1, y), x - 1, y, s, rect.Insert(x - 1, y))
    else
      Cursor(g, x, s, rect)
  }

  /**
   * The loop at src/lib.rs:90-97: paint rightwards from `x1` while the pixel
   * is flooded-colour, pushing the row ahead for the run `x..x1` after each
   * pixel and the row behind for the part of the run past `x2`.
   */
  function PaintRun<T(==)>(e: Env<T>, g: seq<T>, x: int, x1: int, x2: int, y: int, dy: int,
                           s: seq<Span>, rect: Rect): (r: Cursor<T>)
    ensures x1 <= r.x
    decreases e.w - x1
  {
    if IsInside(e, g, x1, y) then
      var s1 := s + [Span(x, x1, y + dy, dy)];
      PaintRun(e, PaintAt(e, g, x1, y), x, x1 + 1, x2, y, dy,
               if x1 > x2 then s1 + [Span(x2 + 1, x1, y - dy, -dy)] else s1,
               rect.Insert(x1, y))
    else
      Cursor(g, x1, s, rect)
  }

  /** The loop at src/lib.rs:101-103: step over pixels that are not flooded-colour, stopping at `x2`. */
  function SkipGap<T(==)>(e: Env<T>, g: seq<T>, x1: int, x2: int, y: int): (r: int)
    ensures x1 <= r
    decreases x2 - x1
  {
    if x1 < x2 && !IsInside(e, g, x1, y) then SkipGap(e, g, x1 + 1, x2, y) else x1
  }

  /** The loop at src/lib.rs:89-106: alternate runs and gaps until the cursor passes `x2`. */
  function ScanRow<T(==)>(e: Env<T>, g: seq<T>, x: int, x1: int, x2: int, y: int, dy: int,
                          s: seq<Span>, rect: Rect): (r: State<T>)
    decreases x2 - x1
  {
    if x1 <= x2 then
      var run := PaintRun(e, g, x, x1, x2, y, dy, s, rect);
      var next := SkipGap(e, run.g, run.x + 1, x2, y);
      ScanRow(e, run.g, next, next, x2, y, dy, run.s, run.rect)
    else
      State(g, s, rect)
  }

  /** The body of the `while let` loop at src/lib.rs:76-107 for the popped entry `t`. */
  function StepSpan<T(==)>(e: Env<T>, g: seq<T>, t: Span, s: seq<Span>, rect: Rect): (r: State<T>)
  {
    var left := if IsInside(e, g, t.x1, t.y) then ExtendLeft(e, g, t.x1, t.y, s, rect) else Cursor(g, t.x1, s, rect);
    var s1 := if left.x < t.x1 then left.s + [Span(left.x, t.x1 - 1, t.y - t.dy, -t.dy)] else left.s;
    ScanRow(e, left.g, left.x, t.x1, t.x2, t.y, t.dy, s1, left.rect)
  }

  /** The `while let` loop: pop the last entry and process it until the work list is empty. */
  function Drain<T(==)>(e: Env<T>, st: State<T>): (r: State<T>)
    requires EnvOk(e, st.g)
    ensures r.s == [] && |r.g| == |st.g|
    decreases Count(st.g, e.inside), |st.s|
  {
    if st.s == [] then st
    else
      var rest := st.s[..|st.s| - 1];
      var next := StepSpan(e, st.g, st.s[|st.s| - 1], rest, st.rect);
      StepCount(e, st.g, st.s[|st.s| - 1], rest, st.rect);
      Drain(e, next)
  }

  /** `fill` on the grid `g`: the grid it leaves and the box it returns. */
  function FillSpec<T(==)>(g: seq<T>, w: nat, h: nat, x: int, y: int, nv: T): (r: Filled<T>)
    requires |g| == w * h
    ensures |r.g| == |g|
    ensures r.rect.None? ==> r.g == g
  {
    match At(g, w, h, x, y)
    case None => Filled(g, None)
    case Some(px) =>
      if px == nv then Filled(g, None)
      else
        var st := Drain(Env(w, h, px, nv), State(g, [Span(x, x, y, 1), Span(x, x, y - 1, -1)], Rect.Point(x, y)));
        Filled(st.g, Some(st.rect))
  }

  /** Painting a flooded-colour pixel lowers the number of flooded-colour pixels by one. */
  lemma CountPaint<T>(e: Env<T>, g: seq<T>, x: int, y: int)
    requires EnvOk(e, g) && IsInside(e, g, x, y)
    ensures |PaintAt(e, g, x, y)| == |g| && Count(PaintAt(e, g, x, y), e.inside) + 1 == Count(g, e.inside)
  {
    var i := Index(e.w, e.h, x, y);
    assert g[i] == e.inside;
    assert multiset(g[i := e.nv]) == multiset(g) - multiset{e.inside} + multiset{e.nv};
  }

  /** The left loop paints exactly one pixel per step. */
  lemma {:induction false} LeftCount<T>(e: Env<T>, g: seq<T>, x: int, y: int, s: seq<Span>, rect: Rect)
    requires EnvOk(e, g)
    ensures var r := ExtendLeft(e, g, x, y, s, rect);
      |r.g| == |g| && Count(r.g, e.inside) + (x - r.x) == Count(g, e.inside) && (r.x == x ==> r.g == g)
    decreases x
  {
    if IsInside(e, g, x - 1, y) {
      CountPaint(e, g, x - 1, y);
      LeftCount(e, PaintAt(e, g, x - 1, y), x - 1, y, s, rect.Insert(x - 1, y));
    }
  }

  /** A run paints one pixel per step, and an empty run changes nothing. */
  lemma {:induction false} RunCount<T>(e: Env<T>, g: seq<T>, x: int, x1: int, x2: int, y: int, dy: int,
                                           s: seq<Span>, rect: Rect)
    requires EnvOk(e, g)
    ensures var r := PaintRun(e, g, x, x1, x2, y, dy, s, rect);
      |r.g| == |g| && Count(r.g, e.inside) + (r.x - x1) == Count(g, e.inside) &&
      (r.x == x1 ==> r.g == g && r.s == s)
    decreases e.w - x1
  {
    if IsInside(e, g, x1, y) {
      CountPaint(e, g, x1, y);
      var s1 := s + [Span(x, x1, y + dy, dy)];
      RunCount(e, PaintAt(e, g, x1, y), x, x1 + 1, x2, y, dy,
               if x1 > x2 then s1 + [Span(x2 + 1, x1, y - dy, -dy)] else s1, rect.Insert(x1, y));
    }
  }

  /** Scanning a row never adds flooded-colour pixels, and pushes only when it paints. */
  lemma {:induction false} ScanCount<T>(e: Env<T>, g: seq<T>, x: int, x1: int, x2: int, y: int, dy: int,
                                            s: seq<Span>, rect: Rect)
    requires EnvOk(e, g)
    ensures var r := ScanRow(e, g, x, x1, x2, y, dy, s, rect);
      |r.g| == |g| && Count(r.g, e.inside) <= Count(g, e.inside) &&
      (Count(r.g, e.inside) == Count(g, e.inside) ==> r.g == g && r.s == s)
    decreases x2 - x1
  {
    if x1 <= x2 {
      var run := PaintRun(e, g, x, x1, x2, y, dy, s, rect);
      RunCount(e, g, x, x1, x2, y, dy, s, rect);
      var next := SkipGap(e, run.g, run.x + 1, x2, y);
      ScanCount(e, run.g, next, next, x2, y, dy, run.s, run.rect);
    }
  }

  /** Each entry either paints something or only leaves the work list. */
  lemma StepCount<T>(e: Env<T>, g: seq<T>, t: Span, s: seq<Span>, rect: Rect)
    requires EnvOk(e, g)
    ensures var r := StepSpan(e, g, t, s, rect);
      |r.g| == |g| && (Count(r.g, e.inside) < Count(g, e.inside) || (r.g == g && r.s == s))
  {
    var left := if IsInside(e, g, t.x1, t.y) then ExtendLeft(e, g, t.x1, t.y, s, rect) else Cursor(g, t.x1, s, rect);
    LeftCount(e, g, t.x1, t.y, s, rect);
    var s1 := if left.x < t.x1 then left.s + [Span(left.x, t.x1 - 1, t.y - t.dy, -t.dy)] else left.s;
    ScanCount(e, left.g, left.x, t.x1, t.x2, t.y, t.dy, s1, left.rect);
  }
}
