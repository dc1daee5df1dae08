/**
 * What the loops of `fill` (src/lib.rs:57-110) achieve, proved about the
 * functions of `SpanSpec`: the call paints exactly the seed's 4-connected
 * region of its colour and returns that region's bounding box.
 */
module SpanProof {
  import opened Wrappers
  import opened Images
  import opened Rects
  import opened Regions
  import opened SpanSpec

  /**
   * What one call of `fill` fixes on entry: its parameters, the grid as it
   * was, the seed, and the seed's region of that grid.
   */
  datatype Ctx<T> = Ctx(e: Env<T>, orig: seq<T>, sx: int, sy: int, region: set<Pos>)

  ghost predicate CtxOk<T>(c: Ctx<T>)
  {
    EnvOk(c.e, c.orig) && IsInside(c.e, c.orig, c.sx, c.sy)
  }

  /** `region` is exactly the seed's 4-connected region of the original grid. */
  ghost predicate RegionExact<T>(c: Ctx<T>)
  {
    forall a, b {:trigger Reach(c.orig, c.e.w, c.e.h, c.e.inside, c.sx, c.sy, a, b)} ::
      Pos(a, b) in c.region <==> Reach(c.orig, c.e.w, c.e.h, c.e.inside, c.sx, c.sy, a, b)
  }

  /** The pixel currently has the flooded colour. */
  ghost predicate IsIn<T>(c: Ctx<T>, g: seq<T>, a: int, b: int)
  {
    IsInside(c.e, g, a, b)
  }

  /** The pixel had the flooded colour and now holds the paint. */
  ghost predicate Painted<T>(c: Ctx<T>, g: seq<T>, a: int, b: int)
  {
    IsIn(c, c.orig, a, b) && At(g, c.e.w, c.e.h, a, b) == Some(c.e.nv)
  }

  ghost predicate InRegion<T>(c: Ctx<T>, a: int, b: int)
  {
    Pos(a, b) in c.region
  }

  /** Only flooded-colour pixels have changed, and only to the paint. */
  ghost predicate Framed<T>(c: Ctx<T>, g: seq<T>)
  {
    |g| == |c.orig| &&
    forall a, b :: At(g, c.e.w, c.e.h, a, b) == At(c.orig, c.e.w, c.e.h, a, b) || Painted(c, g, a, b)
  }

  /** The region is closed under steps to neighbours of the flooded colour. */
  lemma RegionStep<T>(c: Ctx<T>, a: int, b: int, a': int, b': int)
    requires RegionExact(c) && InRegion(c, a, b)
    requires Adjacent(Pos(a, b), Pos(a', b')) && IsIn(c, c.orig, a', b')
    ensures InRegion(c, a', b')
  {
    assert Reach(c.orig, c.e.w, c.e.h, c.e.inside, c.sx, c.sy, a, b);
    ReachStep(c.orig, c.e.w, c.e.h, c.e.inside, c.sx, c.sy, a, b, a', b');
    assert Reach(c.orig, c.e.w, c.e.h, c.e.inside, c.sx, c.sy, a', b');
  }

  /** A flooded-colour pixel of a framed grid is untouched. */
  lemma StillOrig<T>(c: Ctx<T>, g: seq<T>, a: int, b: int)
    requires CtxOk(c) && Framed(c, g) && IsIn(c, g, a, b)
    ensures IsIn(c, c.orig, a, b)
  {
    assert At(g, c.e.w, c.e.h, a, b) == At(c.orig, c.e.w, c.e.h, a, b) || Painted(c, g, a, b);
  }

  /** Painting a flooded-colour pixel keeps the grid framed. */
  lemma PaintFramed<T>(c: Ctx<T>, g: seq<T>, a: int, b: int)
    requires CtxOk(c) && Framed(c, g) && IsIn(c, g, a, b)
    ensures Framed(c, PaintAt(c.e, g, a, b))
    ensures forall a', b' :: a' != a || b' != b ==>
      At(PaintAt(c.e, g, a, b), c.e.w, c.e.h, a', b') == At(g, c.e.w, c.e.h, a', b')
    ensures At(PaintAt(c.e, g, a, b), c.e.w, c.e.h, a, b) == Some(c.e.nv)
  {
    StillOrig(c, g, a, b);
    WriteAt(g, c.e.w, c.e.h, a, b, c.e.nv);
  }

  /** Growing a hull by one more position is `insert`. */
  lemma HullSnoc(pts: seq<Pos>, p: Pos)
    requires |pts| > 0
    ensures Hull(pts + [p]) == Hull(pts).Insert(p.x, p.y)
  {
    assert (pts + [p])[..|pts|] == pts;
  }

  lemma AppendAssoc<U>(a: seq<U>, b: seq<U>, d: seq<U>)
    ensures a + b + d == a + (b + d)
  {
  }

  /** Columns `lo..hi` of row `y` held the flooded colour in `g`, are region pixels and hold the paint in `g'`. */
  ghost predicate PaintedCol<T>(c: Ctx<T>, g: seq<T>, g': seq<T>, y: int, a: int)
  {
    IsIn(c, g, a, y) && At(g', c.e.w, c.e.h, a, y) == Some(c.e.nv) && InRegion(c, a, y)
  }

  /** `g'` is `g` with exactly columns `lo..hi` of row `y` painted, all of them region pixels. */
  ghost predicate RangeDelta<T>(c: Ctx<T>, g: seq<T>, g': seq<T>, y: int, lo: int, hi: int)
  {
    |g'| == |g| &&
    (forall a, b :: At(g', c.e.w, c.e.h, a, b) == At(g, c.e.w, c.e.h, a, b) || (b == y && lo <= a < hi)) &&
    (forall a :: lo <= a < hi ==> PaintedCol(c, g, g', y, a))
  }

  /** `q` is a position of row `y` between `lo` and `hi`. */
  predicate OnRange(q: Pos, y: int, lo: int, hi: int)
  {
    q.y == y && lo <= q.x < hi
  }

  /** A work-list entry for the row next to `y`, over columns within `lo..hi`. */
  predicate PushWithin(sp: Span, y: int, lo: int, hi: int)
  {
    sp.x1 <= sp.x2 && (sp.dy == 1 || sp.dy == -1) && sp.y - sp.dy == y && lo <= sp.x1 && sp.x2 < hi
  }

  /**
   * The left loop paints the run of flooded-colour pixels that ends just left
   * of `x`, all of them region pixels when `(x, y)` is one.
   */
  lemma {:induction false} LeftGrid<T>(c: Ctx<T>, g: seq<T>, x: int, y: int, s: seq<Span>, rect: Rect)
      returns (r: Cursor<T>)
    requires CtxOk(c) && RegionExact(c) && Framed(c, g) && InRegion(c, x, y)
    ensures r == ExtendLeft(c.e, g, x, y, s, rect)
    ensures RangeDelta(c, g, r.g, y, r.x, x) && Framed(c, r.g) && !IsIn(c, r.g, r.x - 1, y)
    decreases x
  {
    if IsInside(c.e, g, x - 1, y) {
      StillOrig(c, g, x - 1, y);
      RegionStep(c, x, y, x - 1, y);
      PaintFramed(c, g, x - 1, y);
      var g1 := PaintAt(c.e, g, x - 1, y);
      r := LeftGrid(c, g1, x - 1, y, s, rect.Insert(x - 1, y));
      forall a | r.x <= a < x ensures PaintedCol(c, g, r.g, y, a) {
        if a < x - 1 {
          assert PaintedCol(c, g1, r.g, y, a);
        }
      }
    } else {
      r := ExtendLeft(c.e, g, x, y, s, rect);
    }
  }

  /** The left loop grows the box by exactly the pixels it paints. */
  lemma {:induction false} LeftHull<T>(e: Env<T>, g: seq<T>, x: int, y: int, s: seq<Span>, rect: Rect, pts: seq<Pos>)
      returns (r: Cursor<T>, added: seq<Pos>)
    requires |pts| > 0 && rect == Hull(pts)
    ensures r == ExtendLeft(e, g, x, y, s, rect)
    ensures r.rect == Hull(pts + added)
    ensures forall q :: q in added <==> OnRange(q, y, r.x, x)
    decreases x
  {
    if IsInside(e, g, x - 1, y) {
      var p := Pos(x - 1, y);
      HullSnoc(pts, p);
      var added1;
      r, added1 := LeftHull(e, PaintAt(e, g, x - 1, y), x - 1, y, s, rect.Insert(x - 1, y), pts + [p]);
      added := [p] + added1;
      AppendAssoc(pts, [p], added1);
      forall q ensures q in added <==> OnRange(q, y, r.x, x) {
        assert q == Pos(q.x, q.y);
      }
    } else {
      r, added := ExtendLeft(e, g, x, y, s, rect), [];
      assert pts + added == pts;
    }
  }

  /**
   * A run from `x1` paints the flooded-colour pixels up to the first other
   * one, all of them region pixels when `(x1, y)` is one.
   */
  lemma {:induction false} RunGrid<T>(c: Ctx<T>, g: seq<T>, x: int, x1: int, x2: int, y: int, dy: int,
                                      s: seq<Span>, rect: Rect) returns (r: Cursor<T>)
    requires CtxOk(c) && RegionExact(c) && Framed(c, g)
    requires IsIn(c, g, x1, y) ==> InRegion(c, x1, y)
    ensures r == PaintRun(c.e, g, x, x1, x2, y, dy, s, rect)
    ensures RangeDelta(c, g, r.g, y, x1, r.x) && Framed(c, r.g) && !IsIn(c, r.g, r.x, y)
    decreases c.e.w - x1
  {
    if IsInside(c.e, g, x1, y) {
      StillOrig(c, g, x1, y);
      PaintFramed(c, g, x1, y);
      var g1 := PaintAt(c.e, g, x1, y);
      if IsIn(c, g1, x1 + 1, y) {
        StillOrig(c, g1, x1 + 1, y);
        RegionStep(c, x1, y, x1 + 1, y);
      }
      var s1 := s + [Span(x, x1, y + dy, dy)];
      r := RunGrid(c, g1, x, x1 + 1, x2, y, dy, if x1 > x2 then s1 + [Span(x2 + 1, x1, y - dy, -dy)] else s1,
                   rect.Insert(x1, y));
      forall a | x1 <= a < r.x ensures PaintedCol(c, g, r.g, y, a) {
        if a > x1 {
          assert PaintedCol(c, g1, r.g, y, a);
        }
      }
    } else {
      r := PaintRun(c.e, g, x, x1, x2, y, dy, s, rect);
    }
  }

  /**
   * A run pushes, for the row ahead, `x..` the run's end after each pixel, and
   * for the row behind, the run's part past `x2`: all of them over columns
   * `x..` the run's end.
   */
  lemma {:induction false} RunPushes<T>(e: Env<T>, g: seq<T>, x: int, x1: int, x2: int, y: int, dy: int,
                                        s: seq<Span>, rect: Rect) returns (r: Cursor<T>, pushed: seq<Span>)
    requires (dy == 1 || dy == -1) && x <= x1 && x <= x2
    ensures r == PaintRun(e, g, x, x1, x2, y, dy, s, rect)
    ensures r.s == s + pushed
    ensures forall sp :: sp in pushed ==> PushWithin(sp, y, x, r.x)
    ensures r.x > x1 ==> Span(x, r.x - 1, y + dy, dy) in pushed
    ensures r.x > x1 && r.x > x2 + 1 ==> Span(x2 + 1, r.x - 1, y - dy, -dy) in pushed
    decreases e.w - x1
  {
    if IsInside(e, g, x1, y) {
      var here := if x1 > x2 then [Span(x, x1, y + dy, dy), Span(x2 + 1, x1, y - dy, -dy)] else [Span(x, x1, y + dy, dy)];
      var s1 := s + [Span(x, x1, y + dy, dy)];
      var s2 := if x1 > x2 then s1 + [Span(x2 + 1, x1, y - dy, -dy)] else s1;
      assert s2 == s + here;
      var pushed1;
      r, pushed1 := RunPushes(e, PaintAt(e, g, x1, y), x, x1 + 1, x2, y, dy, s2, rect.Insert(x1, y));
      pushed := here + pushed1;
      AppendAssoc(s, here, pushed1);
    } else {
      r, pushed := PaintRun(e, g, x, x1, x2, y, dy, s, rect), [];
      assert s + pushed == s;
    }
  }

  /** A run grows the box by exactly the pixels it paints. */
  lemma {:induction false} RunHull<T>(e: Env<T>, g: seq<T>, x: int, x1: int, x2: int, y: int, dy: int,
                                      s: seq<Span>, rect: Rect, pts: seq<Pos>) returns (r: Cursor<T>, added: seq<Pos>)
    requires |pts| > 0 && rect == Hull(pts)
    ensures r == PaintRun(e, g, x, x1, x2, y, dy, s, rect)
    ensures r.rect == Hull(pts + added)
    ensures forall q :: q in added <==> OnRange(q, y, x1, r.x)
    decreases e.w - x1
  {
    if IsInside(e, g, x1, y) {
      var p := Pos(x1, y);
      HullSnoc(pts, p);
      var s1 := s + [Span(x, x1, y + dy, dy)];
      var s2 := if x1 > x2 then s1 + [Span(x2 + 1, x1, y - dy, -dy)] else s1;
      var added1;
      r, added1 := RunHull(e, PaintAt(e, g, x1, y), x, x1 + 1, x2, y, dy, s2, rect.Insert(x1, y), pts + [p]);
      added := [p] + added1;
      AppendAssoc(pts, [p], added1);
      forall q ensures q in added <==> OnRange(q, y, x1, r.x) {
        assert q == Pos(q.x, q.y);
      }
    } else {
      r, added := PaintRun(e, g, x, x1, x2, y, dy, s, rect), [];
      assert pts + added == pts;
    }
  }

  /** The gap loop steps only over pixels without the flooded colour, and stops at one with it or at `x2`. */
  lemma {:induction false} SkipFacts<T>(e: Env<T>, g: seq<T>, x1: int, x2: int, y: int)
    ensures var r := SkipGap(e, g, x1, x2, y);
      (forall a :: x1 <= a < r ==> !IsInside(e, g, a, y)) &&
      (r < x2 ==> IsInside(e, g, r, y)) && (x1 < x2 ==> r <= x2) && (x1 >= x2 ==> r == x1)
    decreases x2 - x1
  {
    if x1 < x2 && !IsInside(e, g, x1, y) {
      SkipFacts(e, g, x1 + 1, x2, y);
    }
  }

  /** Work-list entry `sp` names column `a` of row `b`. */
  predicate Covers(sp: Span, a: int, b: int)
  {
    sp.y == b && sp.x1 <= a <= sp.x2
  }

  /** Some work-list entry names column `a` of row `b`. */
  ghost predicate CoveredBy(s: seq<Span>, a: int, b: int)
  {
    exists sp :: sp in s && Covers(sp, a, b)
  }

  lemma CoveredGrow(s: seq<Span>, p: seq<Span>, a: int, b: int)
    requires CoveredBy(s, a, b)
    ensures CoveredBy(s + p, a, b)
  {
    var sp :| sp in s && Covers(sp, a, b);
    assert sp in s + p;
  }

  lemma CoveredAt(s: seq<Span>, sp: Span, a: int, b: int)
    requires sp in s && Covers(sp, a, b)
    ensures CoveredBy(s, a, b)
  {
  }

  /** Column `a` of row `y` had the flooded colour in `g0` and holds the paint in `g`. */
  ghost predicate Fresh<T>(c: Ctx<T>, g0: seq<T>, g: seq<T>, y: int, a: int)
  {
    IsIn(c, g0, a, y) && At(g, c.e.w, c.e.h, a, y) == Some(c.e.nv)
  }

  /** `g` is `g0` with some flooded-colour pixels of row `y` painted, all of them region pixels. */
  ghost predicate RowDelta<T>(c: Ctx<T>, g0: seq<T>, g: seq<T>, y: int)
  {
    |g| == |g0| &&
    (forall a, b :: At(g, c.e.w, c.e.h, a, b) == At(g0, c.e.w, c.e.h, a, b) || (b == y && Fresh(c, g0, g, y, a))) &&
    (forall a :: Fresh(c, g0, g, y, a) ==> InRegion(c, a, y))
  }

  /** Painting a range on top of a row's earlier painting. */
  lemma RowJoin<T>(c: Ctx<T>, g0: seq<T>, g: seq<T>, g': seq<T>, y: int, lo: int, hi: int)
    requires CtxOk(c) && RowDelta(c, g0, g, y) && RangeDelta(c, g, g', y, lo, hi)
    ensures RowDelta(c, g0, g', y)
    ensures forall a :: Fresh(c, g0, g', y, a) <==> Fresh(c, g0, g, y, a) || lo <= a < hi
  {
    forall a ensures (Fresh(c, g0, g', y, a) <==> Fresh(c, g0, g, y, a) || lo <= a < hi) &&
                     (Fresh(c, g0, g', y, a) ==> InRegion(c, a, y)) {
      if lo <= a < hi {
        assert PaintedCol(c, g, g', y, a);
      }
    }
    forall a, b ensures At(g', c.e.w, c.e.h, a, b) == At(g0, c.e.w, c.e.h, a, b) || (b == y && Fresh(c, g0, g', y, a)) {
      if b == y && lo <= a < hi {
        assert PaintedCol(c, g, g', y, a);
      }
    }
  }

  /** `sp` was pushed while processing row `y`: it names only columns painted there. */
  ghost predicate PushFresh<T>(c: Ctx<T>, g0: seq<T>, g: seq<T>, y: int, sp: Span)
  {
    sp.x1 <= sp.x2 && (sp.dy == 1 || sp.dy == -1) && sp.y - sp.dy == y &&
    forall a :: sp.x1 <= a <= sp.x2 ==> Fresh(c, g0, g, y, a)
  }

  /** `q` is a pixel of row `y` painted since `g0`. */
  ghost predicate OnFresh<T>(c: Ctx<T>, g0: seq<T>, g: seq<T>, y: int, q: Pos)
  {
    q.y == y && Fresh(c, g0, g, y, q.x)
  }

  /**
   * What the row scan keeps true of each painted column `a`: it lies left
   * of the cursor, its left and right neighbours are done, and the rows
   * ahead and behind are on the work list or will be once the pending run
   * `x..x1` is pushed.
   */
  ghost predicate ColInv<T>(c: Ctx<T>, t: Span, g0: seq<T>, g: seq<T>, x: int, x1: int, s: seq<Span>, a: int)
  {
    Fresh(c, g0, g, t.y, a) ==>
      a < x1 && (x == x1 ==> a + 1 < x1) &&
      !IsIn(c, g, a - 1, t.y) && (!IsIn(c, g, a + 1, t.y) || a + 1 == x1) &&
      (CoveredBy(s, a, t.y + t.dy) || x <= a) &&
      (CoveredBy(s, a, t.y - t.dy) || t.x1 <= a <= t.x2)
  }

  /** The invariant of the loop at src/lib.rs:89-106 for the popped entry `t`. */
  ghost predicate ScanInv<T>(c: Ctx<T>, t: Span, g0: seq<T>, s0: seq<Span>, pts0: seq<Pos>,
                             g: seq<T>, x: int, x1: int, s: seq<Span>, rect: Rect,
                             pushed: seq<Span>, added: seq<Pos>)
  {
    (t.dy == 1 || t.dy == -1) && t.x1 <= x1 && x <= x1 &&
    (x < x1 ==> x1 == t.x1 && x1 <= t.x2 && IsIn(c, g, x1, t.y)) &&
    (x == x1 && IsIn(c, g, x1, t.y) ==> !IsIn(c, g, x1 - 1, t.y)) &&
    RowDelta(c, g0, g, t.y) && Framed(c, g) &&
    (forall a :: t.x1 <= a <= t.x2 && IsIn(c, g0, a, t.y) ==> InRegion(c, a, t.y)) &&
    (forall a :: x <= a < x1 ==> Fresh(c, g0, g, t.y, a)) &&
    (forall a :: ColInv(c, t, g0, g, x, x1, s, a)) &&
    (forall a :: t.x1 <= a < x1 && a <= t.x2 ==> !IsIn(c, g, a, t.y)) &&
    s == s0 + pushed && (forall sp :: sp in pushed ==> PushFresh(c, g0, g, t.y, sp)) &&
    |pts0| > 0 && rect == Hull(pts0 + added) &&
    (forall q :: q in added <==> OnFresh(c, g0, g, t.y, q))
  }

  /** One run keeps what the row scan knows about column `a`. */
  lemma ColStep<T>(c: Ctx<T>, t: Span, g0: seq<T>, g: seq<T>, g': seq<T>, x: int, x1: int,
                   s: seq<Span>, pushR: seq<Span>, e: int, next: int, a: int)
    requires CtxOk(c) && (t.dy == 1 || t.dy == -1) && t.x1 <= x1 && x <= x1 && x1 <= e < next
    requires x < x1 ==> e > x1
    requires ColInv(c, t, g0, g, x, x1, s, a)
    requires Fresh(c, g0, g', t.y, a) <==> Fresh(c, g0, g, t.y, a) || x1 <= a < e
    requires x <= a < x1 ==> Fresh(c, g0, g, t.y, a)
    requires a == x1 && x < x1 ==> Fresh(c, g0, g, t.y, a - 1)
    requires x == x1 && IsIn(c, g, x1, t.y) ==> !IsIn(c, g, x1 - 1, t.y)
    requires RangeDelta(c, g, g', t.y, x1, e) && !IsIn(c, g', e, t.y)
    requires e > x1 ==> Span(x, e - 1, t.y + t.dy, t.dy) in pushR
    requires e > x1 && e > t.x2 + 1 ==> Span(t.x2 + 1, e - 1, t.y - t.dy, -t.dy) in pushR
    ensures ColInv(c, t, g0, g', next, next, s + pushR, a)
  {
    var y, dy := t.y, t.dy;
    if Fresh(c, g0, g', y, a) {
      if x1 <= a < e {
        assert PaintedCol(c, g, g', y, a);
        CoveredAt(s + pushR, Span(x, e - 1, y + dy, dy), a, y + dy);
        if a > t.x2 {
          CoveredAt(s + pushR, Span(t.x2 + 1, e - 1, y - dy, -dy), a, y - dy);
        }
        if a - 1 >= x1 {
          assert PaintedCol(c, g, g', y, a - 1);
        }
        if a + 1 < e {
          assert PaintedCol(c, g, g', y, a + 1);
        }
      } else {
        if CoveredBy(s, a, y + dy) {
          CoveredGrow(s, pushR, a, y + dy);
        } else {
          CoveredAt(s + pushR, Span(x, e - 1, y + dy, dy), a, y + dy);
        }
        if CoveredBy(s, a, y - dy) {
          CoveredGrow(s, pushR, a, y - dy);
        }
        if a + 1 == x1 {
          assert PaintedCol(c, g, g', y, x1);
        }
      }
    }
  }

  /** One run keeps what the row scan knows about every column. */
  lemma ColsStep<T>(c: Ctx<T>, t: Span, g0: seq<T>, g: seq<T>, g': seq<T>, x: int, x1: int,
                    s: seq<Span>, pushR: seq<Span>, e: int, next: int)
    requires CtxOk(c) && (t.dy == 1 || t.dy == -1) && t.x1 <= x1 && x <= x1 && x1 <= e < next
    requires x < x1 ==> e > x1
    requires forall a :: ColInv(c, t, g0, g, x, x1, s, a)
    requires forall a :: Fresh(c, g0, g', t.y, a) <==> Fresh(c, g0, g, t.y, a) || x1 <= a < e
    requires forall a :: x <= a < x1 ==> Fresh(c, g0, g, t.y, a)
    requires x == x1 && IsIn(c, g, x1, t.y) ==> !IsIn(c, g, x1 - 1, t.y)
    requires RangeDelta(c, g, g', t.y, x1, e) && !IsIn(c, g', e, t.y)
    requires e > x1 ==> Span(x, e - 1, t.y + t.dy, t.dy) in pushR
    requires e > x1 && e > t.x2 + 1 ==> Span(t.x2 + 1, e - 1, t.y - t.dy, -t.dy) in pushR
    ensures forall a :: ColInv(c, t, g0, g', next, next, s + pushR, a)
  {
    forall a ensures ColInv(c, t, g0, g', next, next, s + pushR, a) {
      assert ColInv(c, t, g0, g, x, x1, s, a);
      if a == x1 && x < x1 {
        assert Fresh(c, g0, g, t.y, a - 1);
      }
      ColStep(c, t, g0, g, g', x, x1, s, pushR, e, next, a);
    }
  }

  /** The spans a run pushes name only columns painted on the row. */
  lemma PushesStep<T>(c: Ctx<T>, g0: seq<T>, g: seq<T>, g': seq<T>, y: int, x: int, x1: int, e: int,
                      pushed: seq<Span>, pushR: seq<Span>)
    requires forall sp :: sp in pushed ==> PushFresh(c, g0, g, y, sp)
    requires forall sp :: sp in pushR ==> PushWithin(sp, y, x, e)
    requires forall a :: Fresh(c, g0, g', y, a) <==> Fresh(c, g0, g, y, a) || x1 <= a < e
    requires forall a :: x <= a < x1 ==> Fresh(c, g0, g, y, a)
    ensures forall sp :: sp in pushed + pushR ==> PushFresh(c, g0, g', y, sp)
  {
    forall sp | sp in pushed + pushR ensures PushFresh(c, g0, g', y, sp) {
      if sp in pushed {
        assert PushFresh(c, g0, g, y, sp);
        forall a | sp.x1 <= a <= sp.x2 ensures Fresh(c, g0, g', y, a) {
          assert Fresh(c, g0, g, y, a);
        }
      } else {
        assert PushWithin(sp, y, x, e);
        forall a | sp.x1 <= a <= sp.x2 ensures Fresh(c, g0, g', y, a) {
          if a < x1 {
            assert Fresh(c, g0, g, y, a);
          }
        }
      }
    }
  }

  /** Up to the cursor, the popped entry's columns no longer hold the flooded colour. */
  lemma DoneStep<T>(c: Ctx<T>, t: Span, g: seq<T>, g': seq<T>, x1: int, e: int, next: int)
    requires CtxOk(c) && x1 <= e
    requires forall a :: t.x1 <= a < x1 && a <= t.x2 ==> !IsIn(c, g, a, t.y)
    requires RangeDelta(c, g, g', t.y, x1, e) && !IsIn(c, g', e, t.y)
    requires forall a :: e + 1 <= a < next ==> !IsInside(c.e, g', a, t.y)
    ensures forall a :: t.x1 <= a < next && a <= t.x2 ==> !IsIn(c, g', a, t.y)
  {
    forall a | t.x1 <= a < next && a <= t.x2 ensures !IsIn(c, g', a, t.y) {
      if a < x1 {
        assert !IsIn(c, g, a, t.y);
      } else if a < e {
        assert PaintedCol(c, g, g', t.y, a);
      }
    }
  }

  /** What one run and the gap after it do to the row, in the terms the row-scan invariant uses. */
  lemma ScanRun<T>(c: Ctx<T>, t: Span, g0: seq<T>, g: seq<T>, x: int, x1: int, s: seq<Span>, rect: Rect)
      returns (run: Cursor<T>, next: int)
    requires CtxOk(c) && RegionExact(c) && Framed(c, g) && RowDelta(c, g0, g, t.y)
    requires x1 <= t.x2
    requires IsIn(c, g, x1, t.y) ==> InRegion(c, x1, t.y)
    ensures run == PaintRun(c.e, g, x, x1, t.x2, t.y, t.dy, s, rect)
    ensures next == SkipGap(c.e, run.g, run.x + 1, t.x2, t.y)
    ensures x1 <= run.x < next
    ensures RangeDelta(c, g, run.g, t.y, x1, run.x) && Framed(c, run.g) && !IsIn(c, run.g, run.x, t.y)
    ensures RowDelta(c, g0, run.g, t.y)
    ensures forall a :: Fresh(c, g0, run.g, t.y, a) <==> Fresh(c, g0, g, t.y, a) || x1 <= a < run.x
    ensures forall a :: run.x + 1 <= a < next ==> !IsInside(c.e, run.g, a, t.y)
    ensures next < t.x2 ==> IsInside(c.e, run.g, next, t.y)
    ensures ScanRow(c.e, g, x, x1, t.x2, t.y, t.dy, s, rect) == ScanRow(c.e, run.g, next, next, t.x2, t.y, t.dy, run.s, run.rect)
  {
    run := RunGrid(c, g, x, x1, t.x2, t.y, t.dy, s, rect);
    RowJoin(c, g0, g, run.g, t.y, x1, run.x);
    next := ScanGap(c.e, g, x, x1, t.x2, t.y, t.dy, s, rect, run);
  }

  /** The gap after a run, and one turn of the row loop: a run, then a gap. */
  lemma ScanGap<T>(e: Env<T>, g: seq<T>, x: int, x1: int, x2: int, y: int, dy: int, s: seq<Span>, rect: Rect,
                   run: Cursor<T>) returns (next: int)
    requires x1 <= x2 && run == PaintRun(e, g, x, x1, x2, y, dy, s, rect)
    ensures next == SkipGap(e, run.g, run.x + 1, x2, y) && run.x < next
    ensures forall a :: run.x + 1 <= a < next ==> !IsInside(e, run.g, a, y)
    ensures next < x2 ==> IsInside(e, run.g, next, y)
    ensures ScanRow(e, g, x, x1, x2, y, dy, s, rect) == ScanRow(e, run.g, next, next, x2, y, dy, run.s, run.rect)
  {
    next := SkipGap(e, run.g, run.x + 1, x2, y);
    SkipFacts(e, run.g, run.x + 1, x2, y);
  }

  /** What one run pushes and adds to the box. */
  lemma RunAdds<T>(c: Ctx<T>, t: Span, g: seq<T>, x: int, x1: int, s: seq<Span>, rect: Rect, pts: seq<Pos>)
      returns (run: Cursor<T>, pushR: seq<Span>, addR: seq<Pos>)
    requires (t.dy == 1 || t.dy == -1) && x <= x1 <= t.x2
    requires |pts| > 0 && rect == Hull(pts)
    ensures run == PaintRun(c.e, g, x, x1, t.x2, t.y, t.dy, s, rect)
    ensures run.s == s + pushR && forall sp :: sp in pushR ==> PushWithin(sp, t.y, x, run.x)
    ensures run.x > x1 ==> Span(x, run.x - 1, t.y + t.dy, t.dy) in pushR
    ensures run.x > x1 && run.x > t.x2 + 1 ==> Span(t.x2 + 1, run.x - 1, t.y - t.dy, -t.dy) in pushR
    ensures run.rect == Hull(pts + addR) && forall q :: q in addR <==> OnRange(q, t.y, x1, run.x)
  {
    var p;
    run, p := RunPushes(c.e, g, x, x1, t.x2, t.y, t.dy, s, rect);
    var _, q := RunHull(c.e, g, x, x1, t.x2, t.y, t.dy, s, rect, pts);
    pushR, addR := p, q;
  }


  /** The facts `ScanRun` gives about one run carry the row-scan invariant over it. */
  lemma ScanKeep<T>(c: Ctx<T>, t: Span, g0: seq<T>, s0: seq<Span>, pts0: seq<Pos>,
                    g: seq<T>, x: int, x1: int, s: seq<Span>, rect: Rect, pushed: seq<Span>, added: seq<Pos>,
                    run: Cursor<T>, next: int, pushR: seq<Span>, addR: seq<Pos>)
      returns (pushed': seq<Span>, added': seq<Pos>)
    requires CtxOk(c) && RegionExact(c) && x1 <= t.x2
    requires ScanInv(c, t, g0, s0, pts0, g, x, x1, s, rect, pushed, added)
    requires x1 <= run.x < next
    requires RangeDelta(c, g, run.g, t.y, x1, run.x) && Framed(c, run.g) && !IsIn(c, run.g, run.x, t.y)
    requires RowDelta(c, g0, run.g, t.y)
    requires forall a :: Fresh(c, g0, run.g, t.y, a) <==> Fresh(c, g0, g, t.y, a) || x1 <= a < run.x
    requires run.s == s + pushR && forall sp :: sp in pushR ==> PushWithin(sp, t.y, x, run.x)
    requires run.x > x1 ==> Span(x, run.x - 1, t.y + t.dy, t.dy) in pushR
    requires run.x > x1 && run.x > t.x2 + 1 ==> Span(t.x2 + 1, run.x - 1, t.y - t.dy, -t.dy) in pushR
    requires run.rect == Hull(pts0 + added + addR) && forall q :: q in addR <==> OnRange(q, t.y, x1, run.x)
    requires forall a :: run.x + 1 <= a < next ==> !IsInside(c.e, run.g, a, t.y)
    requires next < t.x2 ==> IsInside(c.e, run.g, next, t.y)
    ensures ScanInv(c, t, g0, s0, pts0, run.g, next, next, run.s, run.rect, pushed', added')
  {
    var y := t.y;
    var e, g' := run.x, run.g;
    pushed' := pushed + pushR;
    added' := added + addR;
    AppendAssoc(s0, pushed, pushR);
    AppendAssoc(pts0, added, addR);
    if x < x1 {
      assert e > x1;
    }
    ColsStep(c, t, g0, g, g', x, x1, s, pushR, e, next);
    PushesStep(c, g0, g, g', y, x, x1, e, pushed, pushR);
    DoneStep(c, t, g, g', x1, e, next);
    forall q ensures q in added' <==> OnFresh(c, g0, g', y, q) {
      assert q in added <==> OnFresh(c, g0, g, y, q);
      assert q in addR <==> OnRange(q, y, x1, e);
    }
  }

  /** One run and the gap after it keep the row-scan invariant. */
  lemma ScanStep<T>(c: Ctx<T>, t: Span, g0: seq<T>, s0: seq<Span>, pts0: seq<Pos>,
                    g: seq<T>, x: int, x1: int, s: seq<Span>, rect: Rect, pushed: seq<Span>, added: seq<Pos>)
      returns (run: Cursor<T>, next: int, pushed': seq<Span>, added': seq<Pos>)
    requires CtxOk(c) && RegionExact(c) && x1 <= t.x2
    requires ScanInv(c, t, g0, s0, pts0, g, x, x1, s, rect, pushed, added)
    ensures x1 < next
    ensures ScanRow(c.e, g, x, x1, t.x2, t.y, t.dy, s, rect) == ScanRow(c.e, run.g, next, next, t.x2, t.y, t.dy, run.s, run.rect)
    ensures ScanInv(c, t, g0, s0, pts0, run.g, next, next, run.s, run.rect, pushed', added')
  {
    if IsIn(c, g, x1, t.y) {
      assert IsIn(c, g0, x1, t.y);
    }
    run, next := ScanRun(c, t, g0, g, x, x1, s, rect);
    var _, pushR, addR := RunAdds(c, t, g, x, x1, s, rect, pts0 + added);
    pushed', added' := ScanKeep(c, t, g0, s0, pts0, g, x, x1, s, rect, pushed, added, run, next, pushR, addR);
  }

  /** After the row scan, each painted column of the row has its neighbours done or on the work list. */
  ghost predicate FinalCol<T>(c: Ctx<T>, t: Span, g0: seq<T>, g: seq<T>, s: seq<Span>, a: int)
  {
    Fresh(c, g0, g, t.y, a) ==>
      !IsIn(c, g, a - 1, t.y) && !IsIn(c, g, a + 1, t.y) && CoveredBy(s, a, t.y + t.dy) &&
      (CoveredBy(s, a, t.y - t.dy) || t.x1 <= a <= t.x2)
  }

  /**
   * What processing the popped entry `t` achieves, from grid `g0` and work
   * list `s0`: it paints region pixels of row `t.y` only, leaves no
   * flooded-colour pixel in `t`'s columns, puts the unfinished neighbours of
   * what it painted on the work list, and grows the box by what it painted.
   */
  ghost predicate StepOut<T>(c: Ctx<T>, t: Span, g0: seq<T>, s0: seq<Span>, pts0: seq<Pos>,
                             r: State<T>, pushed: seq<Span>, added: seq<Pos>)
  {
    RowDelta(c, g0, r.g, t.y) && Framed(c, r.g) &&
    (forall a :: FinalCol(c, t, g0, r.g, r.s, a)) &&
    (forall a :: t.x1 <= a <= t.x2 ==> !IsIn(c, r.g, a, t.y)) &&
    r.s == s0 + pushed && (forall sp :: sp in pushed ==> PushFresh(c, g0, r.g, t.y, sp)) &&
    |pts0| > 0 && r.rect == Hull(pts0 + added) && (forall q :: q in added <==> OnFresh(c, g0, r.g, t.y, q))
  }

  /** Once the cursor is past `x2`, the row-scan invariant gives what the entry achieves. */
  lemma ScanExit<T>(c: Ctx<T>, t: Span, g0: seq<T>, s0: seq<Span>, pts0: seq<Pos>,
                    g: seq<T>, x: int, x1: int, s: seq<Span>, rect: Rect, pushed: seq<Span>, added: seq<Pos>)
    requires CtxOk(c) && x1 > t.x2
    requires ScanInv(c, t, g0, s0, pts0, g, x, x1, s, rect, pushed, added)
    ensures StepOut(c, t, g0, s0, pts0, State(g, s, rect), pushed, added)
  {
    forall a ensures FinalCol(c, t, g0, g, s, a) {
      assert ColInv(c, t, g0, g, x, x1, s, a);
    }
  }

  /** The loop at src/lib.rs:89-106, by induction on the columns left to scan. */
  lemma {:induction false} ScanFacts<T>(c: Ctx<T>, t: Span, g0: seq<T>, s0: seq<Span>, pts0: seq<Pos>,
                                        g: seq<T>, x: int, x1: int, s: seq<Span>, rect: Rect,
                                        pushed: seq<Span>, added: seq<Pos>)
      returns (r: State<T>, pushed': seq<Span>, added': seq<Pos>)
    requires CtxOk(c) && RegionExact(c)
    requires ScanInv(c, t, g0, s0, pts0, g, x, x1, s, rect, pushed, added)
    ensures r == ScanRow(c.e, g, x, x1, t.x2, t.y, t.dy, s, rect)
    ensures StepOut(c, t, g0, s0, pts0, r, pushed', added')
    decreases t.x2 - x1
  {
    if x1 <= t.x2 {
      var run, next, p, q := ScanStep(c, t, g0, s0, pts0, g, x, x1, s, rect, pushed, added);
      r, pushed', added' := ScanFacts(c, t, g0, s0, pts0, run.g, next, next, run.s, run.rect, p, q);
    } else {
      r, pushed', added' := State(g, s, rect), pushed, added;
      ScanExit(c, t, g0, s0, pts0, g, x, x1, s, rect, pushed, added);
    }
  }

  /** The columns the left loop painted meet the column invariant. */
  lemma StartCols<T>(c: Ctx<T>, t: Span, g: seq<T>, g': seq<T>, lx: int, s1: seq<Span>)
    requires CtxOk(c) && RangeDelta(c, g, g', t.y, lx, t.x1)
    requires lx < t.x1 ==> !IsIn(c, g', lx - 1, t.y) && Span(lx, t.x1 - 1, t.y - t.dy, -t.dy) in s1
    requires forall a :: Fresh(c, g, g', t.y, a) <==> lx <= a < t.x1
    ensures forall a :: ColInv(c, t, g, g', lx, t.x1, s1, a)
  {
    var lp := Span(lx, t.x1 - 1, t.y - t.dy, -t.dy);
    forall a ensures ColInv(c, t, g, g', lx, t.x1, s1, a) {
      if Fresh(c, g, g', t.y, a) {
        CoveredAt(s1, lp, a, t.y - t.dy);
        if a - 1 >= lx {
          assert PaintedCol(c, g, g', t.y, a - 1);
        }
        if a + 1 < t.x1 {
          assert PaintedCol(c, g, g', t.y, a + 1);
        }
      }
    }
  }

  /** The facts the left loop gives set up the row-scan invariant. */
  lemma StartKeep<T>(c: Ctx<T>, t: Span, g: seq<T>, rest: seq<Span>, pts: seq<Pos>, left: Cursor<T>, added: seq<Pos>)
      returns (s1: seq<Span>, pushed: seq<Span>)
    requires CtxOk(c) && RegionExact(c) && Framed(c, g)
    requires t.x1 <= t.x2 && (t.dy == 1 || t.dy == -1)
    requires forall a :: t.x1 <= a <= t.x2 && IsIn(c, g, a, t.y) ==> InRegion(c, a, t.y)
    requires |pts| > 0
    requires left.x <= t.x1 && left.s == rest
    requires RangeDelta(c, g, left.g, t.y, left.x, t.x1) && Framed(c, left.g)
    requires IsIn(c, g, t.x1, t.y) ==> !IsIn(c, left.g, left.x - 1, t.y)
    requires left.x < t.x1 ==> IsIn(c, g, t.x1, t.y)
    requires left.rect == Hull(pts + added) && forall q :: q in added <==> OnRange(q, t.y, left.x, t.x1)
    ensures s1 == if left.x < t.x1 then left.s + [Span(left.x, t.x1 - 1, t.y - t.dy, -t.dy)] else left.s
    ensures ScanInv(c, t, g, rest, pts, left.g, left.x, t.x1, s1, left.rect, pushed, added)
  {
    var y, dy := t.y, t.dy;
    var lp := Span(left.x, t.x1 - 1, y - dy, -dy);
    pushed := if left.x < t.x1 then [lp] else [];
    s1 := rest + pushed;
    assert RowDelta(c, g, g, y);
    RowJoin(c, g, g, left.g, y, left.x, t.x1);
    StartCols(c, t, g, left.g, left.x, s1);
    forall sp | sp in pushed ensures PushFresh(c, g, left.g, y, sp) {
    }
  }

  /** The left loop and its push (src/lib.rs:77-87) set up the row-scan invariant. */
  lemma ScanStart<T>(c: Ctx<T>, t: Span, g: seq<T>, rest: seq<Span>, rect: Rect, pts: seq<Pos>)
      returns (left: Cursor<T>, s1: seq<Span>, pushed: seq<Span>, added: seq<Pos>)
    requires CtxOk(c) && RegionExact(c) && Framed(c, g)
    requires t.x1 <= t.x2 && (t.dy == 1 || t.dy == -1)
    requires forall a :: t.x1 <= a <= t.x2 && IsIn(c, g, a, t.y) ==> InRegion(c, a, t.y)
    requires |pts| > 0 && rect == Hull(pts)
    ensures left == if IsInside(c.e, g, t.x1, t.y) then ExtendLeft(c.e, g, t.x1, t.y, rest, rect) else Cursor(g, t.x1, rest, rect)
    ensures s1 == if left.x < t.x1 then left.s + [Span(left.x, t.x1 - 1, t.y - t.dy, -t.dy)] else left.s
    ensures ScanInv(c, t, g, rest, pts, left.g, left.x, t.x1, s1, left.rect, pushed, added)
  {
    if IsInside(c.e, g, t.x1, t.y) {
      assert IsIn(c, g, t.x1, t.y);
      left := LeftGrid(c, g, t.x1, t.y, rest, rect);
      var _, a := LeftHull(c.e, g, t.x1, t.y, rest, rect, pts);
      added := a;
    } else {
      left := Cursor(g, t.x1, rest, rect);
      added := [];
      assert pts + added == pts;
      assert RangeDelta(c, g, left.g, t.y, left.x, t.x1);
    }
    s1, pushed := StartKeep(c, t, g, rest, pts, left, added);
  }


  /** The body of the loop at src/lib.rs:76-107 for the popped entry `t`. */
  lemma StepFacts<T>(c: Ctx<T>, t: Span, g: seq<T>, rest: seq<Span>, rect: Rect, pts: seq<Pos>)
      returns (r: State<T>, pushed: seq<Span>, added: seq<Pos>)
    requires CtxOk(c) && RegionExact(c) && Framed(c, g)
    requires t.x1 <= t.x2 && (t.dy == 1 || t.dy == -1)
    requires forall a :: t.x1 <= a <= t.x2 && IsIn(c, g, a, t.y) ==> InRegion(c, a, t.y)
    requires |pts| > 0 && rect == Hull(pts)
    ensures r == StepSpan(c.e, g, t, rest, rect)
    ensures StepOut(c, t, g, rest, pts, r, pushed, added)
  {
    var left, s1, p, q := ScanStart(c, t, g, rest, rect, pts);
    r, pushed, added := ScanFacts(c, t, g, rest, pts, left.g, left.x, t.x1, s1, left.rect, p, q);
  }
}
