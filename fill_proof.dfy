/**
 * `fill` (src/lib.rs:57-110) paints exactly the 4-connected region of the
 * seed's colour around the seed, and returns that region's bounding box.
 *
 * The proof follows the work list: every pixel painted so far belongs to the
 * region, and each of its neighbours of the flooded colour is still named by
 * some entry of the work list.  When the list is empty, no painted pixel has
 * an unpainted region neighbour, so the whole region is painted.
 */
module FillProof {
  import opened Wrappers
  import opened Images
  import opened Rects
  import opened Regions
  import opened SpanSpec
  import opened SpanProof

  /** A well-formed entry: a non-empty column range and a unit step. */
  predicate SpanOk(sp: Span)
  {
    sp.x1 <= sp.x2 && (sp.dy == 1 || sp.dy == -1)
  }

  /** Every flooded-colour pixel that the entry names is a region pixel. */
  ghost predicate SpanReach<T>(c: Ctx<T>, g: seq<T>, sp: Span)
  {
    forall a :: sp.x1 <= a <= sp.x2 && IsIn(c, g, a, sp.y) ==> InRegion(c, a, sp.y)
  }

  /** `(a, b)` no longer has the flooded colour, or an entry of `s` names it. */
  ghost predicate NbrOk<T>(c: Ctx<T>, g: seq<T>, s: seq<Span>, a: int, b: int)
  {
    !IsIn(c, g, a, b) || CoveredBy(s, a, b)
  }

  /** Column `a` of the row the entry was pushed from is done, or on the work list. */
  ghost predicate ParentOk<T>(c: Ctx<T>, g: seq<T>, s: seq<Span>, sp: Span, a: int)
  {
    NbrOk(c, g, s, a, sp.y - sp.dy)
  }

  /** The row the entry was pushed from is done, or on the work list, over the entry's columns. */
  ghost predicate ParentDone<T>(c: Ctx<T>, g: seq<T>, s: seq<Span>, sp: Span)
  {
    forall a :: sp.x1 <= a <= sp.x2 ==> ParentOk(c, g, s, sp, a)
  }

  /** All four neighbours of `(a, b)` are done or on the work list. */
  ghost predicate NbrsOk<T>(c: Ctx<T>, g: seq<T>, s: seq<Span>, a: int, b: int)
  {
    NbrOk(c, g, s, a - 1, b) && NbrOk(c, g, s, a + 1, b) && NbrOk(c, g, s, a, b - 1) && NbrOk(c, g, s, a, b + 1)
  }

  ghost predicate EntryOk<T>(c: Ctx<T>, g: seq<T>, s: seq<Span>, sp: Span)
  {
    SpanOk(sp) && SpanReach(c, g, sp) && ParentDone(c, g, s, sp)
  }

  /** `ps` lists exactly the pixels painted so far. */
  ghost predicate Tracked<T>(c: Ctx<T>, g: seq<T>, ps: seq<Pos>)
  {
    forall q :: q in ps <==> Painted(c, g, q.x, q.y)
  }

  /**
   * The invariant of the `while let` loop at src/lib.rs:76-107, with `ps` the
   * pixels painted so far in the order they were painted.
   */
  ghost predicate Inv<T>(c: Ctx<T>, st: State<T>, ps: seq<Pos>)
  {
    Framed(c, st.g) &&
    (forall sp :: sp in st.s ==> EntryOk(c, st.g, st.s, sp)) &&
    (forall a, b :: Painted(c, st.g, a, b) ==> InRegion(c, a, b) && NbrsOk(c, st.g, st.s, a, b)) &&
    NbrOk(c, st.g, st.s, c.sx, c.sy) &&
    Tracked(c, st.g, ps) && st.rect == Hull([Pos(c.sx, c.sy)] + ps)
  }

  /** The two entries pushed at src/lib.rs:73-74 and the box of the seed establish the invariant. */
  lemma InitInv<T>(c: Ctx<T>)
    requires CtxOk(c) && RegionExact(c)
    ensures Inv(c, State(c.orig, [Span(c.sx, c.sx, c.sy, 1), Span(c.sx, c.sx, c.sy - 1, -1)], Rect.Point(c.sx, c.sy)), [])
  {
    var sx, sy := c.sx, c.sy;
    var s := [Span(sx, sx, sy, 1), Span(sx, sx, sy - 1, -1)];
    ReachSeed(c.orig, c.e.w, c.e.h, c.e.inside, sx, sy);
    assert InRegion(c, sx, sy);
    if IsIn(c, c.orig, sx, sy - 1) {
      RegionStep(c, sx, sy, sx, sy - 1);
    }
    CoveredAt(s, s[0], sx, sy);
    CoveredAt(s, s[1], sx, sy - 1);
    assert [Pos(sx, sy)] + [] == [Pos(sx, sy)];
  }

  /** Across one entry, flooded-colour pixels only disappear and painted ones only appear, in row `y`. */
  lemma Mono<T>(c: Ctx<T>, g: seq<T>, g': seq<T>, y: int, a: int, b: int)
    requires CtxOk(c) && Framed(c, g) && RowDelta(c, g, g', y)
    ensures IsIn(c, g', a, b) ==> IsIn(c, g, a, b)
    ensures Painted(c, g', a, b) <==> Painted(c, g, a, b) || (b == y && Fresh(c, g, g', y, a))
  {
    assert At(g', c.e.w, c.e.h, a, b) == At(g, c.e.w, c.e.h, a, b) || (b == y && Fresh(c, g, g', y, a));
    if b == y && Fresh(c, g, g', y, a) {
      StillOrig(c, g, a, y);
    }
  }

  /** A pixel named by the popped entry is done afterwards, so what still needs naming is named by the new list. */
  lemma NbrMove<T>(c: Ctx<T>, t: Span, g: seq<T>, g': seq<T>, rest: seq<Span>, pushed: seq<Span>, a: int, b: int)
    requires IsIn(c, g', a, b) ==> IsIn(c, g, a, b)
    requires Covers(t, a, b) ==> !IsIn(c, g', a, b)
    requires NbrOk(c, g, rest + [t], a, b)
    ensures NbrOk(c, g', rest + pushed, a, b)
  {
    if IsIn(c, g', a, b) {
      var sp :| sp in rest + [t] && Covers(sp, a, b);
      assert sp in rest;
      CoveredAt(rest + pushed, sp, a, b);
    }
  }

  /** An entry that stays on the list stays well-formed and sound. */
  lemma EntryKept<T>(c: Ctx<T>, g: seq<T>, t: Span, rest: seq<Span>, pts: seq<Pos>,
                     r: State<T>, pushed: seq<Span>, added: seq<Pos>, sp: Span)
    requires CtxOk(c) && Framed(c, g) && EntryOk(c, g, rest + [t], sp)
    requires StepOut(c, t, g, rest, pts, r, pushed, added)
    ensures EntryOk(c, r.g, r.s, sp)
  {
    forall a | sp.x1 <= a <= sp.x2
      ensures ParentOk(c, r.g, r.s, sp, a) && (IsIn(c, r.g, a, sp.y) ==> InRegion(c, a, sp.y))
    {
      assert ParentOk(c, g, rest + [t], sp, a);
      Mono(c, g, r.g, t.y, a, sp.y);
      Mono(c, g, r.g, t.y, a, sp.y - sp.dy);
      NbrMove(c, t, g, r.g, rest, pushed, a, sp.y - sp.dy);
    }
  }

  /** An entry pushed while processing `t` names only freshly painted columns' neighbours. */
  lemma EntryPushed<T>(c: Ctx<T>, g: seq<T>, t: Span, rest: seq<Span>, pts: seq<Pos>,
                       r: State<T>, pushed: seq<Span>, added: seq<Pos>, sp: Span)
    requires CtxOk(c) && RegionExact(c) && Framed(c, g) && sp in pushed
    requires StepOut(c, t, g, rest, pts, r, pushed, added)
    ensures EntryOk(c, r.g, r.s, sp)
  {
    assert PushFresh(c, g, r.g, t.y, sp);
    forall a | sp.x1 <= a <= sp.x2
      ensures ParentOk(c, r.g, r.s, sp, a) && (IsIn(c, r.g, a, sp.y) ==> InRegion(c, a, sp.y))
    {
      assert Fresh(c, g, r.g, t.y, a);
      if IsIn(c, r.g, a, sp.y) {
        StillOrig(c, r.g, a, sp.y);
        RegionStep(c, a, t.y, a, sp.y);
      }
    }
  }

  /** Every entry of the new work list is still well-formed and sound. */
  lemma InvEntries<T>(c: Ctx<T>, g: seq<T>, t: Span, rest: seq<Span>, pts: seq<Pos>,
                      r: State<T>, pushed: seq<Span>, added: seq<Pos>)
    requires CtxOk(c) && RegionExact(c) && Framed(c, g)
    requires forall sp :: sp in rest + [t] ==> EntryOk(c, g, rest + [t], sp)
    requires StepOut(c, t, g, rest, pts, r, pushed, added)
    ensures forall sp :: sp in r.s ==> EntryOk(c, r.g, r.s, sp)
  {
    forall sp | sp in r.s ensures EntryOk(c, r.g, r.s, sp) {
      if sp in rest {
        assert sp in rest + [t];
        EntryKept(c, g, t, rest, pts, r, pushed, added, sp);
      } else {
        EntryPushed(c, g, t, rest, pts, r, pushed, added, sp);
      }
    }
  }

  /** A pixel painted while processing `t` has all four neighbours done or on the new work list. */
  lemma FreshNbrs<T>(c: Ctx<T>, g: seq<T>, t: Span, rest: seq<Span>, pts: seq<Pos>,
                     r: State<T>, pushed: seq<Span>, added: seq<Pos>, a: int)
    requires CtxOk(c) && Framed(c, g) && EntryOk(c, g, rest + [t], t)
    requires StepOut(c, t, g, rest, pts, r, pushed, added)
    requires Fresh(c, g, r.g, t.y, a)
    ensures NbrsOk(c, r.g, r.s, a, t.y)
  {
    assert FinalCol(c, t, g, r.g, r.s, a);
    if t.x1 <= a <= t.x2 && !CoveredBy(r.s, a, t.y - t.dy) {
      assert ParentOk(c, g, rest + [t], t, a);
      Mono(c, g, r.g, t.y, a, t.y - t.dy);
      NbrMove(c, t, g, r.g, rest, pushed, a, t.y - t.dy);
    }
  }

  /** Painted pixels stay region pixels with their neighbours accounted for. */
  lemma InvPainted<T>(c: Ctx<T>, g: seq<T>, t: Span, rest: seq<Span>, pts: seq<Pos>,
                      r: State<T>, pushed: seq<Span>, added: seq<Pos>)
    requires CtxOk(c) && Framed(c, g) && EntryOk(c, g, rest + [t], t)
    requires forall a, b :: Painted(c, g, a, b) ==> InRegion(c, a, b) && NbrsOk(c, g, rest + [t], a, b)
    requires StepOut(c, t, g, rest, pts, r, pushed, added)
    ensures forall a, b :: Painted(c, r.g, a, b) ==> InRegion(c, a, b) && NbrsOk(c, r.g, r.s, a, b)
  {
    forall a, b | Painted(c, r.g, a, b) ensures InRegion(c, a, b) && NbrsOk(c, r.g, r.s, a, b) {
      Mono(c, g, r.g, t.y, a, b);
      if Painted(c, g, a, b) {
        Mono(c, g, r.g, t.y, a - 1, b);
        Mono(c, g, r.g, t.y, a + 1, b);
        Mono(c, g, r.g, t.y, a, b - 1);
        Mono(c, g, r.g, t.y, a, b + 1);
        NbrMove(c, t, g, r.g, rest, pushed, a - 1, b);
        NbrMove(c, t, g, r.g, rest, pushed, a + 1, b);
        NbrMove(c, t, g, r.g, rest, pushed, a, b - 1);
        NbrMove(c, t, g, r.g, rest, pushed, a, b + 1);
      } else {
        FreshNbrs(c, g, t, rest, pts, r, pushed, added, a);
      }
    }
  }

  /** The painted list grows by what the entry painted, in order, and the box is still its hull. */
  lemma InvTracked<T>(c: Ctx<T>, g: seq<T>, t: Span, rest: seq<Span>, ps: seq<Pos>,
                      r: State<T>, pushed: seq<Span>, added: seq<Pos>)
    requires CtxOk(c) && Framed(c, g) && Tracked(c, g, ps)
    requires StepOut(c, t, g, rest, [Pos(c.sx, c.sy)] + ps, r, pushed, added)
    ensures Tracked(c, r.g, ps + added) && r.rect == Hull([Pos(c.sx, c.sy)] + (ps + added))
  {
    forall q ensures q in ps + added <==> Painted(c, r.g, q.x, q.y) {
      Mono(c, g, r.g, t.y, q.x, q.y);
      assert q in added <==> OnFresh(c, g, r.g, t.y, q);
    }
    AppendAssoc([Pos(c.sx, c.sy)], ps, added);
  }

  /** Processing the last entry keeps the invariant. */
  lemma InvStep<T>(c: Ctx<T>, g: seq<T>, t: Span, rest: seq<Span>, rect: Rect, ps: seq<Pos>,
                   r: State<T>, pushed: seq<Span>, added: seq<Pos>)
    requires CtxOk(c) && RegionExact(c)
    requires Inv(c, State(g, rest + [t], rect), ps)
    requires StepOut(c, t, g, rest, [Pos(c.sx, c.sy)] + ps, r, pushed, added)
    ensures Inv(c, r, ps + added)
  {
    assert t in rest + [t];
    InvEntries(c, g, t, rest, [Pos(c.sx, c.sy)] + ps, r, pushed, added);
    InvPainted(c, g, t, rest, [Pos(c.sx, c.sy)] + ps, r, pushed, added);
    Mono(c, g, r.g, t.y, c.sx, c.sy);
    NbrMove(c, t, g, r.g, rest, pushed, c.sx, c.sy);
    InvTracked(c, g, t, rest, ps, r, pushed, added);
  }

  /** The `while let` loop keeps the invariant until the work list is empty. */
  lemma {:induction false} DrainFacts<T>(c: Ctx<T>, st: State<T>, ps: seq<Pos>) returns (ps': seq<Pos>)
    requires CtxOk(c) && RegionExact(c) && EnvOk(c.e, st.g)
    requires Inv(c, st, ps)
    ensures Inv(c, Drain(c.e, st), ps')
    decreases Count(st.g, c.e.inside), |st.s|
  {
    if st.s == [] {
      ps' := ps;
    } else {
      var t := st.s[|st.s| - 1];
      var rest := st.s[..|st.s| - 1];
      assert st.s == rest + [t];
      assert EntryOk(c, st.g, st.s, t);
      var r, pushed, added := StepFacts(c, t, st.g, rest, st.rect, [Pos(c.sx, c.sy)] + ps);
      InvStep(c, st.g, t, rest, st.rect, ps, r, pushed, added);
      StepCount(c.e, st.g, t, rest, st.rect);
      ps' := DrainFacts(c, r, ps + added);
    }
  }

  /** With the work list empty, every pixel along a region walk from the seed is painted. */
  lemma {:induction false} WalkPainted<T>(c: Ctx<T>, g: seq<T>, p: seq<Pos>, i: int)
    requires CtxOk(c) && Framed(c, g)
    requires forall a, b :: Painted(c, g, a, b) ==> NbrsOk(c, g, [], a, b)
    requires NbrOk(c, g, [], c.sx, c.sy)
    requires IsPath(c.orig, c.e.w, c.e.h, c.e.inside, p) && p[0] == Pos(c.sx, c.sy)
    requires 0 <= i < |p|
    ensures Painted(c, g, p[i].x, p[i].y)
    decreases i
  {
    var q := p[i];
    assert At(c.orig, c.e.w, c.e.h, q.x, q.y) == Some(c.e.inside);
    assert At(g, c.e.w, c.e.h, q.x, q.y) == At(c.orig, c.e.w, c.e.h, q.x, q.y) || Painted(c, g, q.x, q.y);
    if i == 0 {
      assert NbrOk(c, g, [], c.sx, c.sy);
    } else {
      WalkPainted(c, g, p, i - 1);
      var o := p[i - 1];
      assert NbrsOk(c, g, [], o.x, o.y);
      assert Linked(p, i);
      assert q == Pos(q.x, q.y);
    }
  }

  /** With the work list empty, the painted pixels are exactly the region. */
  lemma DoneExact<T>(c: Ctx<T>, g: seq<T>, rect: Rect, ps: seq<Pos>)
    requires CtxOk(c) && RegionExact(c) && Inv(c, State(g, [], rect), ps)
    ensures forall a, b :: Painted(c, g, a, b) <==> InRegion(c, a, b)
  {
    forall a, b | InRegion(c, a, b) ensures Painted(c, g, a, b) {
      assert Reach(c.orig, c.e.w, c.e.h, c.e.inside, c.sx, c.sy, a, b);
      var p :| Walk(c.orig, c.e.w, c.e.h, c.e.inside, p, c.sx, c.sy, a, b);
      WalkPainted(c, g, p, |p| - 1);
    }
  }

  /** `fill` returns `None` and changes nothing when the seed is off the grid or already has the paint. */
  lemma FillNone<T>(g: seq<T>, w: nat, h: nat, x: int, y: int, nv: T)
    requires |g| == w * h
    ensures FillSpec(g, w, h, x, y, nv).rect.None? <==> At(g, w, h, x, y).None? || At(g, w, h, x, y) == Some(nv)
    ensures FillSpec(g, w, h, x, y, nv).rect.None? ==> FillSpec(g, w, h, x, y, nv).g == g
  {
  }

  /**
   * `g'` is `g` with the 4-connected region of colour `v` around `(x, y)`
   * painted `nv` and every other pixel as it was.
   */
  ghost predicate RegionFilled<T>(g: seq<T>, g': seq<T>, w: nat, h: nat, x: int, y: int, v: T, nv: T)
  {
    |g'| == |g| &&
    (forall a, b :: Reach(g, w, h, v, x, y, a, b) ==> At(g', w, h, a, b) == Some(nv)) &&
    (forall a, b :: !Reach(g, w, h, v, x, y, a, b) ==> At(g', w, h, a, b) == At(g, w, h, a, b))
  }

  /** `box` is the least box holding the region: it holds every region pixel and each edge touches one. */
  ghost predicate RegionBox<T>(g: seq<T>, w: nat, h: nat, x: int, y: int, v: T, box: Rect)
  {
    (forall a, b :: Reach(g, w, h, v, x, y, a, b) ==> box.Contains(a, b)) &&
    (exists a, b :: Reach(g, w, h, v, x, y, a, b) && a == box.left) &&
    (exists a, b :: Reach(g, w, h, v, x, y, a, b) && a == box.right) &&
    (exists a, b :: Reach(g, w, h, v, x, y, a, b) && b == box.top) &&
    (exists a, b :: Reach(g, w, h, v, x, y, a, b) && b == box.bottom)
  }

  /**
   * Otherwise `fill` paints exactly the seed's 4-connected region of colour
   * `v`, leaves every other pixel as it was, and returns the least box
   * holding the region.
   */
  lemma FillSome<T>(g: seq<T>, w: nat, h: nat, x: int, y: int, nv: T, v: T)
    requires |g| == w * h && At(g, w, h, x, y) == Some(v) && v != nv
    ensures FillSpec(g, w, h, x, y, nv).rect.Some?
    ensures At(FillSpec(g, w, h, x, y, nv).g, w, h, x, y) == Some(nv)
    ensures RegionFilled(g, FillSpec(g, w, h, x, y, nv).g, w, h, x, y, v, nv)
    ensures RegionBox(g, w, h, x, y, v, FillSpec(g, w, h, x, y, nv).rect.value)
  {
    var region := set a, b | 0 <= a < w && 0 <= b < h && Reach(g, w, h, v, x, y, a, b) :: Pos(a, b);
    var c := Ctx(Env(w, h, v, nv), g, x, y, region);
    forall a, b ensures Pos(a, b) in region <==> Reach(g, w, h, v, x, y, a, b) {
      if Reach(g, w, h, v, x, y, a, b) {
        ReachColour(g, w, h, v, x, y, a, b);
      }
    }
    assert RegionExact(c);
    var st0 := State(g, [Span(x, x, y, 1), Span(x, x, y - 1, -1)], Rect.Point(x, y));
    InitInv(c);
    var ps := DrainFacts(c, st0, []);
    var st := Drain(c.e, st0);
    DoneExact(c, st.g, st.rect, ps);
    assert FillSpec(g, w, h, x, y, nv) == Filled(st.g, Some(st.rect));
    forall a, b ensures At(st.g, w, h, a, b) == (if Reach(g, w, h, v, x, y, a, b) then Some(nv) else At(g, w, h, a, b)) {
      assert InRegion(c, a, b) <==> Reach(g, w, h, v, x, y, a, b);
      assert At(st.g, w, h, a, b) == At(g, w, h, a, b) || Painted(c, st.g, a, b);
    }
    BoxFacts(c, st.g, ps, st.rect);
    ReachSeed(g, w, h, v, x, y);
  }

  /** The least box of a region holds the seed, is not empty and lies on the grid. */
  lemma BoxInGrid<T>(g: seq<T>, w: nat, h: nat, x: int, y: int, v: T, box: Rect)
    requires At(g, w, h, x, y) == Some(v) && RegionBox(g, w, h, x, y, v, box)
    ensures box.Contains(x, y) && box.left <= box.right && box.top <= box.bottom
    ensures 0 <= box.left && box.right < w && 0 <= box.top && box.bottom < h
  {
    ReachSeed(g, w, h, v, x, y);
    var a0, b0 :| Reach(g, w, h, v, x, y, a0, b0) && a0 == box.left;
    ReachColour(g, w, h, v, x, y, a0, b0);
    var a1, b1 :| Reach(g, w, h, v, x, y, a1, b1) && a1 == box.right;
    ReachColour(g, w, h, v, x, y, a1, b1);
    var a2, b2 :| Reach(g, w, h, v, x, y, a2, b2) && b2 == box.top;
    ReachColour(g, w, h, v, x, y, a2, b2);
    var a3, b3 :| Reach(g, w, h, v, x, y, a3, b3) && b3 == box.bottom;
    ReachColour(g, w, h, v, x, y, a3, b3);
  }

  /** The box of the seed and the painted list is the least box holding the region. */
  lemma BoxFacts<T>(c: Ctx<T>, g: seq<T>, ps: seq<Pos>, box: Rect)
    requires CtxOk(c) && RegionExact(c) && Tracked(c, g, ps) && box == Hull([Pos(c.sx, c.sy)] + ps)
    requires forall a, b :: Painted(c, g, a, b) <==> InRegion(c, a, b)
    ensures RegionBox(c.orig, c.e.w, c.e.h, c.sx, c.sy, c.e.inside, box)
  {
    var g0, w, h, v := c.orig, c.e.w, c.e.h, c.e.inside;
    var pts := [Pos(c.sx, c.sy)] + ps;
    ReachSeed(g0, w, h, v, c.sx, c.sy);
    assert InRegion(c, c.sx, c.sy);
    forall i | 0 <= i < |pts| ensures Reach(g0, w, h, v, c.sx, c.sy, pts[i].x, pts[i].y) {
      if i > 0 {
        assert pts[i] in ps;
        assert InRegion(c, pts[i].x, pts[i].y);
      }
    }
    HullContains(pts);
    forall a, b | Reach(g0, w, h, v, c.sx, c.sy, a, b) ensures box.Contains(a, b) {
      assert InRegion(c, a, b);
      if Pos(a, b) != Pos(c.sx, c.sy) {
        assert Pos(a, b) in ps;
        var k :| 0 <= k < |ps| && ps[k] == Pos(a, b);
        assert pts[k + 1] == Pos(a, b);
      } else {
        assert pts[0] == Pos(a, b);
      }
    }
    HullIsTight(pts);
    var i0 :| 0 <= i0 < |pts| && pts[i0].x == box.left;
    assert Reach(g0, w, h, v, c.sx, c.sy, pts[i0].x, pts[i0].y);
    var i1 :| 0 <= i1 < |pts| && pts[i1].x == box.right;
    assert Reach(g0, w, h, v, c.sx, c.sy, pts[i1].x, pts[i1].y);
    var i2 :| 0 <= i2 < |pts| && pts[i2].y == box.top;
    assert Reach(g0, w, h, v, c.sx, c.sy, pts[i2].x, pts[i2].y);
    var i3 :| 0 <= i3 < |pts| && pts[i3].y == box.bottom;
    assert Reach(g0, w, h, v, c.sx, c.sy, pts[i3].x, pts[i3].y);
  }
}
