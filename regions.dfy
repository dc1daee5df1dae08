/**
 * 4-connected regions of one colour on a row-major grid: the set that the
 * span-filling algorithm cited at src/lib.rs:57 is meant to paint.
 */
module Regions {
  import opened Wrappers
  import opened Images

  /** One step up, down, left or right. */
  predicate Adjacent(p: Pos, q: Pos)
  {
    (p.x == q.x && (p.y - q.y == 1 || q.y - p.y == 1)) ||
    (p.y == q.y && (p.x - q.x == 1 || q.x - p.x == 1))
  }

  /** Step `i` of the walk `p` goes to a 4-neighbour. */
  predicate Linked(p: seq<Pos>, i: int)
    requires 0 < i < |p|
  {
    Adjacent(p[i - 1], p[i])
  }

  /** A walk of 4-neighbour steps over pixels that all have colour `v`. */
  ghost predicate IsPath<T>(g: seq<T>, w: nat, h: nat, v: T, p: seq<Pos>)
  {
    |p| > 0 &&
    (forall i :: 0 <= i < |p| ==> At(g, w, h, p[i].x, p[i].y) == Some(v)) &&
    (forall i :: 0 < i < |p| ==> Linked(p, i))
  }

  /** `p` is a walk of colour `v` from `(sx, sy)` to `(x, y)`. */
  ghost predicate Walk<T>(g: seq<T>, w: nat, h: nat, v: T, p: seq<Pos>, sx: int, sy: int, x: int, y: int)
  {
    IsPath(g, w, h, v, p) && p[0] == Pos(sx, sy) && p[|p| - 1] == Pos(x, y)
  }

  /** `(x, y)` is in the 4-connected region of colour `v` that contains `(sx, sy)`. */
  ghost predicate Reach<T>(g: seq<T>, w: nat, h: nat, v: T, sx: int, sy: int, x: int, y: int)
  {
    exists p :: Walk(g, w, h, v, p, sx, sy, x, y)
  }

  /** The seed belongs to its own region when it has the region's colour. */
  lemma ReachSeed<T>(g: seq<T>, w: nat, h: nat, v: T, sx: int, sy: int)
    requires At(g, w, h, sx, sy) == Some(v)
    ensures Reach(g, w, h, v, sx, sy, sx, sy)
  {
    assert Walk(g, w, h, v, [Pos(sx, sy)], sx, sy, sx, sy);
  }

  /** A neighbour of a region pixel that has the region's colour is in the region. */
  lemma ReachStep<T>(g: seq<T>, w: nat, h: nat, v: T, sx: int, sy: int, x: int, y: int, x': int, y': int)
    requires Reach(g, w, h, v, sx, sy, x, y)
    requires Adjacent(Pos(x, y), Pos(x', y')) && At(g, w, h, x', y') == Some(v)
    ensures Reach(g, w, h, v, sx, sy, x', y')
  {
    var p: seq<Pos> :| Walk(g, w, h, v, p, sx, sy, x, y);
    var q := p + [Pos(x', y')];
    forall i | 0 < i < |q| ensures Linked(q, i) {
      if i < |p| {
        assert Linked(p, i);
      }
    }
    assert Walk(g, w, h, v, q, sx, sy, x', y');
  }

  /** Every region pixel lies on the grid and has the region's colour. */
  lemma ReachColour<T>(g: seq<T>, w: nat, h: nat, v: T, sx: int, sy: int, x: int, y: int)
    requires Reach(g, w, h, v, sx, sy, x, y)
    ensures InBounds(w, h, x, y) && At(g, w, h, x, y) == Some(v)
  {
    var p: seq<Pos> :| Walk(g, w, h, v, p, sx, sy, x, y);
    assert At(g, w, h, p[|p| - 1].x, p[|p| - 1].y) == Some(v);
  }

  /** Paths can be walked backwards. */
  lemma {:induction false} ReversePath<T>(g: seq<T>, w: nat, h: nat, v: T, p: seq<Pos>) returns (q: seq<Pos>)
    requires IsPath(g, w, h, v, p)
    ensures IsPath(g, w, h, v, q) && |q| == |p|
    ensures q[0] == p[|p| - 1] && q[|q| - 1] == p[0]
  {
    q := seq(|p|, i requires 0 <= i < |p| => p[|p| - 1 - i]);
    forall i | 0 < i < |q| ensures Linked(q, i) {
      assert Linked(p, |p| - i);
    }
  }

  /** Being in the same region is symmetric: the seed is reachable back from every region pixel. */
  lemma ReachSymmetric<T>(g: seq<T>, w: nat, h: nat, v: T, sx: int, sy: int, x: int, y: int)
    requires Reach(g, w, h, v, sx, sy, x, y)
    ensures Reach(g, w, h, v, x, y, sx, sy)
  {
    var p: seq<Pos> :| Walk(g, w, h, v, p, sx, sy, x, y);
    var q := ReversePath(g, w, h, v, p);
    assert Walk(g, w, h, v, q, x, y, sx, sy);
  }

  /** Every pixel along a walk from the seed is in the seed's region. */
  lemma ReachPrefix<T>(g: seq<T>, w: nat, h: nat, v: T, p: seq<Pos>, sx: int, sy: int, x: int, y: int, i: int)
    requires Walk(g, w, h, v, p, sx, sy, x, y) && 0 <= i < |p|
    ensures Reach(g, w, h, v, sx, sy, p[i].x, p[i].y)
  {
    var q := p[..i + 1];
    forall j | 0 < j < |q| ensures Linked(q, j) {
      assert Linked(p, j);
    }
    assert Walk(g, w, h, v, q, sx, sy, p[i].x, p[i].y);
  }

  /** Regions are transitive: a walk to `(x, y)` continues with any walk from it. */
  lemma ReachTrans<T>(g: seq<T>, w: nat, h: nat, v: T, sx: int, sy: int, x: int, y: int, x': int, y': int)
    requires Reach(g, w, h, v, sx, sy, x, y) && Reach(g, w, h, v, x, y, x', y')
    ensures Reach(g, w, h, v, sx, sy, x', y')
  {
    var p: seq<Pos> :| Walk(g, w, h, v, p, sx, sy, x, y);
    var q: seq<Pos> :| Walk(g, w, h, v, q, x, y, x', y');
    var r := p + q[1..];
    forall i | 0 <= i < |r| ensures At(g, w, h, r[i].x, r[i].y) == Some(v) {
      if i >= |p| {
        assert r[i] == q[i - |p| + 1];
      }
    }
    forall i | 0 < i < |r| ensures Linked(r, i) {
      if i < |p| {
        assert Linked(p, i);
      } else {
        assert Linked(q, i - |p| + 1);
        assert r[i - 1] == q[i - |p|];
      }
    }
    assert Walk(g, w, h, v, r, sx, sy, x', y');
  }
}
