/**
 * `Rect` of src/lib.rs: an inclusive bounding box.  The Rust type is `Copy`,
 * so it is a value here; `insert`, which grows the box through `&mut self`,
 * returns the grown box and callers reassign it.
 */
module Rects {
  import opened Images

  datatype Rect = Rect(top: int, left: int, bottom: int, right: int)
  {
    /** The inclusive box holds `(x, y)`. */
    predicate Contains(x: int, y: int)
    {
      left <= x <= right && top <= y <= bottom
    }

    /** Every point of `o` is a point of this box (edge-wise, so also for empty boxes). */
    predicate Encloses(o: Rect)
    {
      left <= o.left && o.right <= right && top <= o.top && o.bottom <= bottom
    }

    /** `Rect::point`: the box holding exactly one pixel. */
    static function Point(x: int, y: int): (r: Rect)
      ensures r.left <= r.right && r.top <= r.bottom
      ensures forall a, b :: r.Contains(a, b) <==> a == x && b == y
    {
      Rect(y, x, y, x)
    }

    /** `Rect::insert`: grow the box by min/max so that it also holds `(x, y)`. */
    function Insert(x: int, y: int): (r: Rect)
      ensures r.Contains(x, y) && r.Encloses(this)
      ensures left <= right && top <= bottom ==> r.left <= r.right && r.top <= r.bottom
    {
      Rect(if y < top then y else top,
           if x < left then x else left,
           if y > bottom then y else bottom,
           if x > right then x else right)
    }
  }

  /** `insert` gives the least box holding the old box and the new point. */
  lemma InsertIsLeast(r: Rect, x: int, y: int, q: Rect)
    requires q.Encloses(r) && q.Contains(x, y)
    ensures q.Encloses(r.Insert(x, y))
  {
  }

  /** Inserting a point that is already inside changes nothing. */
  lemma InsertInside(r: Rect, x: int, y: int)
    requires r.Contains(x, y)
    ensures r.Insert(x, y) == r
  {
  }

  /**
   * The box that `fill` accumulates: a point box at the first position,
   * grown by `insert` at each later one, in order.
   */
  function Hull(pts: seq<Pos>): (r: Rect)
    requires |pts| > 0
    ensures r.left <= r.right && r.top <= r.bottom
    decreases |pts|
  {
    if |pts| == 1 then Rect.Point(pts[0].x, pts[0].y)
    else Hull(pts[..|pts| - 1]).Insert(pts[|pts| - 1].x, pts[|pts| - 1].y)
  }

  /** The hull holds every one of the positions. */
  lemma {:induction false} HullContains(pts: seq<Pos>)
    requires |pts| > 0
    ensures forall i :: 0 <= i < |pts| ==> Hull(pts).Contains(pts[i].x, pts[i].y)
    decreases |pts|
  {
    if |pts| > 1 {
      HullContains(pts[..|pts| - 1]);
      assert forall i :: 0 <= i < |pts| - 1 ==> pts[i] == pts[..|pts| - 1][i];
    }
  }

  /** Every box holding all the positions encloses their hull. */
  lemma {:induction false} HullIsLeast(pts: seq<Pos>, q: Rect)
    requires |pts| > 0
    requires forall i :: 0 <= i < |pts| ==> q.Contains(pts[i].x, pts[i].y)
    ensures q.Encloses(Hull(pts))
    decreases |pts|
  {
    if |pts| > 1 {
      HullIsLeast(pts[..|pts| - 1], q);
      InsertIsLeast(Hull(pts[..|pts| - 1]), pts[|pts| - 1].x, pts[|pts| - 1].y, q);
    }
  }

  /** Each edge of the hull is reached by one of the positions: the box has no slack. */
  lemma {:induction false} HullIsTight(pts: seq<Pos>)
    requires |pts| > 0
    ensures exists i :: 0 <= i < |pts| && pts[i].x == Hull(pts).left
    ensures exists i :: 0 <= i < |pts| && pts[i].x == Hull(pts).right
    ensures exists i :: 0 <= i < |pts| && pts[i].y == Hull(pts).top
    ensures exists i :: 0 <= i < |pts| && pts[i].y == Hull(pts).bottom
    decreases |pts|
  {
    if |pts| > 1 {
      var init := pts[..|pts| - 1];
      HullIsTight(init);
      var r := Hull(init);
      var n := |pts| - 1;
      if pts[n].x < r.left { assert pts[n].x == Hull(pts).left; }
      else { var i :| 0 <= i < |init| && init[i].x == r.left; assert pts[i].x == Hull(pts).left; }
      if pts[n].x > r.right { assert pts[n].x == Hull(pts).right; }
      else { var i :| 0 <= i < |init| && init[i].x == r.right; assert pts[i].x == Hull(pts).right; }
      if pts[n].y < r.top { assert pts[n].y == Hull(pts).top; }
      else { var i :| 0 <= i < |init| && init[i].y == r.top; assert pts[i].y == Hull(pts).top; }
      if pts[n].y > r.bottom { assert pts[n].y == Hull(pts).bottom; }
      else { var i :| 0 <= i < |init| && init[i].y == r.bottom; assert pts[i].y == Hull(pts).bottom; }
    } else {
      assert pts[0].x == Hull(pts).left && pts[0].y == Hull(pts).top;
    }
  }
}
