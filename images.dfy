/**
 * The pixel-surface contract (the `Image` trait of src/lib.rs): a grid of
 * `width * height` pixels that answers `None` for coordinates outside the
 * grid and ignores writes there.
 *
 * The trait is generic; Dafny has no traits here, so the contract is the class
 * `Image`, whose pixels are kept row-major in one sequence.  Every operation of
 * the flood fill is written against this class only.
 */
module Images {
  import opened Wrappers

  /** A pixel coordinate. */
  datatype Pos = Pos(x: int, y: int)

  /** `(x, y)` lies on a `w` by `h` grid. */
  predicate InBounds(w: nat, h: nat, x: int, y: int)
  {
    0 <= x < w && 0 <= y < h
  }

  /** Row-major position of an in-bounds pixel. */
  function Index(w: nat, h: nat, x: int, y: int): (i: nat)
    requires InBounds(w, h, x, y)
    ensures i < w * h
  {
    IndexBelow(w, h, x, y);
    y * w + x
  }

  lemma IndexBelow(w: nat, h: nat, x: int, y: int)
    requires InBounds(w, h, x, y)
    ensures 0 <= y * w + x < w * h
  {
    assert y * w <= (h - 1) * w by { MulLeft(y, h - 1, w); }
    assert (h - 1) * w + w == h * w;
  }

  lemma MulLeft(a: int, b: int, c: nat)
    requires a <= b
    ensures a * c <= b * c
  {
    assert b * c - a * c == (b - a) * c;
  }

  /** Distinct in-bounds pixels occupy distinct positions. */
  lemma IndexInjective(w: nat, h: nat, x: int, y: int, x': int, y': int)
    requires InBounds(w, h, x, y) && InBounds(w, h, x', y')
    ensures Index(w, h, x, y) == Index(w, h, x', y') <==> x == x' && y == y'
  {
    if y < y' {
      MulLeft(y + 1, y', w);
      assert (y + 1) * w == y * w + w;
    } else if y' < y {
      MulLeft(y' + 1, y, w);
      assert (y' + 1) * w == y' * w + w;
    }
  }

  /** The pixel at `(x, y)` of the row-major grid `g`, or `None` off the grid. */
  function At<T>(g: seq<T>, w: nat, h: nat, x: int, y: int): (r: Option<T>)
  {
    if InBounds(w, h, x, y) && |g| == w * h then Some(g[Index(w, h, x, y)]) else None
  }

  /** Reading the grid answers exactly for on-grid coordinates of a grid of the right size, with the pixel stored there. */
  lemma AtDefined<T>(g: seq<T>, w: nat, h: nat, x: int, y: int)
    ensures At(g, w, h, x, y).Some? <==> InBounds(w, h, x, y) && |g| == w * h
    ensures At(g, w, h, x, y).Some? ==> 0 <= Index(w, h, x, y) < |g| && At(g, w, h, x, y).value == g[Index(w, h, x, y)]
  {
    if InBounds(w, h, x, y) && |g| == w * h {
      IndexBelow(w, h, x, y);
    }
  }

  /** The grid `g` after writing `v` at `(x, y)`; writes off the grid change nothing. */
  function Write<T>(g: seq<T>, w: nat, h: nat, x: int, y: int, v: T): (r: seq<T>)
    ensures |r| == |g|
  {
    if InBounds(w, h, x, y) && |g| == w * h then g[Index(w, h, x, y) := v] else g
  }

  /** A write changes the pixel it names, when that pixel is on the grid, and no other. */
  lemma WriteAt<T>(g: seq<T>, w: nat, h: nat, x: int, y: int, v: T)
    requires |g| == w * h
    ensures InBounds(w, h, x, y) ==> At(Write(g, w, h, x, y, v), w, h, x, y) == Some(v)
    ensures !InBounds(w, h, x, y) ==> Write(g, w, h, x, y, v) == g
    ensures forall a, b :: a != x || b != y ==> At(Write(g, w, h, x, y, v), w, h, a, b) == At(g, w, h, a, b)
  {
    forall a, b | a != x || b != y
      ensures At(Write(g, w, h, x, y, v), w, h, a, b) == At(g, w, h, a, b)
    {
      if InBounds(w, h, a, b) && InBounds(w, h, x, y) {
        IndexInjective(w, h, x, y, a, b);
      }
    }
  }

  class Image<T(==)> {
    const width: nat
    const height: nat
    var data: seq<T>

    ghost predicate Valid()
      reads this
    {
      |data| == width * height
    }

    constructor (width: nat, height: nat, data: seq<T>)
      requires |data| == width * height
      ensures Valid()
      ensures this.width == width && this.height == height && this.data == data
    {
      this.width := width;
      this.height := height;
      this.data := data;
    }

    /** `get_pixel`: the pixel, or `None` outside the grid. */
    function GetPixel(x: int, y: int): (r: Option<T>)
      reads this
      requires Valid()
      ensures r.Some? <==> InBounds(width, height, x, y)
      ensures r.Some? ==> r.value == data[Index(width, height, x, y)]
    {
      At(data, width, height, x, y)
    }

    /** `set_pixel`: writes an in-bounds pixel; does nothing outside the grid. */
    method SetPixel(x: int, y: int, v: T)
      requires Valid()
      modifies this
      ensures Valid()
      ensures data == Write(old(data), width, height, x, y, v)
    {
      if InBounds(width, height, x, y) {
        data := data[Index(width, height, x, y) := v];
      }
    }
  }
}
