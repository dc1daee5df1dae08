/**
 * `MinimalImage` of examples/semantic.rs (copied unchanged in benches/tiff.rs):
 * a flat byte buffer holding `width` pixels per row and `n_channels` bytes
 * per pixel, rows one after another.  As an `Image` it shows channel 0 of
 * each pixel; the height is however many whole rows the buffer holds.
 */
module MinimalImages {
  import opened Wrappers
  import opened Images
  import opened Rects

  newtype byte = b: int | 0 <= b < 256

  lemma MulAdd(a: int, b: int, c: int)
    ensures (a + b) * c == a * c + b * c
  {
  }

  /** `x / d` is the one `q` with `q * d <= x < (q + 1) * d`. */
  lemma DivBounds(x: nat, d: nat)
    requires d > 0
    ensures 0 <= x / d && (x / d) * d <= x < (x / d + 1) * d
  {
    MulAdd(x / d, 1, d);
  }

  /** Whole numbers of `d`-sized chunks: `(q * d) / d == q`. */
  lemma DivExact(q: nat, d: nat)
    requires d > 0
    ensures (q * d) / d == q
  {
    var r := (q * d) / d;
    DivBounds(q * d, d);
    if r < q {
      MulLeft(r + 1, q, d);
    } else if r > q {
      MulLeft(q + 1, r, d);
      MulAdd(q, 1, d);
    }
  }

  class MinimalImage {
    const nChannels: nat
    const width: nat
    var data: seq<byte>

    constructor (nChannels: nat, width: nat, data: seq<byte>)
      ensures this.nChannels == nChannels && this.width == width && this.data == data
    {
      this.nChannels := nChannels;
      this.width := width;
      this.data := data;
    }

    /** `row_size`: bytes per row. */
    function RowSize(): (r: nat)
      ensures r > 0 <==> nChannels > 0 && width > 0
    {
      nChannels * width
    }

    /** `height`: the number of whole rows in the buffer; it divides by the row size, so that must not be zero. */
    function Height(): (h: nat)
      reads this
      requires RowSize() > 0
      ensures h * RowSize() <= |data| < (h + 1) * RowSize()
    {
      var rs := RowSize();
      DivBounds(|data|, rs);
      |data| / rs
    }

    /** `row`: the bytes of row `r`; the slice must lie inside the buffer. */
    function Row(r: nat): (s: seq<byte>)
      reads this
      requires (r + 1) * RowSize() <= |data|
      ensures |s| == RowSize()
      ensures forall i :: 0 <= i < |s| ==> s[i] == data[r * RowSize() + i]
    {
      MulAdd(r, 1, RowSize());
      data[r * RowSize()..(r + 1) * RowSize()]
    }

    /** The bounds test of `calc_idx`, in the order the source evaluates it. */
    predicate Has(x: int, y: int)
      reads this
      ensures Has(x, y) ==> nChannels > 0 && (y + 1) * RowSize() <= |data|
    {
      0 <= x < width && 0 <= y && RowSize() > 0 && y < Height()
    }

    /** Where pixel `(x, y)` starts: channel 0 of the pixel; its channels follow it inside the buffer. */
    function Offset(x: int, y: int): (i: int)
      reads this
      ensures Has(x, y) ==> 0 <= i < |data| && i + nChannels <= |data|
    {
      if Has(x, y) then
        OffsetBelow(x, y);
        x * nChannels + y * RowSize()
      else
        x * nChannels + y * RowSize()
    }

    lemma OffsetBelow(x: int, y: int)
      requires Has(x, y)
      ensures 0 <= x * nChannels + y * RowSize() && x * nChannels + y * RowSize() + nChannels <= |data|
      ensures x * nChannels + y * RowSize() < |data|
    {
      assert nChannels > 0;
      MulLeft(x + 1, width, nChannels);
      MulAdd(x, 1, nChannels);
      MulLeft(y + 1, Height(), RowSize());
      MulAdd(y, 1, RowSize());
    }

    /** `calc_idx`; `height()` is only reached, and so the row size must only be non-zero, when `y >= 0`. */
    function CalcIdx(x: int, y: int): (r: Option<nat>)
      reads this
      requires y >= 0 ==> RowSize() > 0
      ensures r.Some? <==> 0 <= x < width && 0 <= y < Height()
      ensures r.Some? ==> r.value == x * nChannels + y * RowSize() && r.value + nChannels <= |data|
    {
      if Has(x, y) then Some(Offset(x, y)) else None
    }

    /** Pixel `(x, y)` starts `n_channels` bytes per pixel before it in row-major order. */
    lemma OffsetScaled(x: int, y: int)
      ensures Offset(x, y) == (y * width + x) * nChannels
    {
      MulAdd(y * width, x, nChannels);
      assert y * (nChannels * width) == (y * width) * nChannels;
    }

    /** Distinct pixels start at distinct bytes. */
    lemma OffsetInjective(x: int, y: int, a: int, b: int)
      requires Has(x, y) && Has(a, b)
      ensures Offset(x, y) == Offset(a, b) <==> x == a && y == b
    {
      OffsetScaled(x, y);
      OffsetScaled(a, b);
      IndexInjective(width, Height(), x, y, a, b);
      var i, j := y * width + x, b * width + a;
      assert nChannels > 0;
      if i < j {
        MulLeft(i + 1, j, nChannels);
        MulAdd(i, 1, nChannels);
      } else if j < i {
        MulLeft(j + 1, i, nChannels);
        MulAdd(j, 1, nChannels);
      }
    }

    /** `get_pixel`: channel 0 of the pixel, or `None` outside the grid. */
    function GetPixel(x: int, y: int): (r: Option<byte>)
      reads this
      requires y >= 0 ==> RowSize() > 0
      ensures r.Some? <==> Has(x, y)
      ensures r.Some? ==> r.value == data[Offset(x, y)]
    {
      match CalcIdx(x, y)
      case None => None
      case Some(i) => Some(data[i])
    }

    /** `set_pixel`: overwrite channel 0 of an in-bounds pixel; outside the grid, do nothing. */
    method SetPixel(x: int, y: int, v: byte)
      requires y >= 0 ==> RowSize() > 0
      modifies this
      ensures |data| == |old(data)|
      ensures data == if Has(x, y) then old(data)[Offset(x, y) := v] else old(data)
      ensures Has(x, y) ==> GetPixel(x, y) == Some(v)
      ensures forall a, b :: RowSize() > 0 && (a != x || b != y) ==> GetPixel(a, b) == old(GetPixel(a, b))
    {
      var idx := CalcIdx(x, y);
      if idx.Some? {
        data := data[idx.value := v];
      }
      forall a, b | RowSize() > 0 && (a != x || b != y)
        ensures GetPixel(a, b) == old(GetPixel(a, b))
      {
        if Has(a, b) && Has(x, y) {
          OffsetInjective(x, y, a, b);
        }
      }
    }

    /** A one-channel image is the row-major grid of its whole rows, read through `Images.At`. */
    lemma SurfaceAgrees(x: int, y: int)
      requires nChannels == 1 && width > 0
      ensures width * Height() <= |data|
      ensures GetPixel(x, y) == At(data[..width * Height()], width, Height(), x, y)
    {
      if InBounds(width, Height(), x, y) {
        assert Index(width, Height(), x, y) == Offset(x, y);
      }
    }

    /** Byte `p` starts some pixel. */
    ghost predicate IsPixel(p: int)
      reads this
    {
      exists a, b :: Has(a, b) && Offset(a, b) == p
    }

    /**
     * Compared with `d0`, the buffer has `0xff` at the start of exactly the
     * pixels `Drawn(bbox, i, j, e, _, _)` and every other byte as before.
     */
    ghost predicate PaintedFrom(d0: seq<byte>, bbox: Rect, i: int, j: int, e: Option<Pos>)
      reads this
    {
      |data| == |d0| &&
      (forall a, b :: Has(a, b) ==>
        data[Offset(a, b)] == if Drawn(bbox, i, j, e, a, b) then 0xff else d0[Offset(a, b)]) &&
      (forall p :: 0 <= p < |data| && !IsPixel(p) ==> data[p] == d0[p])
    }

    /** Painting `0xff` at `(x, y)` adds that pixel to what is painted. */
    lemma PaintStep(d0: seq<byte>, d1: seq<byte>, bbox: Rect, i: int, j: int, e: Option<Pos>,
                    i': int, j': int, e': Option<Pos>, x: int, y: int)
      requires |d0| == |data| && |d1| == |data| && RowSize() > 0
      requires forall a, b :: Has(a, b) ==>
        d1[Offset(a, b)] == if Drawn(bbox, i, j, e, a, b) then 0xff else d0[Offset(a, b)]
      requires forall p :: 0 <= p < |d1| && !IsPixel(p) ==> d1[p] == d0[p]
      requires data == if Has(x, y) then d1[Offset(x, y) := 0xff] else d1
      requires forall a, b :: Drawn(bbox, i', j', e', a, b) <==> Drawn(bbox, i, j, e, a, b) || (a == x && b == y)
      ensures PaintedFrom(d0, bbox, i', j', e')
    {
      forall a, b | Has(a, b)
        ensures data[Offset(a, b)] == if Drawn(bbox, i', j', e', a, b) then 0xff else d0[Offset(a, b)]
      {
        if Has(x, y) {
          OffsetInjective(x, y, a, b);
        }
      }
    }
  }

  /** The pixels drawn so far: rows `top..i` of the side columns, columns `left..j` of the end rows, and `e`. */
  predicate Drawn(bbox: Rect, i: int, j: int, e: Option<Pos>, a: int, b: int)
  {
    SideDrawn(bbox, i, a, b) || EdgeDrawn(bbox, j, a, b) || e == Some(Pos(a, b))
  }

  /** Where channel `j` of pixel `(x, y)` goes when every pixel keeps `k` channels of a `w`-wide image. */
  function Slot(w: nat, k: nat, x: int, y: int, j: int): (r: int)
  {
    (y * w + x) * k + j
  }

  /** `(y', x', j')` comes before `(y, x, j)` in the order the loops of `sample_img_channels` visit them. */
  predicate Earlier(y': int, x': int, j': int, y: int, x: int, j: int)
  {
    y' < y || (y' == y && (x' < x || (x' == x && j' < j)))
  }

  /**
   * `out` holds exactly the samples visited before `(y, x, j)`: channel
   * `ch[j']` of pixel `(x', y')` of the `nc`-channel, `w`-wide buffer `src`,
   * each at its slot.
   */
  ghost predicate SampledTo(out: seq<byte>, src: seq<byte>, nc: nat, w: nat, ch: seq<nat>, y: int, x: int, j: int)
  {
    |out| == Slot(w, |ch|, x, y, j) &&
    forall y', x', j' :: 0 <= y' && 0 <= x' < w && 0 <= j' < |ch| && Earlier(y', x', j', y, x, j) ==>
      0 <= Slot(w, |ch|, x', y', j') < |out| && 0 <= y' * (nc * w) + x' * nc + ch[j'] < |src| &&
      out[Slot(w, |ch|, x', y', j')] == src[y' * (nc * w) + x' * nc + ch[j']]
  }

  /** Pushing the sample for `(y, x, j)` moves past it. */
  lemma SampleStep(out: seq<byte>, src: seq<byte>, nc: nat, w: nat, ch: seq<nat>, y: int, x: int, j: int)
    requires SampledTo(out, src, nc, w, ch, y, x, j)
    requires 0 <= y && 0 <= x < w && 0 <= j < |ch|
    requires 0 <= y * (nc * w) + x * nc + ch[j] < |src|
    ensures SampledTo(out + [src[y * (nc * w) + x * nc + ch[j]]], src, nc, w, ch, y, x, j + 1)
  {
    var out' := out + [src[y * (nc * w) + x * nc + ch[j]]];
    forall y', x', j' | 0 <= y' && 0 <= x' < w && 0 <= j' < |ch| && Earlier(y', x', j', y, x, j + 1)
      ensures 0 <= Slot(w, |ch|, x', y', j') < |out'| && 0 <= y' * (nc * w) + x' * nc + ch[j'] < |src| &&
        out'[Slot(w, |ch|, x', y', j')] == src[y' * (nc * w) + x' * nc + ch[j']]
    {
      if !Earlier(y', x', j', y, x, j) {
        assert y' == y && x' == x && j' == j;
      }
    }
  }

  /** After the last channel of a pixel comes the first channel of the next one. */
  lemma SampleNextPixel(out: seq<byte>, src: seq<byte>, nc: nat, w: nat, ch: seq<nat>, y: int, x: int)
    requires SampledTo(out, src, nc, w, ch, y, x, |ch|)
    ensures SampledTo(out, src, nc, w, ch, y, x + 1, 0)
  {
    MulAdd(y * w + x, 1, |ch|);
    assert Slot(w, |ch|, x, y, |ch|) == Slot(w, |ch|, x + 1, y, 0);
  }

  /** After the last pixel of a row comes the first pixel of the next one. */
  lemma SampleNextRow(out: seq<byte>, src: seq<byte>, nc: nat, w: nat, ch: seq<nat>, y: int)
    requires SampledTo(out, src, nc, w, ch, y, w, 0)
    ensures SampledTo(out, src, nc, w, ch, y + 1, 0, 0)
  {
    MulAdd(y, 1, w);
    assert (y + 1) * w + 0 == y * w + w;
    assert Slot(w, |ch|, w, y, 0) == Slot(w, |ch|, 0, y + 1, 0);
  }

  /** Chunk `x` of row `y` is pixel `(x, y)` of the buffer the row was cut from. */
  lemma PixelSlice(src: seq<byte>, row: seq<byte>, nc: nat, w: nat, y: int, x: int) returns (pixel: seq<byte>)
    requires 0 <= y && 0 <= x < w && |row| == nc * w && (y + 1) * (nc * w) <= |src|
    requires forall i :: 0 <= i < |row| ==> row[i] == src[y * (nc * w) + i]
    ensures 0 <= x * nc && x * nc + nc <= |row| && pixel == row[x * nc..x * nc + nc]
    ensures 0 <= y * (nc * w) + x * nc && y * (nc * w) + x * nc + nc <= |src|
    ensures forall c :: 0 <= c < nc ==> pixel[c] == src[y * (nc * w) + x * nc + c]
  {
    MulLeft(x + 1, w, nc);
    MulAdd(x, 1, nc);
    MulAdd(y, 1, nc * w);
    assert 0 <= y * (nc * w);
    pixel := row[x * nc..x * nc + nc];
    forall c | 0 <= c < nc
      ensures pixel[c] == src[y * (nc * w) + x * nc + c]
    {
      assert pixel[c] == row[x * nc + c];
    }
  }

  /** The innermost loop of `sample_img_channels`: push the listed channels of pixel `(x, y)`. */
  method PushChannels(pixel: seq<byte>, channels: seq<nat>, data: seq<byte>,
                      ghost src: seq<byte>, ghost nc: nat, ghost w: nat, ghost y: int, ghost x: int) returns (out: seq<byte>)
    requires 0 <= y && 0 <= x < w && |pixel| == nc
    requires forall j :: 0 <= j < |channels| ==> channels[j] < nc
    requires 0 <= y * (nc * w) + x * nc && y * (nc * w) + x * nc + nc <= |src|
    requires forall c :: 0 <= c < nc ==> pixel[c] == src[y * (nc * w) + x * nc + c]
    requires SampledTo(data, src, nc, w, channels, y, x, 0)
    ensures SampledTo(out, src, nc, w, channels, y, x, |channels|)
  {
    out := data;
    var j := 0;
    while j < |channels|
      invariant 0 <= j <= |channels|
      invariant SampledTo(out, src, nc, w, channels, y, x, j)
      decreases |channels| - j
    {
      SampleStep(out, src, nc, w, channels, y, x, j);
      out := out + [pixel[channels[j]]];
      j := j + 1;
    }
  }

  /**
   * `sample_img_channels`: a new image of the same width whose pixels keep
   * only the listed channels, in the listed order.  It divides by the row
   * size, and reads `pixel[channel]`, which must exist as soon as there is
   * a pixel.
   */
  method SampleImgChannels(image: MinimalImage, channels: seq<nat>) returns (out: MinimalImage)
    requires image.RowSize() > 0
    requires image.Height() > 0 ==> forall j :: 0 <= j < |channels| ==> channels[j] < image.nChannels
    ensures fresh(out)
    ensures out.width == image.width && out.nChannels == |channels|
    ensures |out.data| == image.Height() * image.width * |channels|
    ensures forall y, x, j :: 0 <= y < image.Height() && 0 <= x < image.width && 0 <= j < |channels| ==>
      0 <= Slot(image.width, |channels|, x, y, j) < |out.data| &&
      out.data[Slot(image.width, |channels|, x, y, j)] == image.data[image.Offset(x, y) + channels[j]]
  {
    var nc, w := image.nChannels, image.width;
    var h := image.Height();
    var data: seq<byte> := [];
    var y := 0;
    while y < h
      invariant 0 <= y <= h
      invariant SampledTo(data, image.data, nc, w, channels, y, 0, 0)
      decreases h - y
    {
      MulLeft(y + 1, h, image.RowSize());
      var row := image.Row(y);
      DivExact(w, nc);
      var x := 0;
      while x < |row| / nc
        invariant 0 <= x <= w
        invariant SampledTo(data, image.data, nc, w, channels, y, x, 0)
        decreases w - x
      {
        ghost var chunk := PixelSlice(image.data, row, nc, w, y, x);
        var pixel := row[x * nc..x * nc + nc];
        data := PushChannels(pixel, channels, data, image.data, nc, w, y, x);
        SampleNextPixel(data, image.data, nc, w, channels, y, x);
        x := x + 1;
      }
      SampleNextRow(data, image.data, nc, w, channels, y);
      y := y + 1;
    }
    out := new MinimalImage(|channels|, w, data);
    forall y', x', j' | 0 <= y' < h && 0 <= x' < w && 0 <= j' < |channels|
      ensures 0 <= Slot(w, |channels|, x', y', j') < |data| &&
        data[Slot(w, |channels|, x', y', j')] == image.data[image.Offset(x', y') + channels[j']]
    {
      assert Earlier(y', x', j', h, 0, 0);
    }
  }

  /** Of the left and right columns, the rows `top..i` are drawn. */
  predicate SideDrawn(bbox: Rect, i: int, a: int, b: int)
  {
    bbox.top <= b < i && (a == bbox.left || a == bbox.right)
  }

  /** Of the top and bottom rows, the columns `left..j` are drawn. */
  predicate EdgeDrawn(bbox: Rect, j: int, a: int, b: int)
  {
    bbox.left <= a < j && (b == bbox.top || b == bbox.bottom)
  }

  /**
   * The outline `draw_bbox` draws: columns `left` and `right` over rows
   * `top..bottom`, rows `top` and `bottom` over columns `left..right`, with
   * `bottom` and `right` excluded as range ends.
   */
  predicate OnOutline(bbox: Rect, a: int, b: int)
  {
    SideDrawn(bbox, bbox.bottom, a, b) || EdgeDrawn(bbox, bbox.right, a, b)
  }

  /** `draw_bbox` panics exactly when some `set_pixel` call asks for the height of a zero-size row. */
  predicate DrawSafe(rowSize: nat, bbox: Rect)
  {
    rowSize > 0 ||
    ((bbox.bottom <= 0 || bbox.bottom <= bbox.top) && (bbox.right <= bbox.left || (bbox.top < 0 && bbox.bottom < 0)))
  }

  /** The first loop of `draw_bbox`: columns `left` and `right` over rows `top..bottom`. */
  method DrawSides(image: MinimalImage, bbox: Rect)
    requires image.RowSize() > 0 || bbox.bottom <= 0 || bbox.bottom <= bbox.top
    modifies image
    ensures image.RowSize() > 0 ==> image.PaintedFrom(old(image.data), bbox, bbox.bottom, bbox.left, None)
    ensures image.RowSize() == 0 ==> image.data == old(image.data)
  {
    ghost var d0 := image.data;
    var i := bbox.top;
    while i < bbox.bottom
      invariant bbox.top <= i && (i <= bbox.bottom || i == bbox.top)
      invariant image.RowSize() > 0 ==> image.PaintedFrom(d0, bbox, i, bbox.left, None)
      invariant image.RowSize() == 0 ==> image.data == d0
      decreases bbox.bottom - i
    {
      ghost var d1 := image.data;
      image.SetPixel(bbox.left, i, 0xff);
      if image.RowSize() > 0 {
        image.PaintStep(d0, d1, bbox, i, bbox.left, None, i, bbox.left, Some(Pos(bbox.left, i)), bbox.left, i);
      }
      ghost var d2 := image.data;
      image.SetPixel(bbox.right, i, 0xff);
      if image.RowSize() > 0 {
        image.PaintStep(d0, d2, bbox, i, bbox.left, Some(Pos(bbox.left, i)), i + 1, bbox.left, None, bbox.right, i);
      }
      i := i + 1;
    }
    assert forall a, b :: Drawn(bbox, i, bbox.left, None, a, b) <==> Drawn(bbox, bbox.bottom, bbox.left, None, a, b);
  }

  /** The second loop of `draw_bbox`: rows `top` and `bottom` over columns `left..right`. */
  method DrawEnds(image: MinimalImage, bbox: Rect, ghost d0: seq<byte>)
    requires image.RowSize() > 0 || bbox.right <= bbox.left || (bbox.top < 0 && bbox.bottom < 0)
    requires image.RowSize() > 0 ==> image.PaintedFrom(d0, bbox, bbox.bottom, bbox.left, None)
    modifies image
    ensures image.RowSize() > 0 ==> image.PaintedFrom(d0, bbox, bbox.bottom, bbox.right, None)
    ensures image.RowSize() == 0 ==> image.data == old(image.data)
  {
    var j := bbox.left;
    while j < bbox.right
      invariant bbox.left <= j && (j <= bbox.right || j == bbox.left)
      invariant image.RowSize() > 0 ==> image.PaintedFrom(d0, bbox, bbox.bottom, j, None)
      invariant image.RowSize() == 0 ==> image.data == old(image.data)
      decreases bbox.right - j
    {
      ghost var d1 := image.data;
      image.SetPixel(j, bbox.top, 0xff);
      if image.RowSize() > 0 {
        image.PaintStep(d0, d1, bbox, bbox.bottom, j, None, bbox.bottom, j, Some(Pos(j, bbox.top)), j, bbox.top);
      }
      ghost var d2 := image.data;
      image.SetPixel(j, bbox.bottom, 0xff);
      if image.RowSize() > 0 {
        image.PaintStep(d0, d2, bbox, bbox.bottom, j, Some(Pos(j, bbox.top)), bbox.bottom, j + 1, None, j, bbox.bottom);
      }
      j := j + 1;
    }
    assert forall a, b :: Drawn(bbox, bbox.bottom, j, None, a, b) <==> Drawn(bbox, bbox.bottom, bbox.right, None, a, b);
  }

  /**
   * `draw_bbox` (examples/semantic.rs): paint the outline of `bbox` with
   * `0xff`, leaving every other pixel and every byte past channel 0 alone.
   */
  method DrawBbox(image: MinimalImage, bbox: Rect)
    requires DrawSafe(image.RowSize(), bbox)
    modifies image
    ensures |image.data| == |old(image.data)|
    ensures forall a, b :: image.Has(a, b) ==>
      image.data[image.Offset(a, b)] == if OnOutline(bbox, a, b) then 0xff else old(image.data)[image.Offset(a, b)]
    ensures forall p :: 0 <= p < |image.data| && !image.IsPixel(p) ==> image.data[p] == old(image.data)[p]
    ensures bbox.left == bbox.right && bbox.top == bbox.bottom ==> image.data == old(image.data)
  {
    ghost var d0 := image.data;
    DrawSides(image, bbox);
    DrawEnds(image, bbox, d0);
    if image.RowSize() > 0 {
      assert image.PaintedFrom(d0, bbox, bbox.bottom, bbox.right, None);
      if bbox.left == bbox.right && bbox.top == bbox.bottom {
        forall p | 0 <= p < |image.data|
          ensures image.data[p] == d0[p]
        {
          if image.IsPixel(p) {
            var a, b :| image.Has(a, b) && image.Offset(a, b) == p;
          }
        }
      }
    }
  }
}
