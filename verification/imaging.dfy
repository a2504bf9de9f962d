/**
 * The pixel buffer of ToImage: a quiet zone of at least four modules around
 * the symbol, every module drawn as a square of moduleSize x moduleSize
 * pixels, row-major in one array whose row stride is the image dimension.
 * The bitmap built from the buffer, its resampling and its encoding are not
 * part of this model.
 */
module Imaging {
  import opened Arith
  import opened ModuleBlocks
  import SymbolTemplates

  /** A colour as FromArgb builds it. */
  datatype Color = Color(alpha: int, red: int, green: int, blue: int)

  /** The value every element of a freshly allocated colour array holds. */
  const Unset: Color := Color(0, 0, 0, 0)

  /** The narrowest quiet zone, in modules. */
  const MinimumBorder: int := 4

  // ------------------------------------------------------------------
  // Geometry
  // ------------------------------------------------------------------

  /**
   * The symbol's width in modules, the clamped border in modules, the pixels
   * per module, and the border and image sizes in pixels.
   */
  datatype Layout = Layout(width: int, border: int, moduleSize: int, borderSize: int, dimensions: int)

  /** Where the right and bottom quiet zones begin. */
  function InnerBorder(l: Layout): int
  {
    l.dimensions - l.borderSize
  }

  /** The border and image sizes are the module counts times the module size. */
  predicate Proportional(l: Layout)
  {
    l.borderSize == l.border * l.moduleSize && l.dimensions == (l.width + 2 * l.border) * l.moduleSize
  }

  /** A border below four modules is raised to four. */
  function ClampBorder(borderWidth: int): (b: int)
    ensures b >= MinimumBorder
    ensures borderWidth >= MinimumBorder ==> b == borderWidth
    ensures borderWidth < MinimumBorder ==> b == MinimumBorder
  {
    if borderWidth < MinimumBorder then MinimumBorder else borderWidth
  }

  lemma DivBounds(a: int, b: int)
    requires a >= 0 && b > 0
    ensures 0 <= (a / b) * b <= a < (a / b) * b + b
  {
  }

  /**
   * The module size is the requested image width divided, truncating, by the
   * total width in modules: for a non-negative request the image is the
   * largest whole multiple of the total width that is no wider than asked.
   */
  function ImageLayout(width: int, imageWidth: int, borderWidth: int): (l: Layout)
    requires width > 0
    ensures l.width == width && l.border == ClampBorder(borderWidth) && Proportional(l)
    ensures imageWidth >= 0 ==>
      0 <= l.moduleSize && 0 <= l.dimensions <= imageWidth < l.dimensions + width + 2 * l.border
    ensures imageWidth < 0 ==> l.moduleSize <= 0
  {
    var border := ClampBorder(borderWidth);
    var total := width + 2 * border;
    var size := TruncDiv(imageWidth, total);
    if imageWidth >= 0 then
      DivBounds(imageWidth, total);
      Layout(width, border, size, border * size, total * size)
    else
      Layout(width, border, size, border * size, total * size)
  }

  /**
   * What the drawing needs of a layout: with a positive module size the
   * border, the symbol and the border again add up to the image; otherwise
   * every size is zero or negative.
   */
  predicate Geometry(l: Layout)
  {
    && l.width > 0 && l.border >= MinimumBorder
    && (l.moduleSize > 0 ==>
         && 0 < l.borderSize && InnerBorder(l) == l.borderSize + l.width * l.moduleSize
         && l.borderSize < InnerBorder(l) < l.dimensions)
    && (l.moduleSize <= 0 ==> l.borderSize <= 0 && InnerBorder(l) <= 0 && l.dimensions <= 0)
  }

  lemma GeometryOf(l: Layout)
    requires Proportional(l) && l.width > 0 && l.border >= MinimumBorder
    ensures Geometry(l)
  {
    var ms := l.moduleSize;
    assert l.dimensions == l.width * ms + 2 * l.borderSize;
    if ms > 0 {
      MulMono(1, l.border, ms);
      MulMono(1, l.width, ms);
    } else {
      MulMono(0, l.border, -ms);
      MulMono(0, l.width + l.border, -ms);
    }
  }

  /** A positive module size. */
  predicate Drawable(l: Layout)
  {
    Geometry(l) && l.moduleSize > 0
  }

  /** The pixel (px, py) lies in the quiet zone. */
  predicate InBorder(l: Layout, px: int, py: int)
  {
    px < l.borderSize || px >= InnerBorder(l) || py < l.borderSize || py >= InnerBorder(l)
  }

  /** The module row (or column) a pixel coordinate inside the border falls in. */
  function ModuleOf(l: Layout, p: int): int
    requires l.moduleSize > 0
  {
    (p - l.borderSize) / l.moduleSize
  }

  /** A pixel inside the border falls in a module of the symbol. */
  lemma ModuleInRange(l: Layout, p: int)
    requires Drawable(l) && l.borderSize <= p < InnerBorder(l)
    ensures 0 <= ModuleOf(l, p) < l.width
  {
    var ms := l.moduleSize;
    assert InnerBorder(l) - l.borderSize == l.width * ms;
    if ModuleOf(l, p) >= l.width {
      MulMono(l.width, ModuleOf(l, p), ms);
      assert false;
    }
  }

  /**
   * The square of module (r, c) is exactly the pixels inside the border whose
   * module row is r and whose module column is c.
   */
  lemma BlockOfModule(l: Layout, v: int, r: int)
    requires Drawable(l) && v >= l.borderSize && r >= 0
    ensures r * l.moduleSize + l.borderSize <= v < r * l.moduleSize + l.borderSize + l.moduleSize
      <==> ModuleOf(l, v) == r
  {
    var ms, d := l.moduleSize, v - l.borderSize;
    if r * ms <= d < r * ms + ms {
      DivUnique(d, ms, r, d - r * ms);
    }
    if ModuleOf(l, v) == r {
      assert d == r * ms + d % ms;
    }
  }

  /**
   * The image ToImage describes: background in the quiet zone, and inside it
   * the colour of the module the pixel falls in.
   */
  function ImagePixel(g: Grid, l: Layout, background: Color, foreground: Color, px: int, py: int): Color
    requires Drawable(l) && IsGrid(g, l.width)
  {
    if InBorder(l, px, py) then background
    else
      ModuleInRange(l, px);
      ModuleInRange(l, py);
      if g[ModuleOf(l, py)][ModuleOf(l, px)].dark then foreground else background
  }

  // ------------------------------------------------------------------
  // FillRectangle
  // ------------------------------------------------------------------

  /** (px, py) lies in the width x height rectangle at (x, y). */
  predicate InRect(x: int, y: int, width: int, height: int, px: int, py: int)
  {
    x <= px < x + width && y <= py < y + height
  }

  /** A rectangle that stays inside a stride x stride buffer, or draws nothing. */
  predicate Fits(stride: int, x: int, y: int, width: int, height: int)
  {
    width <= 0 || height <= 0 || (0 <= x && x + width <= stride && 0 <= y && y + height <= stride)
  }

  /** Element k of a row-major buffer is pixel (k % stride, k / stride). */
  function Filled(pixels: seq<Color>, stride: int, x: int, y: int, width: int, height: int, color: Color): (r: seq<Color>)
    ensures |r| == |pixels|
  {
    seq(|pixels|, k requires 0 <= k < |pixels| =>
      if stride > 0 && InRect(x, y, width, height, k % stride, k / stride) then color else pixels[k])
  }

  /**
   * In a row-major buffer, the elements from stride * row + x on, width of
   * them, are the pixels of row `row` from column x on.
   */
  lemma RowSpan(stride: int, row: int, x: int, width: int, k: int)
    requires 0 <= x && 0 < width && x + width <= stride
    ensures stride * row + x <= k < stride * row + x + width <==> k / stride == row && x <= k % stride < x + width
  {
    if stride * row + x <= k < stride * row + x + width {
      DivUnique(k, stride, row, k - stride * row);
      ModUnique(k, stride, row, k - stride * row);
    }
  }

  /** A row of the buffer lies inside it. */
  lemma RowInside(stride: int, row: int, x: int, width: int)
    requires 0 <= x && 0 <= width && x + width <= stride && 0 <= row < stride
    ensures 0 <= stride * row + x && stride * row + x + width <= stride * stride
  {
    MulMono(0, row, stride);
    MulMono(row + 1, stride, stride);
  }

  /** The inner loop of FillRectangle: `width` consecutive elements from `start`. */
  method FillSpan(pixels: seq<Color>, start: int, width: int, color: Color) returns (r: seq<Color>)
    requires width <= 0 || (0 <= start && start + width <= |pixels|)
    ensures |r| == |pixels|
    ensures forall k :: 0 <= k < |r| ==> r[k] == if start <= k < start + width then color else pixels[k]
  {
    r := pixels;
    var endIndex := start + width;
    var xPos := start;
    while xPos < endIndex
      invariant |r| == |pixels|
      invariant start <= xPos && (width > 0 ==> xPos <= endIndex) && (width <= 0 ==> xPos == start)
      invariant forall k :: 0 <= k < |r| ==> r[k] == if start <= k < xPos then color else pixels[k]
    {
      r := r[xPos := color];
      xPos := xPos + 1;
    }
  }

  /**
   * FillRectangle: for each row of the rectangle, the elements from
   * stride * row + x on, width of them, get the colour.
   */
  method FillRectangle(pixels: seq<Color>, stride: int, x: int, y: int, width: int, height: int, color: Color)
    returns (r: seq<Color>)
    requires |pixels| == stride * stride && Fits(stride, x, y, width, height)
    ensures r == Filled(pixels, stride, x, y, width, height, color)
  {
    r := pixels;
    var maxY := y + height;
    var yPos := y;
    while yPos < maxY
      invariant |r| == |pixels|
      invariant height > 0 ==> y <= yPos <= maxY
      invariant height <= 0 ==> yPos == y
      invariant forall k :: 0 <= k < |r| ==>
        r[k] == if stride > 0 && InRect(x, y, width, yPos - y, k % stride, k / stride) then color else pixels[k]
    {
      var startIndex := stride * yPos + x;
      var before := r;
      if width > 0 {
        RowInside(stride, yPos, x, width);
      }
      r := FillSpan(r, startIndex, width, color);
      forall k | 0 <= k < |r|
        ensures r[k] == if stride > 0 && InRect(x, y, width, yPos + 1 - y, k % stride, k / stride) then color else pixels[k]
      {
        if width > 0 {
          RowSpan(stride, yPos, x, width, k);
        }
      }
      yPos := yPos + 1;
    }
    assert forall k :: 0 <= k < |r| ==> r[k] == Filled(pixels, stride, x, y, width, height, color)[k];
  }

  // ------------------------------------------------------------------
  // ToImage
  // ------------------------------------------------------------------

  /**
   * The buffer partway through the module loop: the quiet zone already
   * background, modules before (doneRow, doneCol) in row-major order drawn,
   * the rest still unset.
   */
  function Drawn(g: Grid, l: Layout, background: Color, foreground: Color, doneRow: int, doneCol: int, px: int, py: int): Color
    requires Drawable(l) && IsGrid(g, l.width)
  {
    if InBorder(l, px, py) then background
    else if ModuleOf(l, py) < doneRow || (ModuleOf(l, py) == doneRow && ModuleOf(l, px) < doneCol) then
      ImagePixel(g, l, background, foreground, px, py)
    else Unset
  }

  /** A rectangle of no width or no height changes nothing. */
  lemma FilledEmpty(pixels: seq<Color>, stride: int, x: int, y: int, width: int, height: int, color: Color)
    requires width <= 0 || height <= 0
    ensures Filled(pixels, stride, x, y, width, height, color) == pixels
  {
  }

  /** Every element of a d x d buffer is a pixel of it. */
  lemma PixelInside(k: int, d: int)
    requires 0 <= k < d * d && d > 0
    ensures 0 <= k % d < d && 0 <= k / d < d
  {
    DivBounds(k, d);
    if k / d >= d {
      MulMono(d, k / d, d);
      assert false;
    }
  }

  /** The top, left, right and bottom rectangles of DrawBorder together are the quiet zone. */
  lemma BorderRectangles(l: Layout, px: int, py: int)
    requires Drawable(l) && 0 <= px < l.dimensions && 0 <= py < l.dimensions
    ensures var bs, dims, inner := l.borderSize, l.dimensions, InnerBorder(l);
      InBorder(l, px, py) <==>
        InRect(0, 0, dims, bs, px, py) || InRect(0, bs, bs, inner, px, py) ||
        InRect(inner, bs, bs, inner, px, py) || InRect(bs, inner, inner - bs, bs, px, py)
  {
  }

  /**
   * The four border rectangles, top, left, right and bottom: with a positive
   * module size they paint exactly the quiet zone.
   */
  method DrawBorder(l: Layout, start: seq<Color>, background: Color) returns (pixels: seq<Color>)
    requires Geometry(l) && |start| == l.dimensions * l.dimensions
    ensures l.moduleSize <= 0 ==> pixels == start
    ensures l.moduleSize > 0 ==> |pixels| == |start| && forall k :: 0 <= k < |pixels| ==>
      pixels[k] == if InBorder(l, k % l.dimensions, k / l.dimensions) then background else start[k]
  {
    var bs, dims, inner := l.borderSize, l.dimensions, InnerBorder(l);
    var top := FillRectangle(start, dims, 0, 0, dims, bs, background);
    var left := FillRectangle(top, dims, 0, bs, bs, inner, background);
    var right := FillRectangle(left, dims, inner, bs, bs, inner, background);
    pixels := FillRectangle(right, dims, bs, inner, inner - bs, bs, background);
    if l.moduleSize <= 0 {
      FilledEmpty(start, dims, 0, 0, dims, bs, background);
      FilledEmpty(top, dims, 0, bs, bs, inner, background);
      FilledEmpty(left, dims, inner, bs, bs, inner, background);
      FilledEmpty(right, dims, bs, inner, inner - bs, bs, background);
    } else {
      forall k | 0 <= k < |pixels|
        ensures pixels[k] == if InBorder(l, k % dims, k / dims) then background else start[k]
      {
        PixelInside(k, dims);
        BorderRectangles(l, k % dims, k / dims);
      }
    }
  }

  /** The square of module (r, c) lies inside the border. */
  lemma BlockInside(l: Layout, r: int)
    requires Drawable(l) && 0 <= r < l.width
    ensures 0 <= r * l.moduleSize && r * l.moduleSize + l.moduleSize <= l.width * l.moduleSize
  {
    MulMono(0, r, l.moduleSize);
    MulMono(r + 1, l.width, l.moduleSize);
  }

  /** Filling the square of module (y, x) advances the drawing by that one module. */
  lemma ModuleStep(g: Grid, l: Layout, background: Color, foreground: Color, y: int, x: int, px: int, py: int)
    requires Drawable(l) && IsGrid(g, l.width) && 0 <= y < l.width && 0 <= x < l.width
    ensures var color := if g[y][x].dark then foreground else background;
      var ms, bs := l.moduleSize, l.borderSize;
      (if InRect(x * ms + bs, y * ms + bs, ms, ms, px, py) then color
       else Drawn(g, l, background, foreground, y, x, px, py))
      == Drawn(g, l, background, foreground, y, x + 1, px, py)
  {
    BlockInside(l, x);
    BlockInside(l, y);
    if !InBorder(l, px, py) {
      BlockOfModule(l, px, x);
      BlockOfModule(l, py, y);
    }
  }

  /** The end of one module row is the start of the next. */
  lemma RowDone(g: Grid, l: Layout, background: Color, foreground: Color, y: int, px: int, py: int)
    requires Drawable(l) && IsGrid(g, l.width)
    ensures Drawn(g, l, background, foreground, y, l.width, px, py) == Drawn(g, l, background, foreground, y + 1, 0, px, py)
  {
    if !InBorder(l, px, py) {
      ModuleInRange(l, px);
    }
  }

  /** Before the module loop only the quiet zone is drawn; after it, the whole image. */
  lemma DrawnEnds(g: Grid, l: Layout, background: Color, foreground: Color, px: int, py: int)
    requires Drawable(l) && IsGrid(g, l.width)
    ensures Drawn(g, l, background, foreground, 0, 0, px, py) == if InBorder(l, px, py) then background else Unset
    ensures Drawn(g, l, background, foreground, l.width, 0, px, py) == ImagePixel(g, l, background, foreground, px, py)
  {
    if !InBorder(l, px, py) {
      ModuleInRange(l, px);
      ModuleInRange(l, py);
    }
  }

  /** Every element of the buffer shows the drawing up to (doneRow, doneCol). */
  predicate Shows(g: Grid, l: Layout, background: Color, foreground: Color, pixels: seq<Color>, doneRow: int, doneCol: int)
    requires Drawable(l) && IsGrid(g, l.width)
  {
    forall k :: 0 <= k < |pixels| ==>
      pixels[k] == Drawn(g, l, background, foreground, doneRow, doneCol, k % l.dimensions, k / l.dimensions)
  }

  /** The inner loop of ToImage: the modules of row y, left to right. */
  method DrawRow(g: Grid, l: Layout, start: seq<Color>, y: int, background: Color, foreground: Color)
    returns (pixels: seq<Color>)
    requires Geometry(l) && IsGrid(g, l.width) && 0 <= y < l.width && |start| == l.dimensions * l.dimensions
    requires l.moduleSize > 0 ==> Shows(g, l, background, foreground, start, y, 0)
    ensures |pixels| == |start|
    ensures l.moduleSize <= 0 ==> pixels == start
    ensures l.moduleSize > 0 ==> Shows(g, l, background, foreground, pixels, y, l.width)
  {
    var ms, bs, dims := l.moduleSize, l.borderSize, l.dimensions;
    pixels := start;
    var x := 0;
    while x < l.width
      invariant 0 <= x <= l.width && |pixels| == |start|
      invariant ms <= 0 ==> pixels == start
      invariant ms > 0 ==> Shows(g, l, background, foreground, pixels, y, x)
    {
      var color := if g[y][x].dark then foreground else background;
      var before := pixels;
      if ms > 0 {
        BlockInside(l, x);
        BlockInside(l, y);
      }
      pixels := FillRectangle(pixels, dims, x * ms + bs, y * ms + bs, ms, ms, color);
      if ms > 0 {
        forall k | 0 <= k < |pixels|
          ensures pixels[k] == Drawn(g, l, background, foreground, y, x + 1, k % dims, k / dims)
        {
          ModuleStep(g, l, background, foreground, y, x, k % dims, k / dims);
        }
      } else {
        FilledEmpty(before, dims, x * ms + bs, y * ms + bs, ms, ms, color);
      }
      x := x + 1;
    }
  }

  /**
   * The module loop: row y, column x, the square of module (y, x) in its
   * colour. With a positive module size, after it every pixel shows the image.
   */
  method DrawModules(g: Grid, l: Layout, start: seq<Color>, background: Color, foreground: Color)
    returns (pixels: seq<Color>)
    requires Geometry(l) && IsGrid(g, l.width) && |start| == l.dimensions * l.dimensions
    requires l.moduleSize > 0 ==> Shows(g, l, background, foreground, start, 0, 0)
    ensures |pixels| == |start|
    ensures l.moduleSize <= 0 ==> pixels == start
    ensures l.moduleSize > 0 ==> Shows(g, l, background, foreground, pixels, l.width, 0)
  {
    var dims := l.dimensions;
    pixels := start;
    var y := 0;
    while y < l.width
      invariant 0 <= y <= l.width && |pixels| == |start|
      invariant l.moduleSize <= 0 ==> pixels == start
      invariant l.moduleSize > 0 ==> Shows(g, l, background, foreground, pixels, y, 0)
    {
      pixels := DrawRow(g, l, pixels, y, background, foreground);
      if l.moduleSize > 0 {
        forall k | 0 <= k < |pixels|
          ensures pixels[k] == Drawn(g, l, background, foreground, y + 1, 0, k % dims, k / dims)
        {
          RowDone(g, l, background, foreground, y, k % dims, k / dims);
        }
      }
      y := y + 1;
    }
  }

  /**
   * ToImage up to the colour buffer: a dims x dims array, where dims is the
   * total width in modules times the module size; with a positive module
   * size it holds the image, and otherwise every rectangle is empty and the
   * array keeps its unset colour.
   */
  method ToImage(t: SymbolTemplates.Template, imageWidth: int, borderWidth: int, background: Color, foreground: Color)
    returns (pixels: seq<Color>, l: Layout)
    requires SymbolTemplates.Valid(t)
    ensures l == ImageLayout(t.width, imageWidth, borderWidth) && Geometry(l)
    ensures |pixels| == l.dimensions * l.dimensions
    ensures l.moduleSize > 0 ==> l.dimensions > 0 && forall k :: 0 <= k < |pixels| ==>
      pixels[k] == ImagePixel(t.modules, l, background, foreground, k % l.dimensions, k / l.dimensions)
    ensures l.moduleSize <= 0 ==> forall k :: 0 <= k < |pixels| ==> pixels[k] == Unset
  {
    l := ImageLayout(t.width, imageWidth, borderWidth);
    var dims := l.dimensions;
    GeometryOf(l);
    var blank := seq(dims * dims, _ => Unset);
    var framed := DrawBorder(l, blank, background);
    if l.moduleSize > 0 {
      forall k | 0 <= k < |framed|
        ensures framed[k] == Drawn(t.modules, l, background, foreground, 0, 0, k % dims, k / dims)
      {
        DrawnEnds(t.modules, l, background, foreground, k % dims, k / dims);
      }
    }
    pixels := DrawModules(t.modules, l, framed, background, foreground);
    if l.moduleSize > 0 {
      forall k | 0 <= k < |pixels|
        ensures pixels[k] == ImagePixel(t.modules, l, background, foreground, k % dims, k / dims)
      {
        DrawnEnds(t.modules, l, background, foreground, k % dims, k / dims);
      }
    }
  }
}
