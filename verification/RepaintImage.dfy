/**
 xmag_multivis.c: repaint_image fills one rectangle per run of equal pixels and changes the
 graphics context only when it must; the picture is the one that filling every magnified
 pixel separately makes.
 */
module RepaintImage {
  import opened Arith

  type Pixel = nat

  datatype Image = Image(width: nat, height: nat, pixel: (int, int) -> Pixel) {
    predicate Has(column: int, row: int) { 0 <= column < width && 0 <= row < height }

    /** XGetPixel, which is asked for no other points. */
    function Get(column: int, row: int): Pixel
      requires Has(column, row)
    {
      pixel(column, row)
    }
  }

  datatype Expose = Expose(x: nat, y: nat, width: nat, height: nat)

  type Canvas = (int, int) -> Pixel

  /** The cells, in image columns and rows, that a repaint goes over. */
  datatype Cells = Cells(left: int, right: int, top: int, bottom: int) {
    predicate Has(column: int, row: int) { left <= column <= right && top <= row <= bottom }
  }

  function Least(a: int, b: int): int { if a < b then a else b }

  /** The first cell along one axis, where the exposed part begins at `at`. */
  function First(at: nat, m: nat): (k: int)
    requires m > 0
    ensures k >= 0
  {
    at / m
  }

  /** The last one, clipped to the `limit` cells there are. */
  function Last(at: nat, extent: nat, m: nat, limit: nat): (k: int)
    requires m > 0
    ensures k < limit
  {
    Least(First(at, m) + (at + extent + m - 1) / m - 1, limit - 1)
  }

  function Region(image: Image, ev: Expose, m: nat): Cells
    requires m > 0
  {
    Cells(First(ev.x, m), Last(ev.x, ev.width, m, image.width), First(ev.y, m), Last(ev.y, ev.height, m, image.height))
  }

  /** Every cell gone over is a pixel of the image. */
  lemma RegionInImage(image: Image, ev: Expose, m: nat, column: int, row: int)
    requires m > 0 && Region(image, ev, m).Has(column, row)
    ensures image.Has(column, row)
  {
  }

  /** The magnified square of a cell meets the exposed rectangle. */
  predicate Touches(ev: Expose, m: nat, column: int, row: int) {
    column * m < ev.x + ev.width && ev.x < (column + 1) * m && row * m < ev.y + ev.height && ev.y < (row + 1) * m
  }

  lemma SpanCovers(x: nat, w: nat, m: nat, k: int)
    requires m > 0 && k * m < x + w && x < (k + 1) * m
    ensures x / m <= k <= x / m + (x + w + m - 1) / m - 1
  {
    var q, r := x / m, x % m;
    assert x == q * m + r;
    if k < q { MulLe(k + 1, q, m); }
    var n := x + w + m - 1;
    var u, v := n / m, n % m;
    assert n == u * m + v;
    if k >= u { MulLe(u, k, m); }
  }

  /** Every cell of the image that the expose rectangle touches is gone over. */
  lemma AllTouchedCovered(image: Image, ev: Expose, m: nat, column: int, row: int)
    requires m > 0 && 0 <= column < image.width && 0 <= row < image.height && Touches(ev, m, column, row)
    ensures Region(image, ev, m).Has(column, row)
  {
    SpanCovers(ev.x, ev.width, m, column);
    SpanCovers(ev.y, ev.height, m, row);
  }

  /** The picture: what a point of the window shows once each cell of `cells` has been filled on its own. */
  function Picture(before: Canvas, image: Image, cells: Cells, m: nat): Canvas
    requires m > 0
  {
    (x: int, y: int) => if cells.Has(x / m, y / m) then image.pixel(x / m, y / m) else before(x, y)
  }

  /** Said with the numbers of the expose event: from the cell it begins in, as many as its end divided by `m` and rounded up, and none beyond the image. */
  lemma PictureIs(before: Canvas, image: Image, ev: Expose, m: nat, x: int, y: int)
    requires m > 0
    ensures var i, j := x / m, y / m;
            Picture(before, image, Region(image, ev, m), m)(x, y) ==
            if && ev.x / m <= i < ev.x / m + (ev.x + ev.width + m - 1) / m && i < image.width
               && ev.y / m <= j < ev.y / m + (ev.y + ev.height + m - 1) / m && j < image.height
            then image.pixel(i, j) else before(x, y)
  {
  }

  /** Every point of the cells shows the background, as an exposed area does, or already the right colour. */
  ghost predicate ReadyFor(before: Canvas, image: Image, back: Pixel, cells: Cells, m: nat)
    requires m > 0
  {
    forall x, y :: cells.Has(x / m, y / m) ==> before(x, y) == back || before(x, y) == image.pixel(x / m, y / m)
  }

  /** The same with background cells left as they are, and only the cells before (row, column) in reading order done. */
  function DrawnAt(before: Canvas, image: Image, back: Pixel, cells: Cells, m: nat, row: int, column: int, x: int, y: int): Pixel
    requires m > 0
  {
    var i, j := x / m, y / m;
    if cells.Has(i, j) && (j < row || (j == row && i < column)) && image.pixel(i, j) != back then image.pixel(i, j) else before(x, y)
  }

  /** Window columns [k * m, n * m) are those of cells k to n - 1. */
  lemma CellSpan(x: int, m: nat, k: int, n: int)
    requires m > 0
    ensures k * m <= x < n * m <==> k <= x / m < n
  {
    var q, r := x / m, x % m;
    assert x == q * m + r;
    if k <= q { MulLe(k, q, m); } else { MulLe(q + 1, k, m); }
    if q < n { MulLe(q + 1, n, m); } else { MulLe(n, q, m); }
  }

  class Window {
    var foreground: Pixel  // of the server's graphics context
    ghost var canvas: Canvas

    constructor (ghost canvas: Canvas)
      ensures this.canvas == canvas
    {
      foreground := 0;
      this.canvas := canvas;
    }

    method ChangeGC(pixel: Pixel)
      modifies this
      ensures foreground == pixel && canvas == old(canvas)
    {
      foreground := pixel;
    }

    method FillRectangle(x: int, y: int, width: int, height: int)
      modifies this
      ensures foreground == old(foreground)
      ensures forall px, py :: canvas(px, py) ==
                if x <= px < x + width && y <= py < y + height then foreground else old(canvas)(px, py)
    {
      ghost var was, ink := canvas, foreground;
      canvas := (px: int, py: int) => if x <= px < x + width && y <= py < y + height then ink else was(px, py);
    }

    /**
     A run of cells k to n - 1 of one row, unless it is background; `prev` caches the colour
     last given to the server.
     */
    method DrawRun(fg: Pixel, prev: Pixel, back: Pixel, m: nat, rX: int, rY: int, rWidth: int, ghost row: int, ghost k: int, ghost n: int)
      returns (setTo: Pixel)
      requires m > 0 && k <= n && rX == k * m && rWidth == (n - k) * m && rY == row * m && prev == foreground
      modifies this
      ensures setTo == foreground
      ensures forall x, y :: canvas(x, y) == if fg != back && y / m == row && k <= x / m < n then fg else old(canvas)(x, y)
    {
      ghost var was := canvas;
      assert rX + rWidth == n * m && rY + m == (row + 1) * m;
      if k < n { MulLe(1, n - k, m); }
      setTo := prev;
      if fg != back && rWidth > 0 {
        if fg != prev {
          ChangeGC(fg);
          setTo := fg;
        }
        FillRectangle(rX, rY, rWidth, m);
      }
      forall x, y ensures canvas(x, y) == if fg != back && y / m == row && k <= x / m < n then fg else was(x, y) {
        CellSpan(x, m, k, n);
        CellSpan(y, m, row, row + 1);
      }
    }

    /** Every cell of `cells` before (row, column) in reading order has been drawn, and nothing else has changed. */
    ghost predicate DrawnUpTo(before: Canvas, image: Image, back: Pixel, cells: Cells, m: nat, row: int, column: int)
      requires m > 0
      reads this
    {
      forall x, y :: canvas(x, y) == DrawnAt(before, image, back, cells, m, row, column, x, y)
    }

    /** Drawing a run advances the picture to the run's end. */
    method EndRun(image: Image, fg: Pixel, prev: Pixel, back: Pixel, m: nat, rX: int, rY: int, rWidth: int,
                  ghost cells: Cells, ghost row: int, ghost k: int, ghost n: int, ghost before: Canvas)
      returns (setTo: Pixel)
      requires m > 0 && rX == k * m && rWidth == (n - k) * m && rY == row * m && prev == foreground
      requires cells.left <= k <= n && (n <= cells.right + 1 || n == k) && cells.top <= row <= cells.bottom
      requires forall j :: k <= j < n ==> image.pixel(j, row) == fg
      requires DrawnUpTo(before, image, back, cells, m, row, k)
      modifies this
      ensures setTo == foreground && DrawnUpTo(before, image, back, cells, m, row, n)
    {
      setTo := DrawRun(fg, prev, back, m, rX, rY, rWidth, row, k, n);
    }

    lemma RowDone(before: Canvas, image: Image, back: Pixel, cells: Cells, m: nat, row: int, column: int)
      requires m > 0 && column > cells.right && DrawnUpTo(before, image, back, cells, m, row, column)
      ensures DrawnUpTo(before, image, back, cells, m, row + 1, cells.left)
    {
    }

    /** One scanline. */
    method PaintRow(image: Image, back: Pixel, m: nat, cells: Cells, row: int, rY: int, fg0: Pixel, prev0: Pixel, ghost before: Canvas)
      returns (fg: Pixel, prev: Pixel)
      requires m > 0 && rY == row * m && cells.top <= row <= cells.bottom && prev0 == foreground
      requires forall i, j :: cells.Has(i, j) ==> image.Has(i, j)
      requires DrawnUpTo(before, image, back, cells, m, row, cells.left)
      modifies this
      ensures prev == foreground && DrawnUpTo(before, image, back, cells, m, row + 1, cells.left)
    {
      fg, prev := fg0, prev0;
      var rX, rWidth := cells.left * m, 0;
      ghost var k := cells.left;
      var column := cells.left;
      while column <= cells.right
        invariant cells.left <= k <= column && (column <= cells.right + 1 || column == cells.left)
        invariant rX == k * m && rWidth == (column - k) * m && prev == foreground
        invariant forall j :: k <= j < column ==> image.pixel(j, row) == fg
        invariant DrawnUpTo(before, image, back, cells, m, row, k)
      {
        var pixel := image.Get(column, row);
        if pixel != fg {
          prev := EndRun(image, fg, prev, back, m, rX, rY, rWidth, cells, row, k, column, before);
          rX := rX + rWidth;
          fg := pixel;
          rWidth := 0;
          k := column;
        }
        rWidth := rWidth + m;
        column := column + 1;
      }
      prev := EndRun(image, fg, prev, back, m, rX, rY, rWidth, cells, row, k, column, before);
      RowDone(before, image, back, cells, m, row, column);
    }

    /**
     The whole repaint.  Where the window already shows either the background or the right
     colour, it ends as the picture; the rest of the window keeps what it shows.
     */
    method Repaint(image: Image, ev: Expose, m: nat, back: Pixel)
      requires m > 0
      modifies this
      ensures forall x, y :: canvas(x, y) ==
                var pixel := Picture(old(canvas), image, Region(image, ev, m), m)(x, y); if pixel != back then pixel else old(canvas)(x, y)
      ensures ReadyFor(old(canvas), image, back, Region(image, ev, m), m) ==>
                forall x, y :: canvas(x, y) == Picture(old(canvas), image, Region(image, ev, m), m)(x, y)
    {
      ghost var before := canvas;
      var fg, prev := back, back;
      ChangeGC(back);
      var cells := Region(image, ev, m);
      forall i, j | cells.Has(i, j) ensures image.Has(i, j) { RegionInImage(image, ev, m, i, j); }
      var rY := cells.top * m;
      var row := cells.top;
      while row <= cells.bottom
        invariant cells.top <= row && (row <= cells.bottom + 1 || row == cells.top)
        invariant rY == row * m && prev == foreground
        invariant DrawnUpTo(before, image, back, cells, m, row, cells.left)
      {
        fg, prev := PaintRow(image, back, m, cells, row, rY, fg, prev, before);
        rY := rY + m;
        row := row + 1;
      }
    }
  }
}
