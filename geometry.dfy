/** Responsive layout of the 128x128 grid and the mapping from a pointer
    position to a grid cell (main.go, `draw` and `handleMouse`). */
module Geometry {

  datatype Option<T> = None | Some(value: T)

  /** Number of cells along each side of the grid. */
  const GridSize := 128
  /** Smallest and largest pixel size of one cell. */
  const MinCellSize := 5
  const MaxCellSize := 8

  /** Go's integer division: the quotient is truncated toward zero, so the
      remainder takes the sign of the dividend (Dafny's `/` is Euclidean). */
  function TruncDiv(a: int, d: int): (q: int)
    requires d > 0
    ensures a >= 0 ==> 0 <= a - q * d < d
    ensures a < 0 ==> -d < a - q * d <= 0
  {
    if a >= 0 then a / d else -((-a) / d)
  }

  /** The truncated quotient is the unique q whose remainder lies on the
      dividend's side of zero and is smaller than the divisor. */
  lemma TruncDivUnique(a: int, d: int, q: int)
    requires d > 0
    requires a >= 0 ==> 0 <= a - q * d < d
    requires a < 0 ==> -d < a - q * d <= 0
    ensures TruncDiv(a, d) == q
  {
    var t := TruncDiv(a, d);
    if t < q {
      MulMonotone(t + 1, q, d);
    } else if t > q {
      MulMonotone(q + 1, t, d);
    }
  }

  /** Multiplying by a positive factor keeps the order. */
  lemma MulMonotone(a: int, b: int, d: int)
    requires a <= b && d > 0
    ensures a * d <= b * d
  {
  }

  /** Width of the sidebar: `float32(sw) * 0.3` truncated, which for every
      realistic window width is the floor of 3*sw/10. */
  function SidebarWidth(sw: int): (w: int)
    requires sw >= 0
    ensures 0 <= w <= sw
    ensures 10 * w <= 3 * sw < 10 * w + 10
  {
    sw * 3 / 10
  }

  /** The geometry derived once per frame from the window size. */
  datatype Layout = Layout(sidebarW: int, cellSize: int, gridPixels: int, offsetX: int, offsetY: int)

  /** `c` is the largest cell size in [MinCellSize, MaxCellSize] whose grid
      fits in `width` pixels, or MinCellSize when none fits. */
  ghost predicate BestFit(width: int, c: int)
  {
    MinCellSize <= c <= MaxCellSize &&
    (c > MinCellSize ==> GridSize * c <= width) &&
    (c < MaxCellSize ==> GridSize * (c + 1) > width)
  }

  /** At most one cell size is the best fit for a width. */
  lemma BestFitUnique(width: int, c: int, c': int)
    requires BestFit(width, c) && BestFit(width, c')
    ensures c == c'
  {
  }

  /** `o` is the truncated half of `free`: the margins before and after the
      grid differ by at most one pixel, the extra pixel going after the grid
      when there is room and before it when the grid overflows. */
  ghost predicate Centred(free: int, o: int)
  {
    (free >= 0 ==> 0 <= free - 2 * o <= 1) &&
    (free < 0 ==> -1 <= free - 2 * o <= 0)
  }

  /** The layout block of `draw`: cell size clamped to [5, 8], grid extent,
      a horizontal offset that may be negative and a vertical offset that is
      clamped to zero. */
  function ComputeLayout(sw: int, sh: int, sidebarW: int): (g: Layout)
    ensures g.sidebarW == sidebarW
    ensures BestFit(sw - sidebarW, g.cellSize)
    ensures g.gridPixels == GridSize * g.cellSize
    ensures GridSize * MinCellSize <= g.gridPixels <= GridSize * MaxCellSize
    ensures Centred(sw - sidebarW - g.gridPixels, g.offsetX)
    ensures g.offsetX < 0 <==> sw - sidebarW + 2 <= g.gridPixels
    ensures g.offsetY >= 0
    ensures sh >= g.gridPixels ==> Centred(sh - g.gridPixels, g.offsetY)
    ensures sh < g.gridPixels ==> g.offsetY == 0
  {
    var dynCell := TruncDiv(sw - sidebarW, GridSize);
    var cellSize := Max(MinCellSize, Min(dynCell, MaxCellSize));
    var gridPixels := cellSize * GridSize;
    var offsetX := TruncDiv(sw - sidebarW - gridPixels, 2);
    var offsetY := Max(TruncDiv(sh - gridPixels, 2), 0);
    Layout(sidebarW, cellSize, gridPixels, offsetX, offsetY)
  }

  function Min(a: int, b: int): (m: int) { if a < b then a else b }
  function Max(a: int, b: int): (m: int) { if a > b then a else b }

  /** The default 1000x700 window: a 300-pixel sidebar, 5-pixel cells and
      the grid 30 pixels in from the left and from the top. */
  lemma DefaultWindowLayout()
    ensures ComputeLayout(1000, 700, SidebarWidth(1000)) == Layout(300, 5, 640, 30, 30)
  {
  }

  /** A window too narrow for the smallest grid puts the grid's left edge
      off screen: the horizontal offset is not clamped. */
  lemma NarrowWindowOffsetNegative()
    ensures ComputeLayout(800, 700, SidebarWidth(800)).offsetX < 0
  {
  }

  /** When the free width is negative and odd the halving truncates toward
      zero: an 801-pixel window leaves -79 pixels and gives offset -39, not
      the floored -40. */
  lemma NarrowWindowOffsetTruncated()
    ensures ComputeLayout(801, 700, SidebarWidth(801)).offsetX == -39
  {
  }

  predicate InGrid(i: int)
  {
    0 <= i < GridSize
  }

  /** The selection is either the initial (-1, -1) or a cell of the grid. */
  predicate IsSelection(x: int, y: int)
  {
    (x == -1 && y == -1) || (InGrid(x) && InGrid(y))
  }

  /** Grid index along one axis of a pointer coordinate `p`, for a grid whose
      first cell starts at `origin`. */
  function AxisIndex(p: int, origin: int, cs: int): (i: int)
    requires cs > 0
    ensures p >= origin ==> origin + i * cs <= p < origin + (i + 1) * cs
    ensures p < origin ==> origin + (i - 1) * cs < p <= origin + i * cs
  {
    TruncDiv(p - origin, cs)
  }

  /** The pixels along one axis that map to cell `i`. Truncation toward zero
      makes cell 0 reach `cs - 1` pixels before the origin. */
  ghost predicate Covers(i: int, p: int, origin: int, cs: int)
  {
    if i == 0 then origin - cs < p < origin + cs
    else origin + i * cs <= p < origin + (i + 1) * cs
  }

  /** Along one axis, the index is inside the grid exactly when the pointer
      is less than one cell before the origin and before the far edge, and
      then the pointer lies in the pixels of that cell. */
  lemma AxisIndexInRange(p: int, origin: int, cs: int)
    requires cs > 0
    ensures InGrid(AxisIndex(p, origin, cs)) <==> origin - cs < p < origin + GridSize * cs
    ensures InGrid(AxisIndex(p, origin, cs)) ==> Covers(AxisIndex(p, origin, cs), p, origin, cs)
  {
    var q := AxisIndex(p, origin, cs);
    if q < 0 {
      MulMonotone(q, -1, cs);
    } else if q >= GridSize {
      MulMonotone(GridSize, q, cs);
    } else {
      MulMonotone(q, GridSize - 1, cs);
      if q > 0 {
        MulMonotone(1, q, cs);
      }
    }
  }

  /** `handleMouse`'s mapping: the cell under the pointer, or None when
      either index falls outside [0, 128). */
  function CellAt(px: int, py: int, ox: int, oy: int, cs: int): (r: Option<(int, int)>)
    requires cs > 0
    ensures r.Some? <==> ox - cs < px < ox + GridSize * cs && oy - cs < py < oy + GridSize * cs
    ensures r.Some? ==> InGrid(r.value.0) && InGrid(r.value.1)
    ensures r.Some? ==> Covers(r.value.0, px, ox, cs) && Covers(r.value.1, py, oy, cs)
  {
    AxisIndexInRange(px, ox, cs);
    AxisIndexInRange(py, oy, cs);
    var gx := AxisIndex(px, ox, cs);
    var gy := AxisIndex(py, oy, cs);
    if 0 <= gx < GridSize && 0 <= gy < GridSize then Some((gx, gy)) else None
  }

  /** Hit-test round trip: any pixel inside the drawn square of cell
      (gx, gy) selects exactly that cell. */
  lemma ClickRoundTrip(gx: int, gy: int, rx: int, ry: int, ox: int, oy: int, cs: int)
    requires cs > 0
    requires InGrid(gx) && InGrid(gy)
    requires 0 <= rx < cs && 0 <= ry < cs
    ensures CellAt(ox + gx * cs + rx, oy + gy * cs + ry, ox, oy, cs) == Some((gx, gy))
  {
    TruncDivUnique(gx * cs + rx, cs, gx);
    TruncDivUnique(gy * cs + ry, cs, gy);
    assert ox + gx * cs + rx - ox == gx * cs + rx;
    assert oy + gy * cs + ry - oy == gy * cs + ry;
  }

  /** A pointer just left of and above the grid origin still selects cell
      (0, 0), because the quotient is truncated rather than floored. */
  lemma ClickBeforeOriginSelectsFirstCell(ox: int, oy: int, cs: int)
    requires cs > 1
    ensures CellAt(ox - 1, oy - 1, ox, oy, cs) == Some((0, 0))
  {
    TruncDivUnique(-1, cs, 0);
  }

  /** A click whose column index would be 128, at or past the grid's right
      edge, selects nothing. */
  lemma ClickPastRightEdgeRejected(py: int, ox: int, oy: int, cs: int, rx: int)
    requires cs > 0
    requires 0 <= rx
    ensures CellAt(ox + GridSize * cs + rx, py, ox, oy, cs) == None
  {
  }
}
