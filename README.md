# Grid viewer: layout, hit-testing and selection

A small interactive viewer draws a 128x128 grid of cells, each holding a
64-bit bitset, beside a sidebar. It colours the cells whose bitset is
non-zero. Clicking a cell selects it, and the sidebar then shows the cell's
coordinates and bitset. This Dafny project models the part of `main.go`
that is more than calls into the graphics library:

- `Geometry`: the per-frame layout, the click-to-cell mapping and the
  selection invariant. It covers the sidebar width, a cell size clamped to
  [5, 8], the grid's pixel extent, a horizontal offset that is not clamped
  and a vertical offset that is clamped to zero. Go's `int32` division
  truncates toward zero, and the model does the same (`TruncDiv`).
- `Grid`: the initial grid as an `array2<bv64>` indexed [row, column], with
  the row on the y axis. It also has the three-way colour rule and the
  nested loop of `drawGrid`, which records each cell's colour in an
  `array2<Color>`.
- `App`: the selection (`selectedX`, `selectedY`) as the fields of a class
  `AppState`. It has the click handler, the sidebar's choice between cell
  details and the prompt, and one frame of `draw`.

The window size, the mouse position and the "left button pressed" event
come from the graphics library. Here they are plain parameters.

Go's `int32` division truncates toward zero, and the model keeps this
wherever the source divides. A click up to `cellSize - 1` pixels left of or
above the grid origin therefore still maps to index 0
(`Geometry.ClickBeforeOriginSelectsFirstCell`). When the grid is wider than
the space left of the sidebar, an odd negative free width rounds `offsetX`
toward zero: an 801-pixel window gives -39, not -40
(`Geometry.NarrowWindowOffsetTruncated`).

## Model

| member | source | states |
|---|---|---|
| Geometry.TruncDiv | main.go:78-79 | Go's division of integers: the remainder has the dividend's sign and is smaller in size than the divisor |
| Geometry.TruncDivUnique | main.go:78-79 | that remainder condition fixes the truncated quotient uniquely |
| Geometry.SidebarWidth | main.go:59 | the sidebar is the floor of 30% of the window width, so it lies between 0 and the width |
| Geometry.BestFitUnique | main.go:61-62 | the clamped cell size is the only size in [5, 8] that is the largest fitting one (or 5 when none fits) |
| Geometry.ComputeLayout | main.go:56-66 | the cell size is that best fit in [5, 8]; the grid spans 640 to 1024 pixels; the horizontal offset centres the grid in the space left of the sidebar to within one pixel and is negative exactly when that space is 2 or more pixels narrower than the grid; the vertical offset is never negative, centres the grid when the window is tall enough and is 0 otherwise |
| Geometry.DefaultWindowLayout | main.go:56-66 | a 1000x700 window gets a 300-pixel sidebar, 5-pixel cells, a 640-pixel grid and offsets (30, 30) |
| Geometry.NarrowWindowOffsetNegative | main.go:65 | an 800-pixel window gives a negative horizontal offset, because that offset is not clamped |
| Geometry.NarrowWindowOffsetTruncated | main.go:65 | an 801-pixel window leaves -79 free pixels and gets offset -39: the halving truncates toward zero |
| Geometry.AxisIndex | main.go:78-79 | the per-axis index is the number of whole cells between the origin and the pointer, counted toward the origin: the pointer lies in [origin + i*cs, origin + (i+1)*cs) at or after the origin, and in (origin + (i-1)*cs, origin + i*cs] before it |
| Geometry.AxisIndexInRange | main.go:78-80 | along one axis, the truncated index is in [0, 128) exactly when the pointer is within one cell before the origin and before the far edge, and the pointer then lies in that cell's pixels |
| Geometry.CellAt | main.go:78-80 | the click mapping returns a cell exactly when both coordinates are in reach of the grid; that cell is inside the grid and covers the pointer |
| Geometry.ClickRoundTrip | main.go:78-81 | every pixel of the square drawn for cell (gx, gy) maps back to (gx, gy) |
| Geometry.ClickBeforeOriginSelectsFirstCell | main.go:78-80 | one pixel left of and above the origin maps to (0, 0) when cells are wider than one pixel, because of truncation |
| Geometry.ClickPastRightEdgeRejected | main.go:80 | a click at or past the right edge of the grid, where the column would be 128 or more, maps to no cell whatever its row |
| Grid.InitialBits | main.go:41-47 | the initial bitset is non-zero exactly at [10][10], [20][15], [50][30] and [10][5], and sets no flag outside bits 1 to 3 |
| Grid.InitialValues | main.go:43-46 | the seeded bitsets are 2, 4, 8 and 14, and the last is the union of the other three |
| Grid.InitialNonZeroCells | main.go:41-47 | exactly four positions start non-zero: [10][10], [20][15], [50][30] and [10][5] |
| Grid.InitializeGrid | main.go:41-47 | returns a new 128x128 grid holding the initial bitset at every position |
| Grid.CellColor | main.go:90-96 | the selected cell is Yellow whatever its bitset; any other cell is Green exactly when its bitset is non-zero and DarkGray otherwise |
| Grid.DrawGrid | main.go:86-100 | the nested loops give every cell of the 128x128 grid the colour of the priority rule, in a newly allocated frame |
| Grid.HighlightIffSelected | main.go:94-96 | under a valid selection some cell is Yellow exactly when a cell is selected, and at most one cell is |
| Grid.InitialFrame | main.go:89-96 | with nothing selected, a grid holding the initial bitsets is Green exactly at [10][10], [20][15], [50][30] and [10][5], and no cell is Yellow |
| App.AppState.constructor | main.go:24-26 | the selection starts as (-1, -1), which satisfies the selection invariant |
| App.AppState.HandleClick | main.go:75-84 | a press that maps into the grid selects that cell; anything else leaves both fields exactly as they were; the selection invariant is preserved |
| App.AppState.Sidebar | main.go:108-115 | under the invariant the sidebar shows the prompt exactly when nothing is selected; otherwise it shows the selected coordinates and the bitset at grid[selY][selX], an index the invariant keeps in range |
| App.AppState.Draw | main.go:50-73 | one frame computes the layout, handles the click with that layout's offsets and cell size, then colours the grid and fills the sidebar from the updated selection, keeping the invariant |

The layout depends only on the window size. `ComputeLayout` is a function,
so two calls with the same width and height give the same cell size and
offsets.

## Left out

- Every call into the graphics library is left out. This covers window creation, frame pacing, the close check, input polling, clearing the background, and drawing rectangles, text and the frame-rate counter (main.go:29-38, 51-54, 72, 76-77, 97, 103-106, 112, 114). Their results become parameters: the window size, the mouse position and the press event.
- The loop in `main` that calls `draw` until the window closes is not modelled. `App.AppState.Draw` models a single iteration, and its `Valid()` pre- and postcondition carry the invariant from frame to frame.
- Geometry.SidebarWidth: the source multiplies by the `float32` constant 0.3 and truncates. The model takes `sw * 3 / 10`, which gives the same result for realistic window widths. IEEE rounding is not modelled. `ComputeLayout` accepts any sidebar width as a parameter.
- Geometry.CellAt: coordinates are unbounded integers. The `int32` wrap-around of `x - offsetX` for coordinates near 2^31 is not modelled.
- Geometry.ComputeLayout: the `int32` wrap-around for window sizes near 2^31 is not modelled.
- Grid.DrawGrid: the position and size of each rectangle (`offset + index * size`, `size - 1`) are not recorded, only its colour. The hit-test round trip covers the same geometry.
- App.AppState.Sidebar: the hexadecimal text for the cell details and the fixed title are not modelled. Only the choice between details and prompt is.
- The unused `width` and `height` fields of `Cell` are not modelled. A cell is its bitset alone.
