/** The program's one piece of mutable state, the selected cell, with the
    click handler that updates it, the sidebar that reports it and the
    per-frame `draw` that ties layout, input and drawing together (main.go). */
module App {
  import opened Geometry
  import opened Grid

  /** What the sidebar shows below its title: the selected cell's
      coordinates and bitset, or the prompt to click a cell. */
  datatype SidebarView = Info(x: int, y: int, bits: bv64) | Prompt

  class AppState {
    /** The selected cell; (-1, -1) until the first click inside the grid. */
    var selX: int
    var selY: int

    /** The selection is never anything but "none" or a cell of the grid. */
    predicate Valid()
      reads this
    {
      IsSelection(selX, selY)
    }

    constructor ()
      ensures Valid()
      ensures selX == -1 && selY == -1
    {
      selX, selY := -1, -1;
    }

    /** `handleMouse`: on a left-button press at (mx, my), selects the cell
        under the pointer if there is one; otherwise nothing changes. */
    method HandleClick(pressed: bool, mx: int, my: int, ox: int, oy: int, cs: int)
      requires cs > 0
      modifies this
      ensures pressed && CellAt(mx, my, ox, oy, cs).Some? ==> (selX, selY) == CellAt(mx, my, ox, oy, cs).value
      ensures !(pressed && CellAt(mx, my, ox, oy, cs).Some?) ==> selX == old(selX) && selY == old(selY)
      ensures old(Valid()) ==> Valid()
    {
      if pressed {
        var gx := TruncDiv(mx - ox, cs);
        var gy := TruncDiv(my - oy, cs);
        if gx >= 0 && gx < GridSize && gy >= 0 && gy < GridSize {
          selX, selY := gx, gy;
        }
      }
    }

    /** The branch of `drawSidebar`: details of the selected cell, read from
        the grid at [selY, selX], exactly when a cell is selected. The
        invariant makes the `selX >= 0 && selY >= 0` test a safe index. */
    function Sidebar(grid: array2<bv64>): (v: SidebarView)
      reads this, grid
      requires Valid()
      requires grid.Length0 == GridSize && grid.Length1 == GridSize
      ensures v.Prompt? <==> selX == -1 && selY == -1
      ensures v.Info? ==> InGrid(v.x) && InGrid(v.y) && v.x == selX && v.y == selY && v.bits == grid[selY, selX]
    {
      if selX >= 0 && selY >= 0 then Info(selX, selY, grid[selY, selX]) else Prompt
    }

    /** One frame of `draw` for a `sw` x `sh` window: compute the layout,
        handle a click, then colour the grid and fill the sidebar from the
        selection as it stands after the click. */
    method Draw(grid: array2<bv64>, sw: int, sh: int, pressed: bool, mx: int, my: int)
      returns (layout: Layout, frame: array2<Color>, panel: SidebarView)
      requires Valid()
      requires sw >= 0
      requires grid.Length0 == GridSize && grid.Length1 == GridSize
      modifies this
      ensures Valid()
      ensures layout == ComputeLayout(sw, sh, SidebarWidth(sw))
      ensures MinCellSize <= layout.cellSize <= MaxCellSize && layout.offsetY >= 0
      ensures var hit := CellAt(mx, my, layout.offsetX, layout.offsetY, layout.cellSize);
        if pressed && hit.Some? then (selX, selY) == hit.value else selX == old(selX) && selY == old(selY)
      ensures fresh(frame)
      ensures frame.Length0 == GridSize && frame.Length1 == GridSize
      ensures forall y, x :: 0 <= y < GridSize && 0 <= x < GridSize ==>
        frame[y, x] == CellColor(grid[y, x], x, y, selX, selY)
      ensures panel == Sidebar(grid)
    {
      layout := ComputeLayout(sw, sh, SidebarWidth(sw));
      HandleClick(pressed, mx, my, layout.offsetX, layout.offsetY, layout.cellSize);
      frame := DrawGrid(grid, selX, selY);
      panel := Sidebar(grid);
    }
  }
}
