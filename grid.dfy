/** The 128x128 grid of 64-bit cell bitsets and the per-cell colour chosen
    when it is drawn (main.go, `initializeGrid` and `drawGrid`). A grid is an
    `array2` indexed [row, column], the row being the y axis. */
module Grid {
  import opened Geometry

  /** The bitset `initializeGrid` stores at [row, col]: non-zero at exactly
      four positions, and using no flag other than bits 1 to 3. */
  function InitialBits(row: int, col: int): (b: bv64)
    ensures b != 0 <==> (row, col) in {(10, 10), (20, 15), (50, 30), (10, 5)}
    ensures b | 0xE == 0xE
  {
    if row == 10 && col == 10 then 1 << 1
    else if row == 20 && col == 15 then 1 << 2
    else if row == 50 && col == 30 then 1 << 3
    else if row == 10 && col == 5 then (1 << 1) | (1 << 2) | (1 << 3)
    else 0
  }

  /** The four seeded cells carry 0b10, 0b100, 0b1000 and 0b1110, and the
      last is the union of the first three. */
  lemma InitialValues()
    ensures InitialBits(10, 10) == 2 && InitialBits(20, 15) == 4
    ensures InitialBits(50, 30) == 8 && InitialBits(10, 5) == 14
    ensures InitialBits(10, 5) == InitialBits(10, 10) | InitialBits(20, 15) | InitialBits(50, 30)
  {
  }

  /** Positions of the grid whose initial bitset is non-zero. */
  ghost function InitialNonZero(): set<(int, int)>
  {
    set row, col | 0 <= row < GridSize && 0 <= col < GridSize && InitialBits(row, col) != 0 :: (row, col)
  }

  /** Exactly four cells start non-zero: [10][10], [20][15], [50][30] and [10][5]. */
  lemma InitialNonZeroCells()
    ensures InitialNonZero() == {(10, 10), (20, 15), (50, 30), (10, 5)}
    ensures |InitialNonZero()| == 4
  {
    var s := {(10, 10), (20, 15), (50, 30), (10, 5)};
    forall p | p in s ensures p in InitialNonZero() {
      InitialValues();
    }
    assert InitialNonZero() == s;
  }

  /** `initializeGrid`: a zeroed grid with four bitsets written into it. */
  method InitializeGrid() returns (grid: array2<bv64>)
    ensures fresh(grid)
    ensures grid.Length0 == GridSize && grid.Length1 == GridSize
    ensures forall row, col :: 0 <= row < GridSize && 0 <= col < GridSize ==> grid[row, col] == InitialBits(row, col)
  {
    grid := new bv64[GridSize, GridSize]((row, col) => 0);
    grid[10, 10] := 1 << 1;
    grid[20, 15] := 1 << 2;
    grid[50, 30] := 1 << 3;
    grid[10, 5] := (1 << 1) | (1 << 2) | (1 << 3);
  }

  datatype Color = DarkGray | Green | Yellow

  /** Colour of cell (x, y) holding `bits` while (selX, selY) is selected:
      the selected cell is Yellow whatever its bitset, any other cell is
      Green when its bitset is non-zero and DarkGray otherwise. */
  function CellColor(bits: bv64, x: int, y: int, selX: int, selY: int): (c: Color)
    ensures c == Yellow <==> x == selX && y == selY
    ensures c == Green <==> (x != selX || y != selY) && bits != 0
    ensures c == DarkGray <==> (x != selX || y != selY) && bits == 0
  {
    if x == selX && y == selY then Yellow
    else if bits != 0 then Green
    else DarkGray
  }

  /** `drawGrid`: visits every cell row by row and records the colour its
      rectangle is filled with. */
  method DrawGrid(grid: array2<bv64>, selX: int, selY: int) returns (frame: array2<Color>)
    requires grid.Length0 == GridSize && grid.Length1 == GridSize
    ensures fresh(frame)
    ensures frame.Length0 == GridSize && frame.Length1 == GridSize
    ensures forall y, x :: 0 <= y < GridSize && 0 <= x < GridSize ==>
      frame[y, x] == CellColor(grid[y, x], x, y, selX, selY)
  {
    frame := new Color[GridSize, GridSize]((y, x) => DarkGray);
    for y := 0 to GridSize
      invariant forall y', x :: 0 <= y' < y && 0 <= x < GridSize ==>
        frame[y', x] == CellColor(grid[y', x], x, y', selX, selY)
    {
      for x := 0 to GridSize
        invariant forall y', x' :: 0 <= y' < y && 0 <= x' < GridSize ==>
          frame[y', x'] == CellColor(grid[y', x'], x', y', selX, selY)
        invariant forall x' :: 0 <= x' < x ==> frame[y, x'] == CellColor(grid[y, x'], x', y, selX, selY)
      {
        var col := DarkGray;
        if grid[y, x] != 0 {
          col := Green;
        }
        if x == selX && y == selY {
          col := Yellow;
        }
        frame[y, x] := col;
      }
    }
  }

  /** Under a valid selection some cell of the grid is drawn Yellow exactly
      when a cell is selected, and no two cells are. */
  lemma HighlightIffSelected(grid: array2<bv64>, selX: int, selY: int)
    requires grid.Length0 == GridSize && grid.Length1 == GridSize
    requires IsSelection(selX, selY)
    ensures (exists y, x :: 0 <= y < GridSize && 0 <= x < GridSize &&
              CellColor(grid[y, x], x, y, selX, selY) == Yellow)
            <==> selX != -1
    ensures forall y, x, y', x' ::
              (0 <= y < GridSize && 0 <= x < GridSize && 0 <= y' < GridSize && 0 <= x' < GridSize &&
               CellColor(grid[y, x], x, y, selX, selY) == Yellow &&
               CellColor(grid[y', x'], x', y', selX, selY) == Yellow) ==> y == y' && x == x'
  {
    if selX != -1 {
      assert CellColor(grid[selY, selX], selX, selY, selX, selY) == Yellow;
    }
  }

  /** The first frame: with nothing selected, a grid holding the initial
      bitsets is drawn Green at exactly [10][10], [20][15], [50][30] and
      [10][5], DarkGray everywhere else, and Yellow nowhere. */
  lemma InitialFrame(grid: array2<bv64>)
    requires grid.Length0 == GridSize && grid.Length1 == GridSize
    requires forall row, col :: 0 <= row < GridSize && 0 <= col < GridSize ==> grid[row, col] == InitialBits(row, col)
    ensures forall row, col :: 0 <= row < GridSize && 0 <= col < GridSize ==>
      (CellColor(grid[row, col], col, row, -1, -1) == Green <==> (row, col) in {(10, 10), (20, 15), (50, 30), (10, 5)})
    ensures forall row, col :: 0 <= row < GridSize && 0 <= col < GridSize ==>
      CellColor(grid[row, col], col, row, -1, -1) != Yellow
  {
  }
}
