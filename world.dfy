/**
 The World object of lib/world.js: the grid size, the current layout and the time of the
 last evolution, with the operations that replace or update them.
 */
module World {
  import opened Wrappers
  import opened Js
  import opened Cells
  import opened Util
  import opened Life

  /** Payload of the evolution event: the changed cells and the new timestamp. */
  datatype Evolution = Evolution(cells: seq<DiffCell>, evolvedAt: int)

  /** Payload of the cells-updated event: the request's cells and the unchanged timestamp. */
  datatype CellsUpdated = CellsUpdated(cells: seq<CellInput>, evolvedAt: Option<int>)

  /** The `cells` property of a setCells request: an array, or anything else. */
  datatype CellsField = NotArray | CellArray(items: seq<CellInput>)

  /** The argument of setCells: not an object (or falsy), or an object with a `cells` property. */
  datatype Request = NonObjectRequest | RequestObject(cells: CellsField)

  /** A freshly built grid: every cell DEAD and white at its own coordinates. */
  ghost predicate IsFreshLayout(size: nat, layout: Layout) {
    Shaped(size, layout) &&
    forall i, j :: 0 <= i < size && 0 <= j < size ==> layout[i][j] == Cell(j, i, DEAD, WHITE_COLOR_HSL)
  }

  class World {
    const size: nat
    /** The `is-color` library. */
    const isColor: string -> bool
    /** The `average-color` library. */
    const averageColor: seq<seq<Number>> -> Hsl
    /** The grid; empty until setup (the source's `null`). */
    var layout: Layout
    /** When the current generation was computed; `None` until the first evolution. */
    var evolvedAt: Option<int>

    /** The grid invariant on the current layout. */
    ghost predicate Valid()
      reads this
    {
      WellFormed(size, layout)
    }

    constructor (size: nat, isColor: string -> bool, averageColor: seq<seq<Number>> -> Hsl)
      ensures this.size == size && this.isColor == isColor && this.averageColor == averageColor
      ensures layout == [] && evolvedAt == None
    {
      this.size := size;
      this.isColor := isColor;
      this.averageColor := averageColor;
      layout := [];
      evolvedAt := None;
    }

    /**
     setup: a stored layout with exactly `size` rows is adopted as it is; in every other case
     (none stored, fewer rows, more rows) a new grid of DEAD white cells is built.
     */
    method Setup(stored: Option<Layout>)
      modifies this`layout
      ensures stored.Some? && |stored.value| == size ==> layout == stored.value
      ensures !(stored.Some? && |stored.value| == size) ==> IsFreshLayout(size, layout) && Valid()
    {
      if stored.Some? && |stored.value| == size {
        layout := stored.value;
        return;
      }
      var grid: Layout := [];
      var i := 0;
      while i < size
        invariant 0 <= i <= size && |grid| == i
        invariant forall a :: 0 <= a < i ==> |grid[a]| == size
        invariant forall a, b :: 0 <= a < i && 0 <= b < size ==> grid[a][b] == Cell(b, a, DEAD, WHITE_COLOR_HSL)
      {
        var row: seq<Cell> := [];
        var j := 0;
        while j < size
          invariant 0 <= j <= size && |row| == j
          invariant forall b :: 0 <= b < j ==> row[b] == Cell(b, i, DEAD, WHITE_COLOR_HSL)
        {
          row := row + [Cell(j, i, DEAD, WHITE_COLOR_HSL)];
          j := j + 1;
        }
        grid := grid + [row];
        i := i + 1;
      }
      layout := grid;
    }

    /** getLiveNeighbours: scans the eight slots in order and keeps the filled ALIVE ones. */
    method GetLiveNeighbours(x: int, y: int) returns (live: seq<Cell>)
      requires Valid() && InGrid(size, x, y)
      ensures live == LiveCells(NeighbourSlots(size, layout, x, y))
      ensures |live| <= 8
    {
      var surrounding := SurroundingCells(size, layout, x, y);
      live := [];
      var i := 0;
      while i < 8
        invariant 0 <= i <= 8
        invariant live == LiveCells(surrounding[..i])
      {
        var nearby := surrounding[i];
        assert surrounding[..i + 1][..i] == surrounding[..i];
        if nearby.Some? && nearby.value.state == ALIVE {
          live := live + [nearby.value];
        }
        i := i + 1;
      }
      assert surrounding[..8] == surrounding;
    }

    /**
     evolveCell: the live neighbours come from getLiveNeighbours; the new cell starts DEAD and
     white at the same place and is made ALIVE by Conway's rule: born with the neighbours'
     average colour when it was DEAD with exactly three, surviving with its own colour when it
     was not DEAD and has two or three.
     */
    method EvolveCell(cell: Cell) returns (next: Cell)
      requires Valid() && InGrid(size, cell.x, cell.y)
      ensures next.x == cell.x && next.y == cell.y
      ensures var live := LiveCells(NeighbourSlots(size, layout, cell.x, cell.y));
        if cell.state == DEAD && |live| == 3 then
          next.state == ALIVE && next.color == ColorAverage(live, averageColor)
        else if cell.state != DEAD && (|live| == 2 || |live| == 3) then
          next.state == ALIVE && next.color == cell.color
        else
          next.state == DEAD && next.color == WHITE_COLOR_HSL
      ensures next == NextCell(size, layout, cell, averageColor)
    {
      var liveNeighbours := GetLiveNeighbours(cell.x, cell.y);
      var liveNeighboursCount := |liveNeighbours|;
      next := Cell(cell.x, cell.y, DEAD, WHITE_COLOR_HSL);
      if cell.state == DEAD {
        if liveNeighboursCount == 3 {
          next := next.(state := ALIVE, color := ColorAverage(liveNeighbours, averageColor));
        }
      } else {
        if liveNeighboursCount == 2 || liveNeighboursCount == 3 {
          next := next.(state := ALIVE, color := cell.color);
        }
      }
    }

    /** The inner loop of evolve: row i of the next generation, cell by cell. */
    method EvolveRow(i: nat) returns (row: seq<Cell>)
      requires Valid() && i < size
      ensures row == NextRow(size, layout, averageColor, i)
    {
      row := [];
      var j := 0;
      while j < size
        invariant 0 <= j <= size
        invariant row == NextRow(size, layout, averageColor, i)[..j]
      {
        var cell := EvolveCell(layout[i][j]);
        row := row + [cell];
        j := j + 1;
      }
    }

    /**
     evolve: the next generation is built row by row from the current layout only, then
     replaces it; the timestamp becomes `now`. `delta` stands for the diff library that
     compares the two layouts; the event payload carries the cells read from its result.
     */
    method Evolve(now: int, delta: (Layout, Layout) -> Diff) returns (event: Evolution)
      requires Valid()
      modifies this`layout, this`evolvedAt
      ensures Valid()
      ensures layout == NextGeneration(size, old(layout), averageColor)
      ensures evolvedAt == Some(now)
      ensures event == Evolution(DiffCells(delta(old(layout), layout)), now)
    {
      ghost var target := NextGeneration(size, layout, averageColor);
      var next: Layout := [];
      var i := 0;
      while i < size
        invariant 0 <= i <= size
        invariant next == target[..i]
        invariant layout == old(layout)
      {
        var row := EvolveRow(i);
        next := next + [row];
        i := i + 1;
      }
      assert next == target;
      var cells := JsonDiffToCells(delta(layout, next));
      layout := next;
      evolvedAt := Some(now);
      event := Evolution(cells, now);
    }

    /**
     setCell: the checks run in their fixed order; a rejected cell changes nothing, a valid
     one is written at layout[y][x] and nothing else changes.
     */
    method SetCell(input: CellInput) returns (error: Option<Error>)
      requires Shaped(size, layout)
      modifies this`layout
      ensures ValidateCell(size, input, isColor).Failure? ==>
        error == Some(ValidateCell(size, input, isColor).error) && layout == old(layout)
      ensures ValidateCell(size, input, isColor).Success? ==>
        error == None && layout == Put(old(layout), ValidateCell(size, input, isColor).value)
      ensures Shaped(size, layout) && (old(Valid()) ==> Valid())
    {
      match ValidateCell(size, input, isColor)
      case Failure(e) =>
        error := Some(e);
      case Success(cell) =>
        layout := layout[cell.y := layout[cell.y][cell.x := cell]];
        error := None;
    }

    /**
     The loop of setCells: setCell on each cell in order. The first cell that setCell rejects
     stops the loop, and the cells before it stay written.
     */
    method WriteCells(cells: seq<CellInput>) returns (rejected: Option<Rejection>)
      requires Shaped(size, layout)
      modifies this`layout
      ensures layout == ApplyCells(size, old(layout), cells, isColor).layout
      ensures rejected == ApplyCells(size, old(layout), cells, isColor).rejected
    {
      var i := 0;
      while i < |cells|
        invariant 0 <= i <= |cells|
        invariant ApplyCells(size, old(layout), cells[..i], isColor).rejected.None?
        invariant layout == ApplyCells(size, old(layout), cells[..i], isColor).layout
      {
        ApplyCellsStep(size, old(layout), cells, isColor, i);
        ghost var step := ApplyCells(size, old(layout), cells[..i + 1], isColor);
        var error := SetCell(cells[i]);
        if error.Some? {
          assert step.rejected == Some(Rejection(i, error.value)) && step.layout == layout;
          ApplyCellsStopped(size, old(layout), cells, isColor, i);
          return Some(Rejection(i, error.value));
        }
        assert step.rejected.None? && step.layout == layout;
        i := i + 1;
      }
      assert cells[..i] == cells;
      rejected := None;
    }

    /**
     setCells: the request must be an object with a non-empty `cells` array; the cells are
     then written one by one, and the first invalid one stops the batch with the cells
     before it already written. The timestamp is left as it is.
     */
    method SetCells(data: Request) returns (result: Result<CellsUpdated, Error>)
      requires Shaped(size, layout)
      modifies this`layout
      ensures data.NonObjectRequest? ==> result == Failure(InvalidData) && layout == old(layout)
      ensures data.RequestObject? && (data.cells.NotArray? || data.cells.items == []) ==>
        result == Failure(InvalidCellsArray) && layout == old(layout)
      ensures data.RequestObject? && data.cells.CellArray? && data.cells.items != [] ==>
        var applied := ApplyCells(size, old(layout), data.cells.items, isColor);
        && layout == applied.layout
        && (applied.rejected.None? ==> result == Success(CellsUpdated(data.cells.items, evolvedAt)))
        && (applied.rejected.Some? ==> result == Failure(applied.rejected.value.error))
      ensures Shaped(size, layout) && (old(Valid()) ==> Valid())
      ensures evolvedAt == old(evolvedAt)
    {
      if data.NonObjectRequest? {
        return Failure(InvalidData);
      }
      if data.cells.NotArray? || |data.cells.items| == 0 {
        return Failure(InvalidCellsArray);
      }
      var rejected := WriteCells(data.cells.items);
      if rejected.Some? {
        return Failure(rejected.value.error);
      }
      result := Success(CellsUpdated(data.cells.items, evolvedAt));
    }
  }

  /**
   The setup tests on a 3 x 3 world: a stored layout of the same size with (0, 0) ALIVE keeps
   it ALIVE; the same layout with its last row removed is discarded, so (0, 0) is DEAD.
   */
  method SetupOfStoredLayouts() returns (sameSize: int, smaller: int)
    ensures sameSize == ALIVE && smaller == DEAD
  {
    var world := new World(3, _ => true, _ => Hsl(360, 100, 100));
    world.Setup(None);
    var stored := world.layout[0 := world.layout[0][0 := Cell(0, 0, ALIVE, WHITE_COLOR_HSL)]];
    world.Setup(Some(stored));
    sameSize := world.layout[0][0].state;
    world.Setup(Some(stored[..2]));
    smaller := world.layout[0][0].state;
  }
}
