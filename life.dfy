/**
 The read-only logic of the World engine in lib/world.js, stated over a grid value
 (`size` and `layout`): the neighbour lookup, Conway's rule with colour inheritance,
 the next generation, and the validation and writing of injected cells.
 */
module Life {
  import opened Wrappers
  import opened Js
  import opened Cells
  import opened Util

  /** The grid: rows indexed by y, each a row of cells indexed by x. */
  type Layout = seq<seq<Cell>>

  predicate InGrid(size: int, x: int, y: int) {
    0 <= x < size && 0 <= y < size
  }

  /** `size` rows of `size` cells each. */
  predicate Shaped(size: int, layout: Layout) {
    |layout| == size && forall i :: 0 <= i < |layout| ==> |layout[i]| == size
  }

  /** The grid invariant: the cell stored at layout[i][j] has x = j and y = i. */
  predicate WellFormed(size: int, layout: Layout) {
    Shaped(size, layout) &&
    forall i, j :: 0 <= i < size && 0 <= j < size ==> layout[i][j].x == j && layout[i][j].y == i
  }

  // ---------------------------------------------------------------- neighbours

  /** Column and row offsets of the eight neighbour slots, clockwise from the top:
      top, top-right, right, bottom-right, bottom, bottom-left, left, top-left. */
  const DX: seq<int> := [0, 1, 1, 1, 0, -1, -1, -1]
  const DY: seq<int> := [-1, -1, 0, 1, 1, 1, 0, -1]

  /** The cell at (x, y), or nothing outside the grid. */
  function Slot(size: int, layout: Layout, x: int, y: int): Option<Cell>
    requires Shaped(size, layout)
  {
    if InGrid(size, x, y) then Some(layout[y][x]) else None
  }

  /** Reference definition of the neighbour vector, slot k at offset (DX[k], DY[k]). */
  function NeighbourSlots(size: int, layout: Layout, x: int, y: int): seq<Option<Cell>>
    requires Shaped(size, layout)
  {
    seq(8, k requires 0 <= k < 8 => Slot(size, layout, x + DX[k], y + DY[k]))
  }

  /**
   getSurroundingCells: the four orthogonal neighbours are looked up by bounds tests on
   x and y, and each diagonal is looked up only when both orthogonal neighbours next to it
   exist, at the row of the horizontal one and the column of the vertical one. Under the
   grid invariant this is exactly the reference neighbour vector.
   */
  function SurroundingCells(size: int, layout: Layout, x: int, y: int): (r: seq<Option<Cell>>)
    requires WellFormed(size, layout) && InGrid(size, x, y)
    ensures r == NeighbourSlots(size, layout, x, y)
    ensures r[1].Some? <==> r[0].Some? && r[2].Some?
    ensures r[3].Some? <==> r[4].Some? && r[2].Some?
    ensures r[5].Some? <==> r[4].Some? && r[6].Some?
    ensures r[7].Some? <==> r[0].Some? && r[6].Some?
  {
    var top := if y > 0 then Some(layout[y - 1][x]) else None;
    var right := if x < size - 1 then Some(layout[y][x + 1]) else None;
    var bottom := if y < size - 1 then Some(layout[y + 1][x]) else None;
    var left := if x > 0 then Some(layout[y][x - 1]) else None;
    assert top.Some? ==> top.value.x == x;
    assert bottom.Some? ==> bottom.value.x == x;
    assert left.Some? ==> left.value.y == y;
    assert right.Some? ==> right.value.y == y;
    var topLeft := if top.Some? && left.Some? then Some(layout[left.value.y - 1][top.value.x - 1]) else None;
    var topRight := if top.Some? && right.Some? then Some(layout[right.value.y - 1][top.value.x + 1]) else None;
    var bottomRight := if bottom.Some? && right.Some? then Some(layout[right.value.y + 1][bottom.value.x + 1]) else None;
    var bottomLeft := if bottom.Some? && left.Some? then Some(layout[left.value.y + 1][bottom.value.x - 1]) else None;
    [top, topRight, right, bottomRight, bottom, bottomLeft, left, topLeft]
  }

  /** The live cells among the filled slots, in slot order (getLiveNeighbours). */
  function LiveCells(slots: seq<Option<Cell>>): (r: seq<Cell>)
    ensures |r| <= |slots|
    ensures forall k :: 0 <= k < |r| ==> r[k].state == ALIVE
  {
    if slots == [] then []
    else
      var last := slots[|slots| - 1];
      LiveCells(slots[..|slots| - 1]) + (if last.Some? && last.value.state == ALIVE then [last.value] else [])
  }

  /** A cell is among the live cells exactly when it fills a slot and is ALIVE. */
  lemma {:induction false} LiveCellsMembership(slots: seq<Option<Cell>>, c: Cell)
    ensures c in LiveCells(slots) <==> Some(c) in slots && c.state == ALIVE
    decreases |slots|
  {
    if slots != [] {
      var init, last := slots[..|slots| - 1], slots[|slots| - 1];
      LiveCellsMembership(init, c);
      assert slots == init + [last];
    }
  }

  /** Slots are scanned in order: the live cells of a concatenation are concatenated. */
  lemma {:induction false} LiveCellsAppend(a: seq<Option<Cell>>, b: seq<Option<Cell>>)
    ensures LiveCells(a + b) == LiveCells(a) + LiveCells(b)
    decreases |b|
  {
    if b == [] {
      assert a + b == a;
    } else {
      var ab := a + b;
      assert ab[..|ab| - 1] == a + b[..|b| - 1] && ab[|ab| - 1] == b[|b| - 1];
      LiveCellsAppend(a, b[..|b| - 1]);
    }
  }

  // ---------------------------------------------------------------- evolution

  /**
   Conway's rule with colour inheritance, on the live cells of the reference neighbour
   vector: a DEAD cell with exactly three is born with their average colour; a cell that is
   not DEAD survives with its own colour when it has two or three; every other cell is DEAD
   and white. This is the cell that takes the place of `cell` in the next generation.
   */
  function NextCell(size: int, layout: Layout, cell: Cell, averageColor: seq<seq<Number>> -> Hsl): (r: Cell)
    requires WellFormed(size, layout) && InGrid(size, cell.x, cell.y)
    ensures r.x == cell.x && r.y == cell.y
  {
    var live := LiveCells(NeighbourSlots(size, layout, cell.x, cell.y));
    if cell.state == DEAD && |live| == 3 then Cell(cell.x, cell.y, ALIVE, ColorAverage(live, averageColor))
    else if cell.state != DEAD && (|live| == 2 || |live| == 3) then Cell(cell.x, cell.y, ALIVE, cell.color)
    else Cell(cell.x, cell.y, DEAD, WHITE_COLOR_HSL)
  }

  /** Row i of the next generation: every cell of row i evolved against the old layout. */
  function NextRow(size: int, layout: Layout, averageColor: seq<seq<Number>> -> Hsl, i: int): (r: seq<Cell>)
    requires WellFormed(size, layout) && 0 <= i < size
    ensures |r| == size && forall j :: 0 <= j < size ==> r[j].x == j && r[j].y == i
  {
    seq(size, j requires 0 <= j < size => NextCell(size, layout, layout[i][j], averageColor))
  }

  /** The whole next generation, every cell computed from the old layout only. */
  function NextGeneration(size: int, layout: Layout, averageColor: seq<seq<Number>> -> Hsl): (r: Layout)
    requires WellFormed(size, layout)
    ensures WellFormed(size, r)
  {
    seq(size, i requires 0 <= i < size => NextRow(size, layout, averageColor, i))
  }

  /** Every cell of the next generation is ALIVE (1) or DEAD (0), and every DEAD one is white. */
  lemma NextGenerationStates(size: int, layout: Layout, averageColor: seq<seq<Number>> -> Hsl, i: int, j: int)
    requires WellFormed(size, layout) && InGrid(size, j, i)
    ensures var c := NextGeneration(size, layout, averageColor)[i][j];
      (c.state == ALIVE || c.state == DEAD) && (c.state == DEAD ==> c.color == WHITE_COLOR_HSL)
  {
    var c := NextCell(size, layout, layout[i][j], averageColor);
  }

  // ---------------------------------------------------------------- injected cells

  /** A property value as `typeof` sees it: a number (integers only here) or anything else. */
  datatype Field = Numeric(value: int) | NonNumeric

  /** The argument of setCell: not an object (or falsy), or an object with the four properties;
      a missing or non-string colour is `None`. */
  datatype CellInput = NonObject | CellObject(x: Field, y: Field, state: Field, color: Option<string>)

  /** The messages of the errors the engine throws. */
  datatype Error =
    | InvalidData | InvalidCellsArray
    | InvalidCell | InvalidXValue | InvalidYValue | InvalidStateValue | InvalidColorValue

  predicate CoordinateOk(size: int, f: Field) {
    f.Numeric? && 0 <= f.value < size
  }

  predicate StateOk(f: Field) {
    f.Numeric? && (f.value == DEAD || f.value == ALIVE)
  }

  /** `cell.color` is truthy (a non-empty string) and the colour library accepts it. */
  predicate ColorOk(color: Option<string>, isColor: string -> bool) {
    color.Some? && color.value != "" && isColor(color.value)
  }

  /**
   The checks of setCell, in order: each error is reported exactly when its check fails
   and every earlier one passed, and the cell is accepted exactly when all pass.
   */
  function ValidateCell(size: int, input: CellInput, isColor: string -> bool): (r: Result<Cell, Error>)
    ensures r == Failure(InvalidCell) <==> input.NonObject?
    ensures r == Failure(InvalidXValue) <==> input.CellObject? && !CoordinateOk(size, input.x)
    ensures r == Failure(InvalidYValue) <==>
      input.CellObject? && CoordinateOk(size, input.x) && !CoordinateOk(size, input.y)
    ensures r == Failure(InvalidStateValue) <==>
      input.CellObject? && CoordinateOk(size, input.x) && CoordinateOk(size, input.y) && !StateOk(input.state)
    ensures r == Failure(InvalidColorValue) <==>
      input.CellObject? && CoordinateOk(size, input.x) && CoordinateOk(size, input.y) && StateOk(input.state) &&
      !ColorOk(input.color, isColor)
    ensures r.Success? <==>
      input.CellObject? && CoordinateOk(size, input.x) && CoordinateOk(size, input.y) && StateOk(input.state) &&
      ColorOk(input.color, isColor)
    ensures r.Success? ==>
      r.value == Cell(input.x.value, input.y.value, input.state.value, input.color.value) &&
      InGrid(size, r.value.x, r.value.y)
  {
    if input.NonObject? then Failure(InvalidCell)
    else if !input.x.Numeric? || input.x.value < 0 || input.x.value >= size then Failure(InvalidXValue)
    else if !input.y.Numeric? || input.y.value < 0 || input.y.value >= size then Failure(InvalidYValue)
    else if !input.state.Numeric? || (input.state.value != DEAD && input.state.value != ALIVE) then
      Failure(InvalidStateValue)
    else if input.color.None? || input.color.value == "" || !isColor(input.color.value) then
      Failure(InvalidColorValue)
    else Success(Cell(input.x.value, input.y.value, input.state.value, input.color.value))
  }

  /** `layout[c.y][c.x] = c`: that one place changes and nothing else. */
  function Put(layout: Layout, c: Cell): (r: Layout)
    requires 0 <= c.y < |layout| && 0 <= c.x < |layout[c.y]|
    ensures |r| == |layout| && forall i :: 0 <= i < |r| ==> |r[i]| == |layout[i]|
    ensures r[c.y][c.x] == c
    ensures forall i, j {:trigger r[i][j]} :: 0 <= i < |r| && 0 <= j < |r[i]| && (i != c.y || j != c.x) ==> r[i][j] == layout[i][j]
  {
    layout[c.y := layout[c.y][c.x := c]]
  }

  /** A cell written at its own coordinates keeps the grid invariant. */
  lemma PutKeepsWellFormed(size: int, layout: Layout, c: Cell)
    requires WellFormed(size, layout) && InGrid(size, c.x, c.y)
    ensures WellFormed(size, Put(layout, c))
  {
  }

  /** The first rejected cell of a batch: its index and the error. */
  datatype Rejection = Rejection(index: nat, error: Error)

  /** The layout after a batch and the rejection that stopped it, if any. */
  datatype Applied = Applied(layout: Layout, rejected: Option<Rejection>)

  /**
   setCells' loop: the cells are validated and written one after the other; the first that
   fails stops the batch and the cells before it stay written.
   */
  function ApplyCells(size: int, layout: Layout, items: seq<CellInput>, isColor: string -> bool): (r: Applied)
    requires Shaped(size, layout)
    ensures |r.layout| == |layout| && forall i :: 0 <= i < |layout| ==> |r.layout[i]| == |layout[i]|
    ensures WellFormed(size, layout) ==> WellFormed(size, r.layout)
    ensures r.rejected.Some? ==> r.rejected.value.index < |items|
    decreases |items|
  {
    if items == [] then Applied(layout, None)
    else
      var prev := ApplyCells(size, layout, items[..|items| - 1], isColor);
      if prev.rejected.Some? then prev
      else match ValidateCell(size, items[|items| - 1], isColor)
        case Failure(e) => Applied(prev.layout, Some(Rejection(|items| - 1, e)))
        case Success(c) => Applied(Put(prev.layout, c), None)
  }

  /** One cell more, after a prefix that went through: it is validated and, if valid, written. */
  lemma ApplyCellsStep(size: int, layout: Layout, items: seq<CellInput>, isColor: string -> bool, i: nat)
    requires Shaped(size, layout) && i < |items|
    requires ApplyCells(size, layout, items[..i], isColor).rejected.None?
    ensures var prev := ApplyCells(size, layout, items[..i], isColor);
      ApplyCells(size, layout, items[..i + 1], isColor) ==
        match ValidateCell(size, items[i], isColor)
        case Failure(e) => Applied(prev.layout, Some(Rejection(i, e)))
        case Success(c) => Applied(Put(prev.layout, c), None)
  {
    var longer := items[..i + 1];
    assert longer != [] && |longer| - 1 == i && longer[i] == items[i];
    assert longer[..|longer| - 1] == items[..i];
  }

  /** Once a batch is stopped at index i, the later cells do not matter. */
  lemma {:induction false} ApplyCellsStopped(size: nat, layout: Layout, items: seq<CellInput>, isColor: string -> bool, i: nat)
    requires Shaped(size, layout) && i < |items|
    requires ApplyCells(size, layout, items[..i + 1], isColor).rejected.Some?
    ensures ApplyCells(size, layout, items, isColor) == ApplyCells(size, layout, items[..i + 1], isColor)
    decreases |items|
  {
    if |items| > i + 1 {
      var init := items[..|items| - 1];
      assert init[..i + 1] == items[..i + 1];
      ApplyCellsStopped(size, layout, init, isColor, i);
    } else {
      assert items[..i + 1] == items;
    }
  }

  /** A batch goes through exactly when every one of its cells is valid. */
  lemma {:induction false} ApplyCellsAccepted(size: int, layout: Layout, items: seq<CellInput>, isColor: string -> bool)
    requires Shaped(size, layout)
    ensures ApplyCells(size, layout, items, isColor).rejected.None? <==>
      forall k :: 0 <= k < |items| ==> ValidateCell(size, items[k], isColor).Success?
    decreases |items|
  {
    if items != [] {
      var init := items[..|items| - 1];
      ApplyCellsAccepted(size, layout, init, isColor);
      assert forall k :: 0 <= k < |init| ==> init[k] == items[k];
    }
  }

  /**
   Not atomic: a batch stopped at index i is rejected with the error of cell i, every cell
   before i was valid, and the layout is the one the first i cells alone produce.
   */
  lemma {:induction false} ApplyCellsRejected(size: int, layout: Layout, items: seq<CellInput>, isColor: string -> bool)
    requires Shaped(size, layout)
    requires ApplyCells(size, layout, items, isColor).rejected.Some?
    ensures var r := ApplyCells(size, layout, items, isColor);
      var i := r.rejected.value.index;
      && ValidateCell(size, items[i], isColor) == Failure(r.rejected.value.error)
      && (forall k :: 0 <= k < i ==> ValidateCell(size, items[k], isColor).Success?)
      && r.layout == ApplyCells(size, layout, items[..i], isColor).layout
    decreases |items|
  {
    var init := items[..|items| - 1];
    var prev := ApplyCells(size, layout, init, isColor);
    if prev.rejected.Some? {
      ApplyCellsRejected(size, layout, init, isColor);
      var i := prev.rejected.value.index;
      assert init[..i] == items[..i];
      assert forall k :: 0 <= k <= i ==> init[k] == items[k];
    } else {
      ApplyCellsAccepted(size, layout, init, isColor);
      assert forall k :: 0 <= k < |init| ==> init[k] == items[k];
      assert items[..|items| - 1] == init;
    }
  }

  // ---------------------------------------------------------------- examples from the unit tests

  /** On every well-formed 3 x 3 grid, the cell (0, 1) has its top, top-right, right, bottom-right and
      bottom slots filled and the other three empty. */
  lemma EdgeCellSlots(layout: Layout)
    requires WellFormed(3, layout)
    ensures var r := SurroundingCells(3, layout, 0, 1);
      r[0] == Some(layout[0][0]) && r[1] == Some(layout[0][1]) && r[2] == Some(layout[1][1]) &&
      r[3] == Some(layout[2][1]) && r[4] == Some(layout[2][0]) &&
      r[5] == None && r[6] == None && r[7] == None
  {
    var r := SurroundingCells(3, layout, 0, 1);
    assert r[0] == NeighbourSlots(3, layout, 0, 1)[0];
  }

  /** The 3 x 3 layout of the evolution test: the top row ALIVE in colour c, the centre DEAD
      in colour c, every other cell DEAD and white. */
  function BlinkerLayout(c: string): (r: Layout)
    ensures WellFormed(3, r)
  {
    [[Cell(0, 0, ALIVE, c), Cell(1, 0, ALIVE, c), Cell(2, 0, ALIVE, c)],
     [Cell(0, 1, DEAD, WHITE_COLOR_HSL), Cell(1, 1, DEAD, c), Cell(2, 1, DEAD, WHITE_COLOR_HSL)],
     [Cell(0, 2, DEAD, WHITE_COLOR_HSL), Cell(1, 2, DEAD, WHITE_COLOR_HSL), Cell(2, 2, DEAD, WHITE_COLOR_HSL)]]
  }

  /** The live cells of the eight given slots when exactly the listed ones are live. */
  lemma LiveOfEight(s: seq<Option<Cell>>)
    requires |s| == 8
    ensures LiveCells(s) ==
      LiveCells(s[..1]) + LiveCells(s[1..2]) + LiveCells(s[2..3]) + LiveCells(s[3..4]) +
      LiveCells(s[4..5]) + LiveCells(s[5..6]) + LiveCells(s[6..7]) + LiveCells(s[7..])
  {
    assert s == s[..1] + s[1..2] + s[2..3] + s[3..4] + s[4..5] + s[5..6] + s[6..7] + s[7..];
    LiveCellsAppend(s[..1], s[1..2]);
    LiveCellsAppend(s[..1] + s[1..2], s[2..3]);
    LiveCellsAppend(s[..1] + s[1..2] + s[2..3], s[3..4]);
    LiveCellsAppend(s[..1] + s[1..2] + s[2..3] + s[3..4], s[4..5]);
    LiveCellsAppend(s[..1] + s[1..2] + s[2..3] + s[3..4] + s[4..5], s[5..6]);
    LiveCellsAppend(s[..1] + s[1..2] + s[2..3] + s[3..4] + s[4..5] + s[5..6], s[6..7]);
    LiveCellsAppend(s[..1] + s[1..2] + s[2..3] + s[3..4] + s[4..5] + s[5..6] + s[6..7], s[7..]);
  }

  /** The centre of the row has the three top cells as live neighbours, in slot order. */
  lemma BlinkerCentreLive(c: string)
    ensures var layout := BlinkerLayout(c);
      LiveCells(NeighbourSlots(3, layout, 1, 1)) == [layout[0][1], layout[0][2], layout[0][0]]
  {
    LiveOfEight(NeighbourSlots(3, BlinkerLayout(c), 1, 1));
  }

  /** Each end of the row has one live neighbour. */
  lemma BlinkerEndsLive(c: string)
    ensures |LiveCells(NeighbourSlots(3, BlinkerLayout(c), 0, 0))| == 1
    ensures |LiveCells(NeighbourSlots(3, BlinkerLayout(c), 2, 0))| == 1
  {
    LiveOfEight(NeighbourSlots(3, BlinkerLayout(c), 0, 0));
    LiveOfEight(NeighbourSlots(3, BlinkerLayout(c), 2, 0));
  }

  /** The middle of the row has two live neighbours. */
  lemma BlinkerMiddleLive(c: string)
    ensures |LiveCells(NeighbourSlots(3, BlinkerLayout(c), 1, 0))| == 2
  {
    LiveOfEight(NeighbourSlots(3, BlinkerLayout(c), 1, 0));
  }

  /**
   The horizontal row of the evolution test: the centre is born with the average colour of
   its top, top-right and top-left neighbours (in that order), the two ends of the row die,
   and its middle survives with its own colour.
   */
  lemma BlinkerStep(c: string, averageColor: seq<seq<Number>> -> Hsl)
    ensures var layout := BlinkerLayout(c);
      var next := NextGeneration(3, layout, averageColor);
      && next[1][1] == Cell(1, 1, ALIVE, ColorAverage([layout[0][1], layout[0][2], layout[0][0]], averageColor))
      && next[0][0] == Cell(0, 0, DEAD, WHITE_COLOR_HSL)
      && next[0][2] == Cell(2, 0, DEAD, WHITE_COLOR_HSL)
      && next[0][1] == Cell(1, 0, ALIVE, c)
  {
    BlinkerCentreLive(c);
    BlinkerEndsLive(c);
    BlinkerMiddleLive(c);
  }

  /** A batch whose second cell is not an object: the first cell is written anyway. */
  lemma PartialBatch(isColor: string -> bool)
    requires isColor("red")
    ensures var layout := [[Cell(0, 0, DEAD, WHITE_COLOR_HSL)]];
      var items := [CellObject(Numeric(0), Numeric(0), Numeric(ALIVE), Some("red")), NonObject];
      var r := ApplyCells(1, layout, items, isColor);
      r.rejected == Some(Rejection(1, InvalidCell)) && r.layout == [[Cell(0, 0, ALIVE, "red")]]
  {
    var layout := [[Cell(0, 0, DEAD, WHITE_COLOR_HSL)]];
    var items := [CellObject(Numeric(0), Numeric(0), Numeric(ALIVE), Some("red")), NonObject];
    assert items[..1] == [items[0]] && items[..1][..0] == [];
    assert ValidateCell(1, items[0], isColor) == Success(Cell(0, 0, ALIVE, "red"));
    assert ApplyCells(1, layout, [], isColor) == Applied(layout, None);
    var c := Cell(0, 0, ALIVE, "red");
    assert layout[0][0 := c] == [c];
    assert layout[0 := [c]] == [[c]];
    assert Put(layout, c) == [[c]];
    assert ApplyCells(1, layout, items[..1], isColor) == Applied([[Cell(0, 0, ALIVE, "red")]], None);
  }
}
