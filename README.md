# Game-of-Life world engine, modelled in Dafny

This project models the simulation engine of a Game-of-Life world server. The engine keeps
a square grid of cells. Every cell has coordinates, a state (DEAD = 0, ALIVE = 1) and an
`hsl(H, S%, L%)` colour. On each tick the engine applies Conway's rule, and a newborn cell
takes the average colour of its live neighbours. External clients inject cells, and each
injected cell is validated in a fixed order. The colour-text helpers and the flattening of
a row/column diff into a list of changed cells are modelled too.

Files and modules:

- `js.dfy` (`Js`): the JavaScript built-ins the engine relies on. These are unary `+` on a
  string (`ToNumber`), the text of an integer (`IntToString`), `split` with one separator
  character, and `replace` of the first match of a literal pattern (`RemoveFirst`).
- `cells.dfy` (`Cells`): the cell record and the constants `DEAD`, `ALIVE` and the white
  colour of dead cells.
- `util.dfy` (`Util`): `hslArrayToString`, `hslStringToArray` and their round trip,
  `colorAverage`, and `jsonDiffToCells`. The outer for-in loop is `JsonDiffToCells`; the
  inner one over a row's entries is `PushRowCells`. `JsonDiffToCells` is proved against the
  function `DiffCells`, and `PushRowCells` against the function `EntryCells` of one row.
- `life.dfy` (`Life`): the read-only logic of `World`, stated over a grid value. It holds
  the neighbour vector (`SurroundingCells`, and the reference `NeighbourSlots`), Conway's
  rule (`NextCell`), the next generation, cell validation, the single-cell write and the
  batch of writes. `NextGeneration` and `ApplyCells` are the specifications that the
  methods of `World` are proved against.
- `world.dfy` (`World`): class `World`, with fields `size`, `layout` and `evolvedAt`. Its
  methods are `Setup`, `GetLiveNeighbours`, `EvolveCell`, `Evolve` and `SetCell`, plus
  `SetCells`. The inner loop of `evolve` is `EvolveRow`, and the loop of `setCells` over
  `setCell` is `WriteCells`.
- `wrappers.dfy` (`Wrappers`): `Option` and `Result`.

The grid invariant `WellFormed(size, layout)` says that `layout` has `size` rows of `size`
cells, and that `layout[i][j]` has `x = j` and `y = i`. The source's `getSurroundingCells`
finds the diagonal neighbours from the `y` of the horizontal neighbour and the `x` of the
vertical one. `Life.SurroundingCells` follows it and proves that, under the invariant, this
gives exactly the reference vector `NeighbourSlots`: slot k holds the cell at offset
`(DX[k], DY[k])`, or `None` outside the grid.

Where the code departs from what its unit tests expect, the model follows the code:

- `setup` does not seed from a smaller stored layout. A stored layout is adopted only when
  its row count equals `size`. Any other layout is thrown away and a fresh grid is built.
  The unit test at test/unit/world.test.js:210-227 expects the live cells of a smaller
  layout to be carried over. `World.SetupOfStoredLayouts` shows what the code does.

Other behaviour of the code that the model keeps:

- `setCells` is not atomic. The cells before the failing one stay written.
  `Life.ApplyCellsRejected` and `Life.PartialBatch` state this.
- The neighbour vector always has 8 slots, with empty slots at the edges. The unit tests
  at test/unit/world.test.js:270 and 304 compare the length with `Math.pow(2, config.size)`,
  which is 8 when the configured size is 3.
- The change set is whatever the diff library reports for the two whole layouts.

## Model

| member | source | states |
|---|---|---|
| World.World.constructor | lib/world.js:24-35 | the size is fixed at construction; there is no layout and no evolution time yet |
| World.World.Setup | lib/world.js:102-118 | a stored layout with exactly `size` rows is adopted unchanged; every other case (none, fewer rows, more rows) gives a `size × size` grid of DEAD white cells with `x = j`, `y = i`, which satisfies the grid invariant |
| World.SetupOfStoredLayouts | lib/world.js:104-116 | the setup tests on a 3 × 3 world: a same-size stored layout keeps its live cell at (0, 0), and the layout with one row removed loses it (the code disagrees with the test's expectation) |
| Life.SurroundingCells | lib/world.js:195-242 | always 8 slots in the order top, top-right, right, bottom-right, bottom, bottom-left, left, top-left; a slot is empty exactly when its coordinate is outside the grid; a diagonal slot is filled exactly when both orthogonal slots next to it are filled |
| Life.EdgeCellSlots | test/unit/world.test.js:298-315 | for cell (0, 1) of a 3 × 3 grid, slots 0 to 4 hold the expected cells and slots 5 to 7 are empty |
| Life.LiveCells | lib/world.js:181-189 | the kept cells number at most the slots (at most 8 for a neighbour vector), and every kept cell is ALIVE |
| Life.LiveCellsMembership | lib/world.js:181-189 | a cell is kept exactly when it fills one of the slots and is ALIVE |
| Life.LiveCellsAppend | lib/world.js:181-189 | the slots are scanned in order, so the kept cells keep the slot order |
| World.World.GetLiveNeighbours | lib/world.js:176-193 | the loop returns the live cells of the reference neighbour vector, in slot order, at most 8 of them |
| Life.NextCell | lib/world.js:153-174 | the reference statement of Conway's rule on the reference neighbour vector; the coordinates are kept |
| World.World.EvolveCell | lib/world.js:153-174 | coordinates are kept; a DEAD cell with exactly 3 live neighbours (counted by `GetLiveNeighbours`) becomes ALIVE with their average colour; a non-DEAD cell with 2 or 3 stays ALIVE with its own colour; every other cell becomes DEAD and white; the result is the reference `NextCell` |
| Life.NextRow | lib/world.js:136-139 | row i of the next generation has `size` cells, cell j at x = j, y = i |
| World.World.EvolveRow | lib/world.js:136-139 | the inner loop builds exactly row i of the next generation |
| Life.NextGeneration | lib/world.js:133-140 | the next generation, computed cell by cell from the old layout only, keeps the size and the grid invariant |
| Life.NextGenerationStates | lib/world.js:157-170 | every cell of a next generation is ALIVE or DEAD, and every DEAD one is white |
| Life.BlinkerStep | test/unit/world.test.js:580-612 | on the test's 3 × 3 horizontal row, (1,1) is born with the average colour of (1,0), (2,0), (0,0) in that order, (0,0) and (2,0) die, and (1,0) survives with its colour |
| World.World.Evolve | lib/world.js:131-151 | the layout is replaced wholesale by the next generation of the old one; the invariant holds; `evolvedAt` becomes the given time; the payload carries the diff's cells and that time |
| Life.ValidateCell | lib/world.js:244-260 | INVALID_CELL, INVALID_X_VALUE, INVALID_Y_VALUE, INVALID_STATE_VALUE, INVALID_COLOR_VALUE are each reported exactly when their check fails and all earlier checks pass; the cell is accepted exactly when all checks pass, with coordinates inside the grid |
| Life.Put | lib/world.js:262 | the write changes `layout[y][x]` to the cell and no other place; the shape is unchanged |
| Life.PutKeepsWellFormed | lib/world.js:262 | writing a cell at its own coordinates keeps the grid invariant |
| World.World.SetCell | lib/world.js:244-264 | a rejected cell leaves the layout untouched and reports the first failed check; an accepted one is written at `layout[y][x]` only; the grid invariant is kept |
| Life.ApplyCells | lib/world.js:276-281 | a batch keeps the grid's shape and invariant; a rejection names an index inside the batch |
| Life.ApplyCellsStep | lib/world.js:279-281 | after a prefix that went through, the next cell is validated; a rejection stops the batch at its index, and an accepted cell is written |
| Life.ApplyCellsStopped | lib/world.js:279-281 | once a batch is stopped at index i, the cells after i make no difference |
| World.World.WriteCells | lib/world.js:279-281 | the loop calling setCell leaves the layout and the rejection that the batch specification gives |
| Life.ApplyCellsAccepted | lib/world.js:279-281 | a batch goes through exactly when every cell in it is valid |
| Life.ApplyCellsRejected | lib/world.js:279-281 | a batch stopped at index i reports the error of cell i; cells 0 to i-1 were valid and stay written, as if the batch had been cut after them |
| Life.PartialBatch | lib/world.js:279-281 | a batch of a valid cell followed by a non-object is rejected at index 1 and the first cell is still written |
| World.World.SetCells | lib/world.js:266-285 | INVALID_DATA for a non-object and INVALID_CELLS_ARRAY for a non-array or empty `cells`, both leaving the layout unchanged; otherwise the layout is that of the batch applied in order, and it reports the first rejection or gives the payload with the request's cells and the unchanged `evolvedAt` |
| Util.HslArrayToString | lib/util.js:32-34 | the template `hsl(${h}, ${s}%, ${l}%)`; `Util.HslRoundTrip` proves that parsing its text gives back the components |
| Js.IntToString | lib/util.js:33 | the text `${n}` of a safe integer: non-empty, ending in a digit, and made of digits after an optional leading minus sign; `Js.IntToStringRoundTrip` proves that unary `+` reads it back |
| Js.ToNumber | lib/util.js:28 | unary `+` on a string: a text that is empty or all white space is 0, and a text it does not evaluate as a safe integer is kept trimmed and non-empty; `Js.IntToStringRoundTrip` proves that it inverts `IntToString` with white space in front |
| Js.RemoveFirst | lib/util.js:28 | `replace` of the first match of a literal pattern with the empty text; `Js.RemoveFirstNoMatch` and `Js.RemoveFirstLeftmost` state its two cases |
| Js.RemoveFirstNoMatch | lib/util.js:28 | a text in which the pattern occurs nowhere is left unchanged |
| Js.RemoveFirstLeftmost | lib/util.js:28 | when no occurrence starts before a given one, that occurrence is the one removed, and the text around it is kept |
| Js.RemoveFirstAbsent | lib/util.js:28 | a special case of `RemoveFirstNoMatch`: a text that does not contain the pattern's first character is left unchanged |
| Js.RemoveFirstMatch | lib/util.js:28 | a special case of `RemoveFirstLeftmost`: when the text before an occurrence holds no copy of the pattern's first character, that occurrence is removed and the text around it is kept (for the one-character patterns `%` and `)`, this is exactly the first occurrence) |
| Util.StripHslSyntax | lib/util.js:28 | the three replaces of one piece (`hsl(`, then `%`, then `)`); `Util.HslRoundTrip` proves that every piece of a formatted colour then reads back as its component |
| Util.HslStringToArray | lib/util.js:26-30 | one number per comma-separated piece, that is one more than the number of commas |
| Util.HslPieces | lib/util.js:32-34 | the formatted text splits into exactly the pieces `hsl(H`, ` S%` and ` L%)` |
| Util.HslRoundTrip | lib/util.js:25-34 | parsing the formatted text of integer components gives back exactly those components |
| Util.WhiteIsCanonical | lib/world.js:14 | the dead-cell colour is exactly the canonical text of (360, 100, 100), so `HslRoundTrip` parses it back to those components |
| Util.ColorAverage | lib/util.js:15-23 | the colours of the cells are parsed, averaged by the library and formatted; `Util.ColorAverageRoundTrip` states what the result is |
| Util.ColorAverageRoundTrip | lib/util.js:15-23 | the average colour is canonical `hsl(H, S%, L%)` text, and it parses back to the three components the averaging library returns for the parsed colours of the cells |
| Util.PushRowCells | lib/util.js:48-55 | the inner loop appends exactly the cells of the row's object entries, in key order, to the cells already collected |
| Util.JsonDiffToCells | lib/util.js:36-61 | returns no cells for a falsy diff; otherwise the two nested loops produce exactly the row-by-row list of cells of the object entries |
| Util.EntryCellsCount | lib/util.js:48-55 | a row yields one cell per cell-delta entry and no more |
| Util.EntryCellsMembership | lib/util.js:48-55 | a row's cells are exactly the cells made from its delta entries (`y` from the row key, `x` from the entry key, the new `state` and `color`); primitive entries are skipped |
| Util.EntryCellsSnoc | lib/util.js:48-55 | visiting one more entry appends its cell, if the entry is an object, and nothing else |
| Util.RowsCellsSnoc | lib/util.js:44-57 | visiting one more row appends that row's cells |
| Util.RowsCellsMembership | lib/util.js:44-57 | the diff's cells are exactly the cells of the delta entries of its object rows; primitive rows give none |
| Util.EntryCellsAppend | lib/util.js:48-55 | entries are visited in key order: the cells of concatenated entries are concatenated |
| Util.RowsCellsAppend | lib/util.js:44-57 | rows are visited in key order: the cells of concatenated rows are concatenated |
| Js.Split | lib/util.js:27 | `split(',')` gives one more piece than there are commas, and no piece holds a comma |
| Js.SplitJoin | lib/util.js:27 | joining the pieces with the separator gives back the text |
| Js.IntToStringRoundTrip | lib/util.js:28-33 | converting the text of a safe integer back to a number, with white space in front, gives that integer |

## Left out

- Redis persistence is left out. This covers the client built in the constructor,
  `loadLayout`, `saveLayout` and `exit` (lib/world.js:19, 33, 57-100). `removeLayout` and
  `stop`, which the unit tests call, are not defined in lib/world.js.
- `start` and `begin`, the start-up sequence and the timer loop (lib/world.js:37-55,
  120-129), are asynchronous I/O and are left out. So are `refreshInterval` and the
  WORLD_STARTED event. `Date.now()` becomes the `now` parameter of `Evolve`.
- Event emission is left out. The EVOLUTION and CELLS_UPDATED payloads are returned by
  `Evolve` and `SetCells` instead of being published.
- The `is-color` and `average-color` libraries are the function fields `isColor` and
  `averageColor` of `World`.
- `averageColor` is typed to return integer components. Fractional averages are not
  modelled. Its result on an empty list is whatever the function gives; `EvolveCell` only
  calls it with three cells.
- `ipToColor` and the `randomcolor` library are left out.
- `cellsDiff` is left out. Line lib/util.js:65 uses the name `jsondiffpatch`, which the file
  never binds, so as written the call would raise a ReferenceError before `evolve` replaces
  the layout. `Evolve` takes the diff of two layouts as its parameter `delta` and models the
  intended behaviour.
- Entries that `EntryDelta` cannot express are left out. `null`, and an inner object with
  no `state` or no `color`, make lib/util.js:53 throw a TypeError. An inner object whose
  `state` or `color` is present but is not an array of two or more elements is read without
  error, and the pushed cell gets whatever index 1 yields, usually `undefined`.
- A diff cell keeps its row key and column key as text. Its coordinates `y()` and `x()`
  are those texts converted by `Js.ToNumber`, which is what `+k` and `+ik` compute.
- Non-integer numbers are left out. `Field` holds only integers, so NaN and fractional `x`,
  `y` or `state` values are not modelled. NaN passes the source's range checks.
- A colour that is truthy but not a string is modelled as missing (`None`).
- Js.ToNumber: trailing white space is removed by the `Trim` in its body, but no lemma
  states that for an integer text.
- `Js.ToNumber` evaluates only optionally signed decimal integers in the safe range, and
  the empty text, which is 0. Every other text (fractions such as `89.09`, exponents,
  hexadecimal, Infinity, NaN) is kept unevaluated as `Unmodelled`. The round trip is stated
  for integer components only.
- `Js.IntToString` covers only safe integers. JavaScript's exponent notation for huge
  numbers is not modelled.
- The layout is a value (`seq<seq<Cell>>`) that methods reassign. Aliasing of row arrays is
  not modelled. Neither is the sharing of the caller's cell object, which `setCell` stores
  as it is.
- The source's `null` layout before `setup` is the empty layout. A stored value that is not
  an array of rows of cells is not modelled.
- Life.SurroundingCells: requires the grid invariant and in-range coordinates. The
  diagonal lookup trusts the x and y stored in the neighbouring cells (lib/world.js:220-238).
  On an adopted layout whose cells carry other coordinates, or for a coordinate outside the
  grid, the source reads the wrong cells, reads `undefined` or throws. The model does not
  follow it there.
- World.World.Evolve: requires the grid invariant, for the same reason.
- World.World.GetLiveNeighbours: requires the grid invariant, for the same reason.
- World.World.EvolveCell: requires the grid invariant, for the same reason.
- World.World.SetCell: requires a `size × size` layout. Before `setup`, the source runs its
  checks as usual and throws a TypeError only at the write itself (lib/world.js:262), once a
  cell has passed them all. `setup` also adopts a stored layout with `size` rows of another
  width (lib/world.js:104); the source then writes into it without an error, and the model
  does not cover that layout. The server accepts requests only once the world has started
  (lib/server.js:22), that is after `setup`.
- World.World.SetCells: requires a `size × size` layout, for the same reason as `SetCell`.
- World.World.WriteCells: requires a `size × size` layout, for the same reason as `SetCell`.
- Transport (lib/server.js), signal handling (lib/process-events.js) and bootstrap
  (index.js) are I/O glue and are left out.
