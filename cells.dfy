/** The cell record of the world grid and the constants of lib/world.js. */
module Cells {

  /** A cell `{x, y, state, color}`; the state is the number the source stores (0 or 1 when well formed). */
  datatype Cell = Cell(x: int, y: int, state: int, color: string)

  const DEAD: int := 0
  const ALIVE: int := 1

  /** The colour every dead cell carries. */
  const WHITE_COLOR_HSL: string := "hsl(360, 100%, 100%)"
}
