/** Cells and the two-dimensional grid of a canvas, indexed `g[x][y]`. */
module Grid {

  /** An RGB triple. The write path accepts any integers: no range is enforced. */
  datatype Color = Color(r: int, g: int, b: int)

  const Black := Color(0, 0, 0)

  /** A grid as a value: `nx` columns, each of `ny` cells. */
  type Pixels = seq<seq<Color>>

  /** `g` has exactly `nx` columns of `ny` cells each. */
  predicate IsGrid(g: Pixels, nx: nat, ny: nat)
  {
    |g| == nx && forall x :: 0 <= x < nx ==> |g[x]| == ny
  }

  /** The coordinate test the write handler applies before writing. */
  predicate InBounds(x: int, y: int, nx: nat, ny: nat)
  {
    0 <= x < nx && 0 <= y < ny
  }

  /** The grid of a new canvas: every cell black. */
  function Blank(nx: nat, ny: nat): (g: Pixels)
    ensures IsGrid(g, nx, ny)
    ensures forall x, y :: InBounds(x, y, nx, ny) ==> g[x][y] == Black
  {
    seq(nx, _ => seq(ny, _ => Black))
  }

  /** The grid after one cell is overwritten: only `(x, y)` changes, and it becomes `c`. */
  function Paint(g: Pixels, nx: nat, ny: nat, x: int, y: int, c: Color): (h: Pixels)
    requires IsGrid(g, nx, ny) && InBounds(x, y, nx, ny)
    ensures IsGrid(h, nx, ny)
    ensures h[x][y] == c
    ensures forall i, j :: InBounds(i, j, nx, ny) && (i != x || j != y) ==> h[i][j] == g[i][j]
  {
    g[x := g[x][y := c]]
  }
}
