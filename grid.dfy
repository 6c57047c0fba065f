/**
 * Grid geometry of the placement board: Java's truncating integer division,
 * the pixel-to-cell conversion built on it, and the value types the placement
 * code passes around (orientation, grid squares, the read-only board metadata).
 */
module Grid {

  /** Direction along which a ship extends. */
  datatype Orientation = Horizontal | Vertical

  /** One cell of the grid, by column `x` and row `y`. */
  datatype Square = Square(x: int, y: int)

  /**
   * The read-only part of the board the placement code consults: the pixel
   * position of its top-left corner and its size in cells (the board is square).
   */
  datatype Board = Board(topLeftX: int, topLeftY: int, size: int)

  /** True when `v` is a valid cell index on a board of `size` cells. */
  predicate InRange(v: int, size: int) {
    0 <= v < size
  }

  /** True when both coordinates of `sq` are valid on a board of `size` cells. */
  predicate OnBoard(sq: Square, size: int) {
    InRange(sq.x, size) && InRange(sq.y, size)
  }

  /**
   * Java's `a / b` on `int` for a positive divisor: the quotient is truncated
   * toward zero (Dafny's own `/` is Euclidean and rounds negative quotients down).
   */
  function TruncDiv(a: int, b: int): (q: int)
    requires b > 0
    ensures 0 <= a ==> 0 <= q && q * b <= a < q * b + b
    ensures a < 0 ==> q <= 0 && q * b - b < a <= q * b
  {
    if a >= 0 then a / b else -((-a) / b)
  }

  /**
   * The cell index a pixel falls in, measured from the board origin, with the
   * truncating division of the source: pixels at or after the origin land in the
   * tile that contains them, pixels less than one tile before the origin are also
   * mapped to cell 0, and only pixels a full tile or more before it go negative.
   */
  function PixelToCell(pixel: int, origin: int, tile: int): (c: int)
    requires tile > 0
    ensures origin <= pixel ==> origin + c * tile <= pixel < origin + c * tile + tile
    ensures origin - tile < pixel < origin ==> c == 0
    ensures pixel <= origin - tile ==> c < 0 && origin + c * tile - tile < pixel <= origin + c * tile
  {
    TruncDiv(pixel - origin, tile)
  }

  /**
   * The tile edge in pixels, derived once from the board's pixel width and its
   * size in cells: the largest whole tile such that `size` tiles fit the width.
   */
  function TileSize(dimension: int, size: int): (t: int)
    requires size > 0
    ensures 0 <= dimension ==> 0 <= t && t * size <= dimension < t * size + size
    ensures size <= dimension ==> t >= 1
  {
    TruncDiv(dimension, size)
  }
}
