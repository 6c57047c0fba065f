/**
 * The placement-relevant part of a ship: its orientation, the length of its
 * ship class, the squares it covers (co-indexed with a flag saying which of
 * them the current highlight accepted) and the position it was last moved to.
 * Only the two operations the placement code calls are modelled, as the
 * contracts it relies on: `DeselectSquares` and `Move`.
 */
module Ships {
  import opened Grid

  /** The abstract value of a ship's highlight state: its squares and their flags. */
  datatype Selection = Selection(squares: seq<Square>, active: seq<bool>)

  /** The same flags, all cleared. */
  function Deselected(active: seq<bool>): (r: seq<bool>)
    ensures |r| == |active|
    ensures forall i :: 0 <= i < |r| ==> !r[i]
  {
    seq(|active|, _ => false)
  }

  class Ship {
    var orientation: Orientation
    /** The length of the ship's class, in cells. */
    const length: nat
    /** The squares the ship covers, in order along its placement axis. */
    const onSquares: array<Square>
    /** `activeSquares[i]` says whether `onSquares[i]` was accepted by the last highlight. */
    const activeSquares: array<bool>
    /** The pixel position recorded by the last `Move`. */
    var posX: real
    var posY: real

    /** One square and one flag per cell of the ship's class. */
    ghost predicate Valid() {
      onSquares.Length == length && activeSquares.Length == length
    }

    ghost function Current(): Selection
      reads onSquares, activeSquares
    {
      Selection(onSquares[..], activeSquares[..])
    }

    constructor (length: nat, orientation: Orientation)
      ensures Valid() && this.length == length && this.orientation == orientation
      ensures fresh(onSquares) && fresh(activeSquares)
      ensures forall i :: 0 <= i < length ==> !activeSquares[i]
    {
      this.length := length;
      this.orientation := orientation;
      onSquares := new Square[length](_ => Square(0, 0));
      activeSquares := new bool[length](_ => false);
    }

    /** Clears every flag and leaves the stored squares as they were. */
    method DeselectSquares()
      modifies activeSquares
      ensures activeSquares[..] == Deselected(old(activeSquares[..]))
    {
      forall i | 0 <= i < activeSquares.Length {
        activeSquares[i] := false;
      }
    }

    /** Records the pixel position the ship is drawn at. */
    method Move(x: real, y: real)
      modifies this`posX, this`posY
      ensures posX == x && posY == y
    {
      posX, posY := x, y;
    }
  }
}
