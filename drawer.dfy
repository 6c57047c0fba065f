/**
 * The placement geometry of the drawer: turning a pointer position into the
 * squares a ship in placement would cover (`HighlightSquares`), and snapping a
 * placed ship to the pixel point it is drawn at (`CenterShipOnGrid`). Each
 * method is specified by a function on values (`Highlight`, `CenterPoint`);
 * the properties of those functions are proved in module PlacementFacts.
 */
module Drawing {
  import opened Grid
  import opened Ships

  /** A pixel position; the centring step works in half pixels, so it is real. */
  datatype Point = Point(x: real, y: real)

  /** The coordinate of `sq` along the placement axis. */
  function Along(sq: Square, o: Orientation): int {
    match o
    case Horizontal => sq.x
    case Vertical => sq.y
  }

  /** The coordinate of `sq` across the placement axis. */
  function Cross(sq: Square, o: Orientation): int {
    match o
    case Horizontal => sq.y
    case Vertical => sq.x
  }

  /** The square with the given along-axis and cross-axis coordinates. */
  function Place(along: int, cross: int, o: Orientation): (sq: Square)
    ensures Along(sq, o) == along && Cross(sq, o) == cross
  {
    match o
    case Horizontal => Square(along, cross)
    case Vertical => Square(cross, along)
  }

  /**
   * The offset of a ship's first square from its anchor square. For even
   * lengths the ship sits one cell further toward the higher coordinates than
   * toward the lower ones: it reaches (length-1)/2 cells before the anchor and
   * length/2 cells after it.
   */
  function FirstOffset(length: int): (t: int)
    ensures 1 <= length ==> -t == (length - 1) / 2 && t + length - 1 == length / 2
  {
    TruncDiv(-(length - 1), 2)
  }

  /** The pixel coordinate of the board origin along the placement axis. */
  function OriginAlong(board: Board, o: Orientation): int {
    match o
    case Horizontal => board.topLeftX
    case Vertical => board.topLeftY
  }

  /** The pixel coordinate of the board origin across the placement axis. */
  function OriginCross(board: Board, o: Orientation): int {
    match o
    case Horizontal => board.topLeftY
    case Vertical => board.topLeftX
  }

  /** The coordinate of a pixel point along the placement axis. */
  function PointAlong(p: Point, o: Orientation): real {
    match o
    case Horizontal => p.x
    case Vertical => p.y
  }

  /** The coordinate of a pixel point across the placement axis. */
  function PointCross(p: Point, o: Orientation): real {
    match o
    case Horizontal => p.y
    case Vertical => p.x
  }

  /**
   * The anchor square under the pointer. Along the placement axis the pointer
   * is first moved back by half a tile; across it, it is taken as it is. The
   * shifted pixel is then converted with the truncating division of the
   * source: from the board edge on, the anchor is the cell containing it
   * (along the axis: the cell whose centre is the last one at or before the
   * pointer); less than one tile before the edge it is still cell 0; a full
   * tile or more before the edge it is a negative cell.
   */
  function Anchor(board: Board, tile: int, o: Orientation, x: int, y: int): (a: Square)
    requires tile > 0
    ensures var along, cross := (if o.Horizontal? then x else y), (if o.Horizontal? then y else x);
      var first := OriginAlong(board, o) + tile / 2;
      && (first <= along ==>
            first + Along(a, o) * tile <= along < first + Along(a, o) * tile + tile)
      && (first - tile < along < first ==> Along(a, o) == 0)
      && (along <= first - tile ==>
            Along(a, o) < 0 && first + Along(a, o) * tile - tile < along <= first + Along(a, o) * tile)
    ensures var cross := if o.Horizontal? then y else x;
      var edge := OriginCross(board, o);
      && (edge <= cross ==>
            edge + Cross(a, o) * tile <= cross < edge + Cross(a, o) * tile + tile)
      && (edge - tile < cross < edge ==> Cross(a, o) == 0)
      && (cross <= edge - tile ==>
            Cross(a, o) < 0 && edge + Cross(a, o) * tile - tile < cross <= edge + Cross(a, o) * tile)
  {
    match o
    case Horizontal =>
      Square(PixelToCell(x - tile / 2, board.topLeftX, tile), PixelToCell(y, board.topLeftY, tile))
    case Vertical =>
      Square(PixelToCell(x, board.topLeftX, tile), PixelToCell(y - tile / 2, board.topLeftY, tile))
  }

  /**
   * The highlight state after the pointer has moved to a position whose anchor
   * is `anchor`, on a board of `size` cells, for a ship of class length
   * `length` whose current state is `sel`. Entry `i` corresponds to offset
   * `FirstOffset(length) + i` from the anchor. When the anchor's cross-axis
   * cell is off the board, every flag is cleared and no square changes;
   * otherwise each candidate on the board is stored and flagged, and each one
   * off the board is unflagged and its old square kept.
   */
  function Highlight(sel: Selection, anchor: Square, o: Orientation, length: int, size: int): (r: Selection)
    requires |sel.squares| == |sel.active|
    ensures |r.squares| == |sel.squares| && |r.active| == |sel.active|
  {
    if !InRange(Cross(anchor, o), size) then
      Selection(sel.squares, Deselected(sel.active))
    else
      var t := FirstOffset(length);
      Selection(
        seq(|sel.squares|, i requires 0 <= i < |sel.squares| =>
          var c := Along(anchor, o) + t + i;
          if InRange(c, size) then Place(c, Cross(anchor, o), o) else sel.squares[i]),
        seq(|sel.active|, i => InRange(Along(anchor, o) + t + i, size)))
  }

  /**
   * Entry `i` of a highlight: with the cross-axis cell on the board, its flag
   * says whether candidate `along + FirstOffset(length) + i` is on the board, and
   * its square is that candidate when it is, the old square when it is not;
   * with the cross-axis cell off the board, the flag is cleared and the square kept.
   */
  lemma HighlightAt(sel: Selection, anchor: Square, o: Orientation, length: int, size: int, i: int)
    requires |sel.squares| == |sel.active| && 0 <= i < |sel.squares|
    ensures var r := Highlight(sel, anchor, o, length, size);
      var c := Along(anchor, o) + FirstOffset(length) + i;
      if InRange(Cross(anchor, o), size) then
        && r.active[i] == InRange(c, size)
        && r.squares[i] == (if InRange(c, size) then Place(c, Cross(anchor, o), o) else sel.squares[i])
      else
        !r.active[i] && r.squares[i] == sel.squares[i]
  {
  }

  /**
   * The pixel point a placed ship is drawn at: the square at index length/2 is
   * the pivot; across the placement axis the point is the middle of the pivot's
   * cell, along it the pivot cell's start plus half a tile for odd lengths only.
   * The point always lies in the pivot square's tile.
   */
  function CenterPoint(board: Board, tile: int, o: Orientation, length: nat, squares: seq<Square>): (p: Point)
    requires length / 2 < |squares|
    ensures var pivot := squares[length / 2];
      0 <= tile ==>
        && (board.topLeftX + pivot.x * tile) as real <= p.x <= (board.topLeftX + pivot.x * tile + tile) as real
        && (board.topLeftY + pivot.y * tile) as real <= p.y <= (board.topLeftY + pivot.y * tile + tile) as real
  {
    var pivot := squares[length / 2];
    var halfTile := 0.5 * tile as real;
    var adjustHalf := (length % 2) as real * halfTile;
    assert 0.0 <= tile as real ==> 0.0 <= halfTile <= adjustHalf + halfTile <= tile as real by {
      assert length % 2 == 0 || length % 2 == 1;
    }
    match o
    case Horizontal =>
      Point(board.topLeftX as real + (pivot.x * tile) as real + adjustHalf,
            board.topLeftY as real + (pivot.y * tile) as real + halfTile)
    case Vertical =>
      Point(board.topLeftX as real + (pivot.x * tile) as real + halfTile,
            board.topLeftY as real + (pivot.y * tile) as real + adjustHalf)
  }

  class Drawer {
    const board: Board
    /** The tile edge in pixels. */
    const tileSize: int

    /** Placement divides pixel distances by the tile size. */
    predicate Valid() {
      tileSize > 0
    }

    /** Only the derivation of the tile size is modelled. */
    constructor (board: Board, dimension: int)
      requires board.size > 0
      ensures this.board == board && tileSize == TileSize(dimension, board.size)
      ensures board.size <= dimension ==> Valid()
    {
      this.board := board;
      tileSize := TileSize(dimension, board.size);
    }

    /**
     * Recomputes the squares ship `s` would cover with the pointer at (x, y),
     * and which of them are on the board.
     */
    method HighlightSquares(x: int, y: int, s: Ship)
      requires Valid() && s.Valid()
      modifies s.onSquares, s.activeSquares
      ensures s.Current() == Highlight(old(s.Current()), Anchor(board, tileSize, s.orientation, x, y),
                                       s.orientation, s.length, board.size)
    {
      var length: int := s.length;
      var j := TruncDiv(-(length - 1), 2);
      var o := s.orientation;
      ghost var anchor := Anchor(board, tileSize, o, x, y);
      ghost var r := Highlight(s.Current(), anchor, o, length, board.size);
      match o
      case Horizontal =>
        var tempX := PixelToCell(x - tileSize / 2, board.topLeftX, tileSize);
        var tempY := PixelToCell(y, board.topLeftY, tileSize);
        assert Along(anchor, o) == tempX && Cross(anchor, o) == tempY;
        if tempY >= 0 && tempY < board.size {
          for i := 0 to s.onSquares.Length
            invariant j == FirstOffset(length) + i
            invariant forall k :: 0 <= k < i ==> s.onSquares[k] == r.squares[k] && s.activeSquares[k] == r.active[k]
            invariant forall k :: i <= k < s.onSquares.Length ==>
              s.onSquares[k] == old(s.onSquares[k]) && s.activeSquares[k] == old(s.activeSquares[k])
          {
            HighlightAt(old(s.Current()), anchor, o, length, board.size, i);
            if tempX + j >= 0 && tempX + j < board.size {
              s.onSquares[i] := Square(tempX + j, tempY);
              s.activeSquares[i] := true;
            } else {
              s.activeSquares[i] := false;
            }
            j := j + 1;
          }
        } else {
          s.DeselectSquares();
        }
      case Vertical =>
        var tempX := PixelToCell(x, board.topLeftX, tileSize);
        var tempY := PixelToCell(y - tileSize / 2, board.topLeftY, tileSize);
        assert Along(anchor, o) == tempY && Cross(anchor, o) == tempX;
        if tempX >= 0 && tempX < board.size {
          for i := 0 to s.onSquares.Length
            invariant j == FirstOffset(length) + i
            invariant forall k :: 0 <= k < i ==> s.onSquares[k] == r.squares[k] && s.activeSquares[k] == r.active[k]
            invariant forall k :: i <= k < s.onSquares.Length ==>
              s.onSquares[k] == old(s.onSquares[k]) && s.activeSquares[k] == old(s.activeSquares[k])
          {
            HighlightAt(old(s.Current()), anchor, o, length, board.size, i);
            if tempY + j >= 0 && tempY + j < board.size {
              s.onSquares[i] := Square(tempX, tempY + j);
              s.activeSquares[i] := true;
            } else {
              s.activeSquares[i] := false;
            }
            j := j + 1;
          }
        } else {
          s.DeselectSquares();
        }
    }

    /**
     * Moves ship `s` to the pixel point its squares are centred on. The body
     * keeps the source's step-by-step shape on purpose; its postcondition ties
     * it to `CenterPoint`, which the lemmas are stated about.
     */
    method CenterShipOnGrid(s: Ship)
      requires s.length / 2 < s.onSquares.Length
      modifies s`posX, s`posY
      ensures Point(s.posX, s.posY) == CenterPoint(board, tileSize, s.orientation, s.length, s.onSquares[..])
    {
      var tempAdjust := s.length / 2;
      var halfTile := 0.5 * tileSize as real;
      var tempAdjustHalf := (s.length % 2) as real * halfTile;
      var x: real, y: real;
      match s.orientation {
        case Horizontal =>
          x := board.topLeftX as real + (s.onSquares[tempAdjust].x * tileSize) as real + tempAdjustHalf;
          y := board.topLeftY as real + (s.onSquares[tempAdjust].y * tileSize) as real + halfTile;
        case Vertical =>
          x := board.topLeftX as real + (s.onSquares[tempAdjust].x * tileSize) as real + halfTile;
          y := board.topLeftY as real + (s.onSquares[tempAdjust].y * tileSize) as real + tempAdjustHalf;
      }
      s.Move(x, y);
    }
  }
}
