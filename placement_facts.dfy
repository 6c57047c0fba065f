/**
 * Properties of the placement geometry: what a highlight leaves on the ship
 * (bounds, the run of consecutive squares, what is kept when the pointer is
 * off the board, that a repeated highlight changes nothing), where a placed
 * ship is centred, and worked examples.
 */
module PlacementFacts {
  import opened Grid
  import opened Ships
  import opened Drawing

  /** The offsets from the anchor for ships of length 4, 3 and 2. */
  lemma FirstOffsetExamples()
    ensures FirstOffset(4) == -1 && FirstOffset(3) == -1 && FirstOffset(2) == 0
  {
  }

  /**
   * A pointer whose cross-axis cell is off the board clears every flag and
   * writes no square.
   */
  lemma HighlightOffBoardDeselects(sel: Selection, anchor: Square, o: Orientation, length: int, size: int)
    requires |sel.squares| == |sel.active|
    requires !InRange(Cross(anchor, o), size)
    ensures var r := Highlight(sel, anchor, o, length, size);
      r.squares == sel.squares && forall i :: 0 <= i < |r.active| ==> !r.active[i]
  {
  }

  /** Every flagged square of a highlight lies on the board. */
  lemma HighlightActiveOnBoard(sel: Selection, anchor: Square, o: Orientation, length: int, size: int)
    requires |sel.squares| == |sel.active|
    ensures var r := Highlight(sel, anchor, o, length, size);
      forall i :: 0 <= i < |r.active| && r.active[i] ==> OnBoard(r.squares[i], size)
  {
    var r := Highlight(sel, anchor, o, length, size);
    forall i | 0 <= i < |r.active| && r.active[i]
      ensures OnBoard(r.squares[i], size)
    {
      HighlightAt(sel, anchor, o, length, size, i);
    }
  }

  /**
   * The flagged squares of a highlight share the anchor's cross-axis cell and
   * are consecutive along the placement axis in index order.
   */
  lemma HighlightRunIsConsecutive(sel: Selection, anchor: Square, o: Orientation, length: int, size: int)
    requires |sel.squares| == |sel.active|
    ensures var r := Highlight(sel, anchor, o, length, size);
      forall i, k :: 0 <= i <= k < |r.active| && r.active[i] && r.active[k] ==>
        && Cross(r.squares[k], o) == Cross(anchor, o)
        && Along(r.squares[k], o) == Along(r.squares[i], o) + (k - i)
  {
    var r := Highlight(sel, anchor, o, length, size);
    forall i, k | 0 <= i <= k < |r.active| && r.active[i] && r.active[k]
      ensures Cross(r.squares[k], o) == Cross(anchor, o)
      ensures Along(r.squares[k], o) == Along(r.squares[i], o) + (k - i)
    {
      HighlightAt(sel, anchor, o, length, size, i);
      HighlightAt(sel, anchor, o, length, size, k);
    }
  }

  /** The flagged entries of a highlight form one unbroken range of indices. */
  lemma HighlightActiveIsInterval(sel: Selection, anchor: Square, o: Orientation, length: int, size: int)
    requires |sel.squares| == |sel.active|
    ensures var r := Highlight(sel, anchor, o, length, size);
      forall i, m, k :: 0 <= i < m < k < |r.active| && r.active[i] && r.active[k] ==> r.active[m]
  {
    var r := Highlight(sel, anchor, o, length, size);
    forall i, m, k | 0 <= i < m < k < |r.active| && r.active[i] && r.active[k]
      ensures r.active[m]
    {
      HighlightAt(sel, anchor, o, length, size, i);
      HighlightAt(sel, anchor, o, length, size, m);
      HighlightAt(sel, anchor, o, length, size, k);
    }
  }

  /**
   * The flags a highlight leaves depend only on the pointer, not on the state
   * it started from, and so do the squares it flags: the latest pointer move
   * supersedes every earlier one.
   */
  lemma HighlightSupersedes(sel1: Selection, sel2: Selection, anchor: Square, o: Orientation, length: int, size: int)
    requires |sel1.squares| == |sel1.active| == |sel2.squares| == |sel2.active|
    ensures var r1, r2 := Highlight(sel1, anchor, o, length, size), Highlight(sel2, anchor, o, length, size);
      && r1.active == r2.active
      && forall i :: 0 <= i < |r1.active| && r1.active[i] ==> r1.squares[i] == r2.squares[i]
  {
    var r1, r2 := Highlight(sel1, anchor, o, length, size), Highlight(sel2, anchor, o, length, size);
    forall i | 0 <= i < |r1.active|
      ensures r1.active[i] == r2.active[i]
      ensures r1.active[i] ==> r1.squares[i] == r2.squares[i]
    {
      HighlightAt(sel1, anchor, o, length, size, i);
      HighlightAt(sel2, anchor, o, length, size, i);
    }
  }

  /** Highlighting twice for the same pointer position is the same as once. */
  lemma HighlightIdempotent(sel: Selection, anchor: Square, o: Orientation, length: int, size: int)
    requires |sel.squares| == |sel.active|
    ensures var r := Highlight(sel, anchor, o, length, size);
      Highlight(r, anchor, o, length, size) == r
  {
    var r := Highlight(sel, anchor, o, length, size);
    var r2 := Highlight(r, anchor, o, length, size);
    forall i | 0 <= i < |r.active|
      ensures r2.active[i] == r.active[i] && r2.squares[i] == r.squares[i]
    {
      HighlightAt(sel, anchor, o, length, size, i);
      HighlightAt(r, anchor, o, length, size, i);
    }
    assert r2.active == r.active;
    assert r2.squares == r.squares;
  }

  /**
   * A ship of length at least one whose anchor square is on the board has the
   * anchor square itself among its flagged squares, at index (length-1)/2.
   */
  lemma HighlightCoversAnchor(sel: Selection, anchor: Square, o: Orientation, length: int, size: int)
    requires |sel.squares| == |sel.active| == length >= 1
    requires OnBoard(anchor, size)
    ensures var r := Highlight(sel, anchor, o, length, size);
      r.active[(length - 1) / 2] && r.squares[(length - 1) / 2] == anchor
  {
    HighlightAt(sel, anchor, o, length, size, (length - 1) / 2);
  }

  /**
   * A length-4 horizontal ship anchored in column 5 of a 10-cell board covers
   * columns 4 to 7, all on the board.
   */
  lemma TieBreakLengthFour(sel: Selection, row: int)
    requires |sel.squares| == |sel.active| == 4
    requires 0 <= row < 10
    ensures Highlight(sel, Square(5, row), Horizontal, 4, 10)
         == Selection([Square(4, row), Square(5, row), Square(6, row), Square(7, row)], [true, true, true, true])
  {
    var r := Highlight(sel, Square(5, row), Horizontal, 4, 10);
    var cells := [Square(4, row), Square(5, row), Square(6, row), Square(7, row)];
    assert FirstOffset(4) == -1;
    forall i | 0 <= i < 4
      ensures r.squares[i] == cells[i] && r.active[i]
    {
      HighlightAt(sel, Square(5, row), Horizontal, 4, 10, i);
    }
    assert r.squares == cells;
    assert r.active == [true, true, true, true];
  }

  /**
   * A length-4 horizontal ship anchored in column 0 of a 10-cell board loses
   * its first square (column -1), keeps the old square there, and covers
   * columns 0 to 2.
   */
  lemma EdgeRejection(sel: Selection, row: int)
    requires |sel.squares| == |sel.active| == 4
    requires 0 <= row < 10
    ensures var r := Highlight(sel, Square(0, row), Horizontal, 4, 10);
      && r.active == [false, true, true, true]
      && r.squares == [sel.squares[0], Square(0, row), Square(1, row), Square(2, row)]
  {
    var r := Highlight(sel, Square(0, row), Horizontal, 4, 10);
    var cells := [sel.squares[0], Square(0, row), Square(1, row), Square(2, row)];
    assert FirstOffset(4) == -1;
    forall i | 0 <= i < 4
      ensures r.squares[i] == cells[i] && r.active[i] == (i != 0)
    {
      HighlightAt(sel, Square(0, row), Horizontal, 4, 10, i);
    }
    assert r.active == [false, true, true, true];
    assert r.squares == cells;
  }

  /**
   * End to end: on a 10-cell board at the origin with 40-pixel tiles, a
   * pointer at (85, 125) anchors a horizontal length-3 ship at column 1, row 3;
   * the ship covers columns 0 to 2 of row 3, all on the board, and is then
   * centred at (60, 140), the middle of the anchor square.
   */
  lemma PointerScenario(sel: Selection)
    requires |sel.squares| == |sel.active| == 3
    ensures Anchor(Board(0, 0, 10), 40, Horizontal, 85, 125) == Square(1, 3)
    ensures var r := Highlight(sel, Square(1, 3), Horizontal, 3, 10);
      && r == Selection([Square(0, 3), Square(1, 3), Square(2, 3)], [true, true, true])
      && CenterPoint(Board(0, 0, 10), 40, Horizontal, 3, r.squares) == Point(60.0, 140.0)
  {
    var r := Highlight(sel, Square(1, 3), Horizontal, 3, 10);
    var cells := [Square(0, 3), Square(1, 3), Square(2, 3)];
    assert FirstOffset(3) == -1;
    forall i | 0 <= i < 3
      ensures r.squares[i] == cells[i] && r.active[i]
    {
      HighlightAt(sel, Square(1, 3), Horizontal, 3, 10, i);
    }
    assert r.squares == cells;
    assert r.active == [true, true, true];
  }

  /**
   * A pointer in the left half of column 0 (10 pixels in, 40-pixel tiles)
   * lies before the first cell centre, yet still anchors at column 0.
   */
  lemma AnchorBeforeFirstCentre()
    ensures Along(Anchor(Board(0, 0, 10), 40, Horizontal, 10, 100), Horizontal) == 0
    ensures Anchor(Board(0, 0, 10), 40, Horizontal, 10, 100) == Square(0, 2)
  {
  }

  /** Centring a horizontal length-3 ship whose pivot is (2, 1), 40-pixel tiles. */
  lemma CenterOddExample(squares: seq<Square>)
    requires |squares| == 3 && squares[1] == Square(2, 1)
    ensures CenterPoint(Board(0, 0, 10), 40, Horizontal, 3, squares) == Point(100.0, 60.0)
  {
  }

  /** Centring a vertical length-4 ship whose pivot is (3, 5): no parity offset on y. */
  lemma CenterEvenExample(squares: seq<Square>)
    requires |squares| == 4 && squares[2] == Square(3, 5)
    ensures CenterPoint(Board(0, 0, 10), 40, Vertical, 4, squares) == Point(140.0, 200.0)
  {
  }

  /**
   * For a ship whose squares are consecutive along the placement axis from
   * cell `c0`, the centred point is the midpoint of the pixel span the ship
   * covers along that axis, and the middle of its pivot's cell across it.
   */
  lemma CenterIsSpanMidpoint(board: Board, tile: int, o: Orientation, length: nat, squares: seq<Square>, c0: int)
    requires |squares| == length >= 1
    requires forall i :: 0 <= i < length ==> Along(squares[i], o) == c0 + i
    ensures var p := CenterPoint(board, tile, o, length, squares);
      && PointAlong(p, o) == OriginAlong(board, o) as real + (c0 * tile) as real + (length * tile) as real / 2.0
      && PointCross(p, o) == OriginCross(board, o) as real + (Cross(squares[length / 2], o) * tile) as real + tile as real / 2.0
  {
    var half := length / 2;
    assert Along(squares[half], o) == c0 + half;
    assert length == 2 * half + length % 2;
    assert (Along(squares[half], o) * tile) as real
        == (c0 * tile) as real + (half * tile) as real;
    assert (length * tile) as real / 2.0 == (half * tile) as real + (length % 2) as real * (0.5 * tile as real) by {
      assert length * tile == 2 * (half * tile) + (length % 2) * tile;
    }
  }

  /**
   * A ship whose highlight flagged every square is centred on the midpoint of
   * the span from the anchor's first offset, across the middle of the anchor's
   * cross-axis cell; an odd-length ship is centred on the anchor cell itself.
   */
  lemma HighlightThenCenter(sel: Selection, anchor: Square, o: Orientation, length: nat, board: Board, tile: int)
    requires |sel.squares| == |sel.active| == length >= 1
    requires var r := Highlight(sel, anchor, o, length, board.size);
      forall i :: 0 <= i < length ==> r.active[i]
    ensures var p := CenterPoint(board, tile, o, length, Highlight(sel, anchor, o, length, board.size).squares);
      && PointAlong(p, o) == OriginAlong(board, o) as real
           + ((Along(anchor, o) + FirstOffset(length)) * tile) as real + (length * tile) as real / 2.0
      && PointCross(p, o) == OriginCross(board, o) as real + (Cross(anchor, o) * tile) as real + tile as real / 2.0
      && (length % 2 == 1 ==>
            PointAlong(p, o) == OriginAlong(board, o) as real + (Along(anchor, o) * tile) as real + tile as real / 2.0)
  {
    var r := Highlight(sel, anchor, o, length, board.size);
    var c0 := Along(anchor, o) + FirstOffset(length);
    HighlightAt(sel, anchor, o, length, board.size, 0);
    assert InRange(Cross(anchor, o), board.size);
    forall i | 0 <= i < length
      ensures Along(r.squares[i], o) == c0 + i && Cross(r.squares[i], o) == Cross(anchor, o)
    {
      HighlightAt(sel, anchor, o, length, board.size, i);
    }
    CenterIsSpanMidpoint(board, tile, o, length, r.squares, c0);
    if length % 2 == 1 {
      var half := length / 2;
      assert FirstOffset(length) == -half;
      assert length * tile == 2 * (half * tile) + tile;
      assert (c0 * tile) as real == (Along(anchor, o) * tile) as real - (half * tile) as real;
    }
  }
}
