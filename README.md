# Battleship ship placement: a Dafny model

This project models the ship-placement geometry of the Battleship game's
`Drawer` class: how a pointer position over the setup board becomes the row
of grid squares a ship in placement would cover, which of those squares are
flagged as on the board, and the pixel point a placed ship is finally
centred on.

- `grid.dfy` (module `Grid`): Java's truncating integer division, the
  pixel-to-cell conversion built on it, the tile-size derivation, and the
  value types (`Orientation`, `Square`, `Board`).
- `ship.dfy` (module `Ships`): the placement-relevant state of a ship as a
  class with two arrays updated in place, `onSquares` and `activeSquares`,
  of the ship class's length; `DeselectSquares` and `Move`.
- `drawer.dfy` (module `Drawing`): the class `Drawer` with
  `HighlightSquares` (a loop writing the two arrays) and `CenterShipOnGrid`,
  each proved against a function on values, `Highlight` and `CenterPoint`.
- `placement_facts.dfy` (module `PlacementFacts`): what those functions
  guarantee, and the worked examples.

Modelling choices:

- The board origin (`topLeft`) is an integer pixel position. With an integer
  origin the two cast placements of the source (the cast after the division
  for HORIZONTAL, before it for VERTICAL) compute the same truncated
  quotient, which is `PixelToCell`.
- Pixel points produced by centring are exact `real`s. The source computes
  them in `float`.
- Pixel-to-cell conversion truncates toward zero, as Java's int cast and
  int division do. It is not a floor: a pixel less than one tile before the
  board's left or top edge maps to cell 0, not -1.
- The even-length tie-break comes from the same truncation. A ship of length 4 covers
  offsets -1 to 2 from the anchor: one cell more after the anchor than
  before it.
- The points in `getOnSquares()` are modelled as values (`Square`). Writing
  `.x` and `.y` of entry `i` becomes one assignment of a new `Square` to
  `onSquares[i]`.
- `Ship` and `Board` are not part of this model. The model assumes
  `deselectSquares()` clears every active flag and leaves the squares alone.
  It assumes `move(x, y)` records the point, and that `board.getSize()` and
  `board.topLeft` are read-only inputs.
- `HighlightSquares` requires a positive tile size and a ship whose two
  arrays both have the ship class's length. The loop runs over
  `getOnSquares().length`, and the offsets come from the class length.

## Model

| member | source | states |
|---|---|---|
| `Grid.TruncDiv` | Battleship/src/com/me/battleship/Drawer.java:198 | Java's `/` on `int` for a positive divisor: the quotient truncates toward zero, bracketing the dividend from below for non-negative and from above for negative dividends |
| `Grid.PixelToCell` | Battleship/src/com/me/battleship/Drawer.java:202-203 | a pixel at or after the origin lands in the tile containing it; a pixel less than one tile before the origin maps to cell 0; a pixel one tile or more before it maps to a negative cell |
| `Grid.TileSize` | Battleship/src/com/me/battleship/Drawer.java:43 | the tile size is the largest whole tile of which `size` fit the board width, and is at least 1 when the width is at least the size |
| `Drawing.Drawer.constructor` | Battleship/src/com/me/battleship/Drawer.java:36-43 | the drawer keeps the board and derives its tile size from the board width; the tile size is positive when the width is at least the board size |
| `Drawing.FirstOffset` | Battleship/src/com/me/battleship/Drawer.java:198 | for length at least 1 the first offset is `-((length-1)/2)`, and the last offset is `length/2`: the run reaches (length-1)/2 cells before the anchor and length/2 after it |
| `Drawing.Anchor` | Battleship/src/com/me/battleship/Drawer.java:200-221 | along the placement axis, with the pointer shifted back half a tile, and across it, unshifted: from the board edge on, the pointer lies in the anchor's cell; less than one tile before the edge the anchor coordinate is 0; a tile or more before it, negative and bracketing the pointer from above |
| `Drawing.Highlight` | Battleship/src/com/me/battleship/Drawer.java:204-233 | a highlight keeps the number of squares and of flags |
| `Drawing.HighlightAt` | Battleship/src/com/me/battleship/Drawer.java:204-233 | entry `i` uses offset `FirstOffset(length)+i`; with the cross-axis cell on the board, it flags whether that candidate is on the board and stores it (axes swapped for VERTICAL) when it is, keeping the old square when it is not; with the cross-axis cell off the board, it clears the flag and keeps the square |
| `Drawing.Drawer.HighlightSquares` | Battleship/src/com/me/battleship/Drawer.java:196-236 | the ship's squares and flags after the call are `Highlight` of their old values for the anchor under the pointer; the offset counter advances once per entry whatever the outcome |
| `Drawing.CenterPoint` | Battleship/src/com/me/battleship/Drawer.java:178-189 | the centred point lies in the tile of the pivot square at index length/2 |
| `Drawing.Drawer.CenterShipOnGrid` | Battleship/src/com/me/battleship/Drawer.java:175-194 | the ship is moved to `CenterPoint` of its squares, which are left as they were |
| `Ships.Deselected` | Battleship/src/com/me/battleship/Drawer.java:215-216 | deselected flags keep their number and are all false |
| `Ships.Ship.DeselectSquares` | Battleship/src/com/me/battleship/Drawer.java:232-233 | every flag is cleared; the squares are untouched (the method only modifies the flags) |
| `Ships.Ship.Move` | Battleship/src/com/me/battleship/Drawer.java:193 | the ship records the given point as its position |
| `PlacementFacts.FirstOffsetExamples` | Battleship/src/com/me/battleship/Drawer.java:198 | lengths 4, 3 and 2 start at offsets -1, -1 and 0 |
| `PlacementFacts.HighlightOffBoardDeselects` | Battleship/src/com/me/battleship/Drawer.java:204-216 | when the cross-axis cell is off the board, no square changes and every flag is false |
| `PlacementFacts.HighlightActiveOnBoard` | Battleship/src/com/me/battleship/Drawer.java:204-231 | every flagged square lies on the board in both coordinates |
| `PlacementFacts.HighlightRunIsConsecutive` | Battleship/src/com/me/battleship/Drawer.java:205-230 | flagged squares share the anchor's cross-axis cell, and flagged entries `i <= k` are `k-i` cells apart along the placement axis |
| `PlacementFacts.HighlightActiveIsInterval` | Battleship/src/com/me/battleship/Drawer.java:205-213 | the flagged entries form one unbroken range of indices |
| `PlacementFacts.HighlightSupersedes` | Battleship/src/com/me/battleship/Drawer.java:205-212 | the flags, and the flagged squares, after a highlight do not depend on the state before it |
| `PlacementFacts.HighlightIdempotent` | Battleship/src/com/me/battleship/Drawer.java:204-216 | highlighting twice at the same pointer position gives the same state as once |
| `PlacementFacts.HighlightCoversAnchor` | Battleship/src/com/me/battleship/Drawer.java:198-213 | with the anchor on the board and length at least 1, entry (length-1)/2 is flagged and is the anchor square |
| `PlacementFacts.TieBreakLengthFour` | Battleship/src/com/me/battleship/Drawer.java:198-213 | a length-4 horizontal ship anchored at column 5 covers columns 4 to 7, all flagged |
| `PlacementFacts.EdgeRejection` | Battleship/src/com/me/battleship/Drawer.java:204-213 | a length-4 horizontal ship anchored at column 0 has flags false, true, true, true and keeps its old first square |
| `PlacementFacts.PointerScenario` | Battleship/src/com/me/battleship/Drawer.java:196-213 | pointer (85,125), 40-pixel tiles, length 3 horizontal: anchor (1,3), squares (0,3) to (2,3) all flagged, centred at (60,140) |
| `PlacementFacts.AnchorBeforeFirstCentre` | Battleship/src/com/me/battleship/Drawer.java:202-203 | a pointer at (10,100) with 40-pixel tiles, before the centre of column 0, still anchors at column 0, row 2 |
| `PlacementFacts.CenterOddExample` | Battleship/src/com/me/battleship/Drawer.java:178-185 | a horizontal length-3 ship with pivot (2,1) and 40-pixel tiles is centred at (100,60) |
| `PlacementFacts.CenterEvenExample` | Battleship/src/com/me/battleship/Drawer.java:186-189 | a vertical length-4 ship with pivot (3,5) and 40-pixel tiles is centred at (140,200), with no parity offset on y |
| `PlacementFacts.CenterIsSpanMidpoint` | Battleship/src/com/me/battleship/Drawer.java:178-189 | for squares consecutive from `c0`, the centred point is the midpoint `origin + c0*tile + length*tile/2` of the covered span along the axis, and the middle of the pivot's cell across it |
| `PlacementFacts.HighlightThenCenter` | Battleship/src/com/me/battleship/Drawer.java:175-213 | after a highlight that flags every square, centring lands on the midpoint of the span starting at the first offset from the anchor and on the middle of the anchor's cross-axis cell; odd-length ships land on the middle of the anchor cell |

## Left out

- The `Drawer` constructor's other work is not modelled: loading the properties file, `System.exit`, the camera and the sprite batch. These are I/O and framework setup.
- Rendering and assets are not modelled: `drawSetup`, `loadTextures`, `textureFlipper`, `createSprite` and `dispose`. They issue draw calls and load textures through the graphics library.
- `getTileSize` is represented by the `Drawer.tileSize` field it returns.
- Float arithmetic is not modelled. `CenterPoint` is exact in `real`, and float rounding is ignored. The board width and origin, which are `float` in the source, are integers here.
- 32-bit overflow is not modelled. Pixel and cell arithmetic (`x - tileSize/2`, `cell * tileSize`) uses unbounded integers.
- Ship.java and Board.java are not part of this model. `deselectSquares`, `move`, `getSize` and the ship class's length enter only through the contracts described above. The `Ship` constructor exists only to allocate the arrays.
- Aliasing between the point objects of `getOnSquares()` is not modelled. Each entry is a value, so two entries can never share one point object.
- The "all flags set" precondition of centring is not required, and neither does the source check it. `CenterShipOnGrid` computes from whatever squares are stored, and `HighlightThenCenter` states what it yields when they are all flagged.
