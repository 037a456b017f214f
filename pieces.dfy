/** The falling piece of tetris.c: a 4x4 occupancy frame with a colour and a
    board anchor, the seven tetromino shapes, the clockwise turn of the frame,
    the collision test, and what locking a piece writes into the grid. */
module Pieces {
  import opened Board

  /** A 4x4 frame; a non-zero entry marks an occupied cell. */
  type Shape = seq<seq<int>>

  predicate IsShape(s: Shape) {
    |s| == 4 && forall i :: 0 <= i < 4 ==> |s[i]| == 4
  }

  /** The tetrominoes table, in the order I, O, T, S, Z, J, L. */
  const Tetrominoes: seq<Shape> := [
    [[0,0,0,0], [1,1,1,1], [0,0,0,0], [0,0,0,0]],
    [[1,1,0,0], [1,1,0,0], [0,0,0,0], [0,0,0,0]],
    [[0,1,0,0], [1,1,1,0], [0,0,0,0], [0,0,0,0]],
    [[0,1,1,0], [1,1,0,0], [0,0,0,0], [0,0,0,0]],
    [[1,1,0,0], [0,1,1,0], [0,0,0,0], [0,0,0,0]],
    [[1,0,0,0], [1,1,1,0], [0,0,0,0], [0,0,0,0]],
    [[0,0,1,0], [1,1,1,0], [0,0,0,0], [0,0,0,0]]
  ]

  /** A piece: its frame, its colour (the index of its entry in the colour
      table, which is also the index of its shape), and the board column x
      and row y of the frame's top-left cell. */
  datatype Block = Block(shape: Shape, color: int, x: int, y: int)

  /** Where spawnBlock puts every new piece. */
  const SpawnX: int := BoardWidth / 2 - 2
  const SpawnY: int := 0

  /** The piece spawnBlock creates for the shape index r. */
  function Spawned(r: int): (b: Block)
    requires 0 <= r < NumBlocks
    ensures b.color == r && b.x == 3 && b.y == 0
    ensures IsShape(b.shape) && b.shape == Tetrominoes[r]
  {
    Block(Tetrominoes[r], r, SpawnX, SpawnY)
  }

  /** The set of occupied cells of a frame, as (row, column) pairs. */
  function Cells(s: Shape): set<(int, int)>
    requires IsShape(s)
  {
    set i, j | 0 <= i < 4 && 0 <= j < 4 && s[i][j] != 0 :: (i, j)
  }

  /** The occupied cells of a frame are d when d lists exactly its non-zero
      entries. */
  lemma CellsAre(s: Shape, d: set<(int, int)>)
    requires IsShape(s)
    requires forall p :: p in d ==> 0 <= p.0 < 2 && 0 <= p.1 < 4
    requires forall i, j :: 0 <= i < 4 && 0 <= j < 4 ==> (s[i][j] != 0 <==> (i, j) in d)
    ensures Cells(s) == d
    ensures forall i, j :: 0 <= i < 4 && 0 <= j < 4 && s[i][j] != 0 ==> i < 2
  {
  }

  /** A frame with exactly four occupied cells, all in its top two rows. */
  predicate TopFour(s: Shape) {
    IsShape(s) && |Cells(s)| == 4 &&
    forall i, j :: 0 <= i < 4 && 0 <= j < 4 && s[i][j] != 0 ==> i < 2
  }

  /** Every entry of the table is a 4x4 frame with exactly four occupied
      cells, all in its top two rows. */
  lemma TetrominoesAreTetrominoes(r: int)
    requires 0 <= r < NumBlocks
    ensures TopFour(Tetrominoes[r])
  {
    if r == 0 {
      ICells();
    } else if r == 1 {
      OCells();
    } else if r == 2 {
      TCells();
    } else if r == 3 {
      SCells();
    } else if r == 4 {
      ZCells();
    } else if r == 5 {
      JCells();
    } else {
      LCells();
    }
  }

  // The entries one by one, each with the list of its four cells.

  lemma ICells()
    ensures TopFour(Tetrominoes[0])
  {
    CellsAre(Tetrominoes[0], {(1, 0), (1, 1), (1, 2), (1, 3)});
  }

  lemma OCells()
    ensures TopFour(Tetrominoes[1])
  {
    CellsAre(Tetrominoes[1], {(0, 0), (0, 1), (1, 0), (1, 1)});
  }

  lemma TCells()
    ensures TopFour(Tetrominoes[2])
  {
    CellsAre(Tetrominoes[2], {(0, 1), (1, 0), (1, 1), (1, 2)});
  }

  lemma SCells()
    ensures TopFour(Tetrominoes[3])
  {
    CellsAre(Tetrominoes[3], {(0, 1), (0, 2), (1, 0), (1, 1)});
  }

  lemma ZCells()
    ensures TopFour(Tetrominoes[4])
  {
    CellsAre(Tetrominoes[4], {(0, 0), (0, 1), (1, 1), (1, 2)});
  }

  lemma JCells()
    ensures TopFour(Tetrominoes[5])
  {
    CellsAre(Tetrominoes[5], {(0, 0), (1, 0), (1, 1), (1, 2)});
  }

  lemma LCells()
    ensures TopFour(Tetrominoes[6])
  {
    CellsAre(Tetrominoes[6], {(0, 2), (1, 0), (1, 1), (1, 2)});
  }

  // ---------------------------------------------------------------------
  // Rotation

  /** The frame turned a quarter clockwise: the cell at row i, column j moves
      to row j, column 3 - i. */
  function Rotated(s: Shape): (t: Shape)
    requires IsShape(s)
    ensures IsShape(t)
    ensures forall i, j :: 0 <= i < 4 && 0 <= j < 4 ==> t[j][3 - i] == s[i][j]
  {
    seq(4, r requires 0 <= r < 4 => seq(4, c requires 0 <= c < 4 => s[3 - c][r]))
  }

  /** Where a cell (row, column) of the frame goes under one turn. */
  function Turn(p: (int, int)): (int, int) {
    (p.1, 3 - p.0)
  }

  function TurnAll(a: set<(int, int)>): set<(int, int)> {
    set p | p in a :: Turn(p)
  }

  /** Four turns give back the original frame. */
  lemma RotatedFourTimes(s: Shape)
    requires IsShape(s)
    ensures Rotated(Rotated(Rotated(Rotated(s)))) == s
  {
    var t := Rotated(Rotated(Rotated(Rotated(s))));
    forall r | 0 <= r < 4
      ensures t[r] == s[r]
    {
      assert forall c :: 0 <= c < 4 ==> t[r][c] == s[r][c];
    }
  }

  /** A turn moves the occupied cells as Turn says. */
  lemma RotatedCells(s: Shape)
    requires IsShape(s)
    ensures Cells(Rotated(s)) == TurnAll(Cells(s))
  {
    var t := Rotated(s);
    forall q | q in Cells(t)
      ensures q in TurnAll(Cells(s))
    {
      var p := (3 - q.1, q.0);
      assert p in Cells(s) && Turn(p) == q;
    }
    forall q | q in TurnAll(Cells(s))
      ensures q in Cells(t)
    {
      var p :| p in Cells(s) && Turn(p) == q;
      assert t[p.1][3 - p.0] == s[p.0][p.1];
    }
  }

  /** Turn is one-to-one, so it keeps the size of any set of cells. */
  lemma {:induction false} TurnAllSize(a: set<(int, int)>)
    ensures |TurnAll(a)| == |a|
    decreases |a|
  {
    if a != {} {
      var p :| p in a;
      var rest := a - {p};
      TurnAllSize(rest);
      assert TurnAll(a) == TurnAll(rest) + {Turn(p)};
      assert Turn(p) !in TurnAll(rest);
    }
  }

  /** A turn keeps the number of occupied cells. */
  lemma RotatedKeepsCellCount(s: Shape)
    requires IsShape(s)
    ensures |Cells(Rotated(s))| == |Cells(s)|
  {
    RotatedCells(s);
    TurnAllSize(Cells(s));
  }

  // ---------------------------------------------------------------------
  // Collision

  /** Whether the board coordinate (col, row) rejects a piece cell: it lies
      beyond a side wall or below the floor, or it is an occupied cell of the
      grid. A row above the board (row < 0) is not by itself a reason. */
  predicate Blocked(g: Grid, col: int, row: int)
    requires IsGrid(g)
  {
    col < 0 || col >= BoardWidth || row >= BoardHeight || (row >= 0 && g[row][col] != 0)
  }

  /** checkCollision: some occupied cell (i, j) of the frame, placed with its
      top-left corner at (x, y), lands on a blocked coordinate (x + j, y + i). */
  predicate Collides(g: Grid, s: Shape, x: int, y: int)
    requires IsGrid(g) && IsShape(s)
  {
    exists i, j :: 0 <= i < 4 && 0 <= j < 4 && s[i][j] != 0 && Blocked(g, x + j, y + i)
  }

  /** A placement that does not collide, with its frame anchored at a row
      y >= 0, has every occupied cell inside the board on an empty cell. */
  lemma FitsInside(g: Grid, s: Shape, x: int, y: int, i: int, j: int)
    requires IsGrid(g) && IsShape(s) && y >= 0
    requires !Collides(g, s, x, y)
    requires 0 <= i < 4 && 0 <= j < 4 && s[i][j] != 0
    ensures 0 <= y + i < BoardHeight && 0 <= x + j < BoardWidth
    ensures g[y + i][x + j] == 0
  {
    assert !Blocked(g, x + j, y + i);
  }

  /** Every tetromino fits at the spawn point of a grid whose top four rows
      are empty. */
  lemma SpawnFitsClearTop(g: Grid, r: int)
    requires IsGrid(g) && 0 <= r < NumBlocks
    requires forall row, col :: 0 <= row < 4 && 0 <= col < BoardWidth ==> g[row][col] == 0
    ensures !Collides(g, Tetrominoes[r], SpawnX, SpawnY)
  {
    var s := Tetrominoes[r];
    forall i, j | 0 <= i < 4 && 0 <= j < 4 && s[i][j] != 0
      ensures !Blocked(g, SpawnX + j, SpawnY + i)
    {
      assert g[SpawnY + i][SpawnX + j] == 0;
    }
  }

  /** Every tetromino fits at the spawn point of an empty board. */
  lemma SpawnFitsEmptyBoard(r: int)
    requires 0 <= r < NumBlocks
    ensures !Collides(EmptyRows(BoardHeight), Tetrominoes[r], SpawnX, SpawnY)
  {
    SpawnFitsClearTop(EmptyRows(BoardHeight), r);
  }

  // ---------------------------------------------------------------------
  // Locking

  /** Whether the piece b has an occupied cell at board coordinate (col, row). */
  predicate Covers(b: Block, col: int, row: int)
    requires IsShape(b.shape)
  {
    0 <= row - b.y < 4 && 0 <= col - b.x < 4 && b.shape[row - b.y][col - b.x] != 0
  }

  /** placeBlock's writes: every board cell covered by the piece takes the
      identifier color + 1; every other cell keeps its value. */
  function Stamp(g: Grid, b: Block): (h: Grid)
    requires IsGrid(g) && IsShape(b.shape)
    ensures IsGrid(h)
    ensures forall i, j ::
              (0 <= i < 4 && 0 <= j < 4 && b.shape[i][j] != 0 &&
               0 <= b.y + i < BoardHeight && 0 <= b.x + j < BoardWidth) ==>
              h[b.y + i][b.x + j] == b.color + 1
    ensures forall row, col ::
              (0 <= row < BoardHeight && 0 <= col < BoardWidth && !Covers(b, col, row)) ==>
              h[row][col] == g[row][col]
  {
    seq(BoardHeight, row requires 0 <= row < BoardHeight =>
      seq(BoardWidth, col requires 0 <= col < BoardWidth =>
        if Covers(b, col, row) then b.color + 1 else g[row][col]))
  }

  /** The occupied cells of a grid, as (row, column) pairs. */
  function Occupied(g: Grid): set<(int, int)>
    requires IsGrid(g)
  {
    set r, c | 0 <= r < BoardHeight && 0 <= c < BoardWidth && g[r][c] != 0 :: (r, c)
  }

  /** The board coordinates, as (row, column) pairs, of a piece's cells. */
  function PieceCells(b: Block): set<(int, int)>
    requires IsShape(b.shape)
  {
    set i, j | 0 <= i < 4 && 0 <= j < 4 && b.shape[i][j] != 0 :: (b.y + i, b.x + j)
  }

  /** Locking a piece that fits adds exactly its cells to the occupied ones,
      none of which was occupied before. */
  lemma StampAddsPieceCells(g: Grid, b: Block)
    requires IsGrid(g) && IsShape(b.shape) && b.color >= 0 && b.y >= 0
    requires !Collides(g, b.shape, b.x, b.y)
    ensures Occupied(Stamp(g, b)) == Occupied(g) + PieceCells(b)
    ensures Occupied(g) !! PieceCells(b)
  {
    var h := Stamp(g, b);
    forall q | q in PieceCells(b)
      ensures q in Occupied(h) && q !in Occupied(g)
    {
      var i, j :| 0 <= i < 4 && 0 <= j < 4 && b.shape[i][j] != 0 && q == (b.y + i, b.x + j);
      FitsInside(g, b.shape, b.x, b.y, i, j);
    }
    forall q | q in Occupied(h)
      ensures q in Occupied(g) + PieceCells(b)
    {
      if Covers(b, q.1, q.0) {
        assert q == (b.y + (q.0 - b.y), b.x + (q.1 - b.x));
      }
    }
  }

  /** Locking a piece with a colour index below NumBlocks keeps every cell
      within 0..NumBlocks. */
  lemma StampKeepsCellsInRange(g: Grid, b: Block)
    requires IsGrid(g) && IsShape(b.shape) && CellsInRange(g)
    requires 0 <= b.color < NumBlocks
    ensures CellsInRange(Stamp(g, b))
  {
  }
}
