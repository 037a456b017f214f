/** The mutable simulation of tetris.c: the global board array, the current
    block, the score and the game state, with one method per procedure of the
    file. Every method is proved to perform the matching transition of the
    Rules module on the state it changes. */
module Engine {
  import opened Board
  import opened Pieces
  import opened Rules

  /** rotateBlock's transform loop on a local 4x4 array: the entry at row i,
      column j is copied to row j, column 3 - i. */
  method TurnShape(s: Shape) returns (t: Shape)
    requires IsShape(s)
    ensures t == Rotated(s)
  {
    var a := new int[4, 4]((_, _) => 0);
    var i := 0;
    while i < 4
      invariant 0 <= i <= 4
      invariant forall i', j' :: 0 <= i' < i && 0 <= j' < 4 ==> a[j', 3 - i'] == s[i'][j']
    {
      var j := 0;
      while j < 4
        invariant 0 <= j <= 4
        invariant forall i', j' :: 0 <= i' < i && 0 <= j' < 4 ==> a[j', 3 - i'] == s[i'][j']
        invariant forall j' :: 0 <= j' < j ==> a[j', 3 - i] == s[i][j']
      {
        a[j, 3 - i] := s[i][j];
        j := j + 1;
      }
      i := i + 1;
    }
    t := seq(4, r requires 0 <= r < 4 reads a => seq(4, c requires 0 <= c < 4 reads a => a[r, c]));
    forall r | 0 <= r < 4
      ensures t[r] == Rotated(s)[r]
    {
      forall c | 0 <= c < 4
        ensures t[r][c] == Rotated(s)[r][c]
      {
        assert a[r, 3 - (3 - c)] == s[3 - c][r];
      }
    }
  }

  class Tetris {
    /** board[row, column]: 0 for an empty cell, else a colour identifier. */
    const board: array2<int>
    var current: Block
    var score: int
    /** gameState: declared by the game loop, written by spawnBlock. */
    var phase: Phase

    ghost predicate Sized() {
      board.Length0 == BoardHeight && board.Length1 == BoardWidth
    }

    /** The board as a grid of rows. */
    ghost function Rows(): (g: Grid)
      reads board
      requires Sized()
      ensures IsGrid(g)
    {
      seq(BoardHeight, r requires 0 <= r < BoardHeight reads board =>
        seq(BoardWidth, c requires 0 <= c < BoardWidth reads board => board[r, c]))
    }

    ghost function Model(): State
      reads this, board
      requires Sized()
    {
      State(Rows(), current, score, phase)
    }

    ghost predicate Valid()
      reads this, board
    {
      Sized() && Inv(Model())
    }

    /** The zero-initialised globals: an empty board, an empty piece, score 0
        and the menu. */
    constructor ()
      ensures Valid() && fresh(board)
      ensures Model() == State(EmptyRows(BoardHeight), ZeroBlock, 0, Menu)
    {
      board := new int[BoardHeight, BoardWidth]((_, _) => 0);
      current := ZeroBlock;
      score := 0;
      phase := Menu;
      new;
      GridsEqual(Rows(), EmptyRows(BoardHeight));
      RestartPlays(Model(), 0);
    }

    /** initBoard: every cell becomes 0; nothing else changes. */
    method InitBoard()
      requires Sized()
      modifies board
      ensures Model() == old(Model()).(grid := EmptyRows(BoardHeight))
    {
      var i := 0;
      while i < BoardHeight
        invariant 0 <= i <= BoardHeight
        invariant forall r, c :: 0 <= r < BoardHeight && 0 <= c < BoardWidth ==>
                    board[r, c] == if r < i then 0 else old(board[r, c])
      {
        var j := 0;
        while j < BoardWidth
          invariant 0 <= j <= BoardWidth
          invariant forall r, c :: 0 <= r < BoardHeight && 0 <= c < BoardWidth ==>
                      board[r, c] == if r < i || (r == i && c < j) then 0 else old(board[r, c])
        {
          board[i, j] := 0;
          j := j + 1;
        }
        i := i + 1;
      }
      GridsEqual(Rows(), EmptyRows(BoardHeight));
    }

    /** checkCollision: scans the frame row by row and answers as soon as an
        occupied cell lands on a blocked coordinate. */
    method CheckCollision(newX: int, newY: int, newShape: Shape) returns (hit: bool)
      requires Sized() && IsShape(newShape)
      ensures hit == Collides(Rows(), newShape, newX, newY)
    {
      var i := 0;
      while i < 4
        invariant 0 <= i <= 4
        invariant forall i', j' :: 0 <= i' < i && 0 <= j' < 4 && newShape[i'][j'] != 0 ==>
                    !Blocked(Rows(), newX + j', newY + i')
      {
        var j := 0;
        while j < 4
          invariant 0 <= j <= 4
          invariant forall i', j' :: 0 <= i' < i && 0 <= j' < 4 && newShape[i'][j'] != 0 ==>
                      !Blocked(Rows(), newX + j', newY + i')
          invariant forall j' :: 0 <= j' < j && newShape[i][j'] != 0 ==>
                      !Blocked(Rows(), newX + j', newY + i)
        {
          if newShape[i][j] != 0 {
            var x := newX + j;
            var y := newY + i;
            if x < 0 || x >= BoardWidth || y >= BoardHeight || (y >= 0 && board[y, x] != 0) {
              assert Blocked(Rows(), newX + j, newY + i);
              return true;
            }
          }
          j := j + 1;
        }
        i := i + 1;
      }
      return false;
    }

    /** spawnBlock with r for the random shape index: the piece of shape r at
        the spawn point, the game over if it collides there. */
    method SpawnBlock(r: int)
      requires Sized() && 0 <= r < NumBlocks
      modifies this
      ensures Model() == Spawn(old(Model()), r)
    {
      current := Block(Tetrominoes[r], r, BoardWidth / 2 - 2, 0);
      var hit := CheckCollision(current.x, current.y, current.shape);
      if hit {
        phase := GameOver;
      }
    }

    /** The full-row test of clearLines: the scan stops at the first empty
        cell. */
    method RowFull(i: int) returns (full: bool)
      requires Sized() && 0 <= i < BoardHeight
      ensures full == IsFull(Rows()[i])
    {
      full := true;
      var j := 0;
      while j < BoardWidth
        invariant 0 <= j <= BoardWidth
        invariant forall c :: 0 <= c < j ==> board[i, c] != 0
      {
        if board[i, j] == 0 {
          assert Rows()[i][j] == 0;
          full := false;
          break;
        }
        j := j + 1;
      }
    }

    /** The shift of clearLines once row i is found full: every row above i
        moves down by one, overwriting row i, and the top row is emptied. */
    method ShiftDown(i: int)
      requires Sized() && 0 <= i < BoardHeight
      modifies board
      ensures Rows() == [EmptyRow()] + old(Rows())[..i] + old(Rows())[i + 1..]
    {
      var k := i;
      while k > 0
        invariant 0 <= k <= i
        invariant forall r, c :: 0 <= r < BoardHeight && 0 <= c < BoardWidth ==>
                    board[r, c] == if k < r <= i then old(board[r - 1, c]) else old(board[r, c])
      {
        var j := 0;
        while j < BoardWidth
          invariant 0 <= j <= BoardWidth
          invariant forall r, c :: 0 <= r < BoardHeight && 0 <= c < BoardWidth ==>
                      board[r, c] == if k < r <= i || (r == k && c < j) then old(board[r - 1, c])
                                     else old(board[r, c])
        {
          board[k, j] := board[k - 1, j];
          j := j + 1;
        }
        k := k - 1;
      }
      var j := 0;
      while j < BoardWidth
        invariant 0 <= j <= BoardWidth
        invariant forall r, c :: 0 <= r < BoardHeight && 0 <= c < BoardWidth ==>
                    board[r, c] == if r == 0 && c < j then 0
                                   else if 0 < r <= i then old(board[r - 1, c])
                                   else old(board[r, c])
      {
        board[0, j] := 0;
        j := j + 1;
      }
      ghost var before := old(Rows());
      ghost var want := [EmptyRow()] + before[..i] + before[i + 1..];
      forall r | 0 <= r < BoardHeight
        ensures |want[r]| == BoardWidth
        ensures forall c :: 0 <= c < BoardWidth ==> Rows()[r][c] == want[r][c]
      {
        if r == 0 {
          assert want[r] == EmptyRow();
        } else if r <= i {
          assert want[r] == before[r - 1];
        } else {
          assert want[r] == before[r];
        }
      }
      GridsEqual(Rows(), want);
    }

    /** clearLines: rows are examined top to bottom; each full row is
        removed by shifting the rows above it down, and the score grows by
        100 * k * k for the k rows removed. */
    method ClearLines()
      requires Sized()
      modifies this, board
      ensures Model() == Clear(old(Model()))
    {
      ghost var g0 := Rows();
      var linesCleared := 0;
      var i := 0;
      while i < BoardHeight
        modifies board
        invariant 0 <= i <= BoardHeight
        invariant Rows()[..i] == Cleared(g0[..i])
        invariant Rows()[i..] == g0[i..]
        invariant linesCleared == CountFull(g0[..i])
      {
        ghost var before := Rows();
        var full := RowFull(i);
        if full {
          linesCleared := linesCleared + 1;
          ShiftDown(i);
        }
        ClearedPrefixStep(g0, before, Rows(), i, full);
        ClearedStep(g0, i);
        i := i + 1;
      }
      assert g0[..BoardHeight] == g0;
      assert Rows()[..BoardHeight] == Rows();
      score := score + linesCleared * linesCleared * 100;
    }

    /** The writes of placeBlock: each occupied cell of the piece's frame
        takes the piece's colour identifier. The piece must fit where it
        stands, which keeps every write on the board. */
    method WriteCells()
      requires Sized() && IsShape(current.shape) && current.y >= 0
      requires !Collides(Rows(), current.shape, current.x, current.y)
      modifies board
      ensures Rows() == Stamp(old(Rows()), current)
    {
      ghost var g := Rows();
      var i := 0;
      while i < 4
        invariant 0 <= i <= 4
        invariant forall row, col :: 0 <= row < BoardHeight && 0 <= col < BoardWidth ==>
                    board[row, col] == if Covers(current, col, row) && row - current.y < i
                                       then current.color + 1 else g[row][col]
      {
        var j := 0;
        while j < 4
          invariant 0 <= j <= 4
          invariant forall row, col :: 0 <= row < BoardHeight && 0 <= col < BoardWidth ==>
                      board[row, col] ==
                        if Covers(current, col, row) &&
                           (row - current.y < i || (row - current.y == i && col - current.x < j))
                        then current.color + 1 else g[row][col]
        {
          if current.shape[i][j] != 0 {
            FitsInside(g, current.shape, current.x, current.y, i, j);
            board[current.y + i, current.x + j] := current.color + 1;
          }
          j := j + 1;
        }
        i := i + 1;
      }
      GridsEqual(Rows(), Stamp(g, current));
    }

    /** placeBlock with r for the shape spawned next: write the piece's
        cells, then clearLines, then spawnBlock. */
    method PlaceBlock(r: int)
      requires Valid() && phase != GameOver && 0 <= r < NumBlocks
      modifies this, board
      ensures Model() == Lock(old(Model()), r)
      ensures Valid()
    {
      WriteCells();
      ClearLines();
      SpawnBlock(r);
      LockPreservesInv(old(Model()), r);
    }

    /** rotateBlock: the turned frame is kept only if it does not collide at
        the piece's anchor. */
    method RotateBlock()
      requires Valid()
      modifies this
      ensures Model() == Rotate(old(Model()))
      ensures Valid()
    {
      var newShape := TurnShape(current.shape);
      var hit := CheckCollision(current.x, current.y, newShape);
      if !hit {
        current := current.(shape := newShape);
      }
      RotatePreservesInv(old(Model()));
    }

    /** moveBlock(dx, dy) with r for the shape a lock would spawn: translate
        if the target fits, lock if a downward step is blocked, else nothing.
        The game loop calls it only while playing, with dy of 0 or 1. */
    method MoveBlock(dx: int, dy: int, r: int)
      requires Valid() && phase != GameOver && dy >= 0 && 0 <= r < NumBlocks
      modifies this, board
      ensures Model() == Move(old(Model()), dx, dy, r)
      ensures Valid()
    {
      ghost var st := Model();
      MovePreservesInv(st, dx, dy, r);
      var newX := current.x + dx;
      var newY := current.y + dy;
      var hit := CheckCollision(newX, newY, current.shape);
      if !hit {
        current := current.(x := newX, y := newY);
        assert Model() == Move(st, dx, dy, r);
      } else if dy == 1 {
        PlaceBlock(r);
      } else {
        assert Model() == Move(st, dx, dy, r);
      }
    }
  }
}
