/** The rules that tetris.c implements, as transitions of one value that
    holds the whole simulation state: the grid, the falling piece, the score
    and the game phase. The Engine module's methods are proved to perform
    exactly these transitions on the mutable state. */
module Rules {
  import opened Board
  import opened Pieces

  datatype Phase = Menu | Playing | GameOver

  datatype State = State(grid: Grid, piece: Block, score: int, phase: Phase)

  predicate WellFormed(st: State) {
    IsGrid(st.grid) && IsShape(st.piece.shape)
  }

  /** The piece held before the first spawn: an empty frame at (0, 0). The
      zeroed C block has the RGB triple (0, 0, 0), which the colour lookup of
      placeBlock would map to identifier 0 rather than 1; the frame has no
      occupied cell, so nothing can observe the difference. */
  const ZeroBlock: Block := Block([[0,0,0,0], [0,0,0,0], [0,0,0,0], [0,0,0,0]], 0, 0, 0)

  /** What holds of the grid and the score in every state the game reaches. */
  predicate GridInv(st: State) {
    IsGrid(st.grid) && CellsInRange(st.grid) && NoFullRow(st.grid) && st.score >= 0
  }

  /** The invariant of the simulation: the grid invariant, a well-formed
      piece whose colour is a table index and whose frame is anchored at a
      row y >= 0, and, while the game is not over, a piece that overlaps
      neither the walls, the floor nor a locked cell. */
  predicate Inv(st: State) {
    GridInv(st) && IsShape(st.piece.shape) &&
    0 <= st.piece.color < NumBlocks && st.piece.y >= 0 &&
    (st.phase != GameOver ==> !Collides(st.grid, st.piece.shape, st.piece.x, st.piece.y))
  }

  /** spawnBlock: the piece of shape r at the spawn point; the game is over
      when it collides there. */
  function Spawn(st: State, r: int): (s: State)
    requires IsGrid(st.grid) && 0 <= r < NumBlocks
    ensures s.grid == st.grid && s.score == st.score && s.piece == Spawned(r)
    ensures s.phase == GameOver <==>
              st.phase == GameOver || Collides(st.grid, Spawned(r).shape, SpawnX, SpawnY)
    ensures s.phase != GameOver ==> s.phase == st.phase
  {
    var b := Spawned(r);
    st.(piece := b, phase := if Collides(st.grid, b.shape, b.x, b.y) then GameOver else st.phase)
  }

  /** The writes of placeBlock, before it clears lines and spawns. */
  function Place(st: State): (s: State)
    requires WellFormed(st)
    ensures IsGrid(s.grid)
    ensures s.piece == st.piece && s.score == st.score && s.phase == st.phase
  {
    st.(grid := Stamp(st.grid, st.piece))
  }

  /** clearLines: full rows removed, score raised by 100 * k * k for k rows. */
  function Clear(st: State): (s: State)
    requires IsGrid(st.grid)
    ensures IsGrid(s.grid) && NoFullRow(s.grid)
    ensures s.score == st.score + LineScore(CountFull(st.grid))
    ensures s.piece == st.piece && s.phase == st.phase
  {
    ClearedWellFormed(st.grid);
    ClearedHasNoFullRow(st.grid);
    st.(grid := Cleared(st.grid), score := st.score + LineScore(CountFull(st.grid)))
  }

  /** placeBlock: write the piece, clear lines, spawn the piece of shape r. */
  function Lock(st: State, r: int): (s: State)
    requires WellFormed(st) && 0 <= r < NumBlocks
    ensures WellFormed(s) && NoFullRow(s.grid) && s.piece == Spawned(r)
    ensures s.score == st.score + LineScore(CountFull(Stamp(st.grid, st.piece)))
  {
    Spawn(Clear(Place(st)), r)
  }

  /** moveBlock(dx, dy), with r the shape a lock would spawn next. */
  function Move(st: State, dx: int, dy: int, r: int): (s: State)
    requires WellFormed(st) && 0 <= r < NumBlocks
    ensures WellFormed(s)
    ensures s.piece.shape == st.piece.shape || s.piece == Spawned(r)
    ensures !(dy == 1 && Collides(st.grid, st.piece.shape, st.piece.x + dx, st.piece.y + dy)) ==>
              s.grid == st.grid && s.score == st.score && s.phase == st.phase
    ensures !Collides(st.grid, st.piece.shape, st.piece.x + dx, st.piece.y + dy) ==>
              s.piece == st.piece.(x := st.piece.x + dx, y := st.piece.y + dy)
  {
    var b := st.piece;
    if !Collides(st.grid, b.shape, b.x + dx, b.y + dy) then
      st.(piece := b.(x := b.x + dx, y := b.y + dy))
    else if dy == 1 then
      Lock(st, r)
    else
      st
  }

  /** rotateBlock: the turned frame replaces the piece's frame unless it
      collides where the piece stands. */
  function Rotate(st: State): (s: State)
    requires WellFormed(st)
    ensures s.grid == st.grid && s.score == st.score && s.phase == st.phase
    ensures s.piece.x == st.piece.x && s.piece.y == st.piece.y &&
            s.piece.color == st.piece.color
    ensures s.piece.shape == st.piece.shape || s.piece.shape == Rotated(st.piece.shape)
    ensures s.piece.shape != st.piece.shape ==>
              !Collides(st.grid, s.piece.shape, st.piece.x, st.piece.y)
    ensures !Collides(st.grid, Rotated(st.piece.shape), st.piece.x, st.piece.y) ==>
              s.piece.shape == Rotated(st.piece.shape)
  {
    var b := st.piece;
    var t := Rotated(b.shape);
    if Collides(st.grid, t, b.x, b.y) then st else st.(piece := b.(shape := t))
  }

  /** The start and restart sequence of the game loop: phase PLAYING, empty
      board, score 0, then spawnBlock. */
  function Restart(st: State, r: int): (s: State)
    requires 0 <= r < NumBlocks
    ensures s.phase == Playing && s.score == 0 && s.grid == EmptyRows(BoardHeight)
    ensures s.piece == Spawned(r)
  {
    SpawnFitsEmptyBoard(r);
    Spawn(st.(phase := Playing, grid := EmptyRows(BoardHeight), score := 0), r)
  }

  // ---------------------------------------------------------------------
  // What the transitions preserve

  /** Spawning restores the whole invariant from the grid invariant alone,
      and it ends the game exactly when the new piece collides. */
  lemma SpawnEstablishesInv(st: State, r: int)
    requires GridInv(st) && 0 <= r < NumBlocks
    ensures Inv(Spawn(st, r))
    ensures Spawn(st, r).phase == GameOver <==>
              st.phase == GameOver || Collides(st.grid, Spawned(r).shape, SpawnX, SpawnY)
    ensures Spawn(st, r).grid == st.grid && Spawn(st, r).score == st.score
  {
  }

  /** Locking a piece that fits keeps the grid invariant, adds exactly
      LineScore(k) for the k rows it completes, and leaves no full row. */
  lemma LockPreservesInv(st: State, r: int)
    requires Inv(st) && st.phase != GameOver && 0 <= r < NumBlocks
    ensures Inv(Lock(st, r))
    ensures Lock(st, r).score == st.score + LineScore(CountFull(Stamp(st.grid, st.piece)))
  {
    var placed := Place(st);
    StampKeepsCellsInRange(st.grid, st.piece);
    ClearedWellFormed(placed.grid);
    ClearedHasNoFullRow(placed.grid);
    SpawnEstablishesInv(Clear(placed), r);
  }

  /** A move that the game loop can make (dy is 0 or 1, never upward) keeps
      the invariant and never lowers the score. */
  lemma MovePreservesInv(st: State, dx: int, dy: int, r: int)
    requires Inv(st) && st.phase != GameOver && dy >= 0 && 0 <= r < NumBlocks
    ensures Inv(Move(st, dx, dy, r))
    ensures Move(st, dx, dy, r).score >= st.score
  {
    var b := st.piece;
    if !Collides(st.grid, b.shape, b.x + dx, b.y + dy) {
      assert Move(st, dx, dy, r) == st.(piece := b.(x := b.x + dx, y := b.y + dy));
    } else if dy == 1 {
      LockPreservesInv(st, r);
    } else {
      assert Move(st, dx, dy, r) == st;
    }
  }

  /** A move ends the game only by locking after a blocked downward step and
      spawning a piece that collides with the cleared grid. */
  lemma MoveEndsGameOnlyBySpawn(st: State, dx: int, dy: int, r: int)
    requires Inv(st) && st.phase != GameOver && 0 <= r < NumBlocks
    requires Move(st, dx, dy, r).phase == GameOver
    ensures dy == 1 && Collides(st.grid, st.piece.shape, st.piece.x + dx, st.piece.y + 1)
    ensures var cleared := Clear(Place(st));
            Collides(cleared.grid, Spawned(r).shape, SpawnX, SpawnY)
  {
  }

  /** A rotation keeps the invariant, the grid, the score, the phase, the
      anchor and the number of occupied cells of the frame. */
  lemma RotatePreservesInv(st: State)
    requires Inv(st)
    ensures Inv(Rotate(st))
    ensures var s := Rotate(st);
            s.grid == st.grid && s.score == st.score && s.phase == st.phase &&
            s.piece.x == st.piece.x && s.piece.y == st.piece.y &&
            |Cells(s.piece.shape)| == |Cells(st.piece.shape)|
  {
    RotatedKeepsCellCount(st.piece.shape);
  }

  /** Start and restart always give a running game on an empty board with
      score 0: a new piece cannot collide there. */
  lemma RestartPlays(st: State, r: int)
    requires 0 <= r < NumBlocks
    ensures Inv(Restart(st, r))
    ensures var s := Restart(st, r);
            s.phase == Playing && s.score == 0 && s.grid == EmptyRows(BoardHeight) &&
            s.piece == Spawned(r)
  {
    SpawnFitsEmptyBoard(r);
    var e := EmptyRows(BoardHeight);
    assert forall row :: 0 <= row < BoardHeight ==> !IsFull(e[row]) by {
      forall row | 0 <= row < BoardHeight ensures !IsFull(e[row]) {
        assert e[row][0] == 0;
      }
    }
  }

  // ---------------------------------------------------------------------
  // A worked example: an O piece dropped on an empty board

  /** n soft drops in a row, each spawning shape r if it locks. */
  function Drop(st: State, n: nat, r: int): (s: State)
    requires WellFormed(st) && 0 <= r < NumBlocks
    ensures WellFormed(s)
    decreases n
  {
    if n == 0 then st else Move(Drop(st, n - 1, r), 0, 1, r)
  }

  /** The O shape is index 1, so its cells get the identifier 2. */
  const OShape: int := 1

  /** On an empty board the O piece at the spawn column fits down to row 18
      and no further: its two rows would reach past the floor at row 19. */
  lemma OFitsDownTo18(y: int)
    requires 0 <= y
    ensures !Collides(EmptyRows(BoardHeight), Tetrominoes[OShape], SpawnX, y) <==> y <= 18
  {
    var e := EmptyRows(BoardHeight);
    var s := Tetrominoes[OShape];
    if y <= 18 {
      forall i, j | 0 <= i < 4 && 0 <= j < 4 && s[i][j] != 0
        ensures !Blocked(e, SpawnX + j, y + i)
      {
        assert e[y + i][SpawnX + j] == 0;
      }
    } else {
      assert s[1][0] != 0 && Blocked(e, SpawnX + 0, y + 1);
    }
  }

  /** While it fits, each drop only lowers the O piece by one row. */
  lemma {:induction false} OFalls(st: State, n: nat, r: int)
    requires 0 <= r < NumBlocks
    requires st.grid == EmptyRows(BoardHeight)
    requires st.piece == Block(Tetrominoes[OShape], OShape, SpawnX, 0)
    requires n <= 18
    ensures Drop(st, n, r) == st.(piece := st.piece.(y := n))
    decreases n
  {
    if n > 0 {
      OFalls(st, n - 1, r);
      OStepsDown(st.(piece := st.piece.(y := n - 1)), r);
    }
  }

  /** One drop of the O piece above row 18 of an empty board lowers it by
      one row and changes nothing else. */
  lemma OStepsDown(st: State, r: int)
    requires 0 <= r < NumBlocks
    requires st.grid == EmptyRows(BoardHeight)
    requires st.piece.shape == Tetrominoes[OShape] && st.piece.x == SpawnX
    requires 0 <= st.piece.y < 18
    ensures Move(st, 0, 1, r) == st.(piece := st.piece.(y := st.piece.y + 1))
  {
    OFitsDownTo18(st.piece.y + 1);
  }

  /** The grid an O piece leaves when it locks at the spawn column on the
      floor of an empty board. */
  predicate OLanded(g: Grid)
    requires IsGrid(g)
  {
    forall row, col :: 0 <= row < BoardHeight && 0 <= col < BoardWidth ==>
      g[row][col] == if 18 <= row && 3 <= col <= 4 then 2 else 0
  }

  /** Writing the O piece at the floor of an empty board gives the landed
      grid, which has no full row: column 0 stays empty. */
  lemma OStamp(b: Block)
    requires b == Block(Tetrominoes[OShape], OShape, SpawnX, 18)
    ensures var g := Stamp(EmptyRows(BoardHeight), b);
            OLanded(g) && NoFullRow(g)
  {
    var g := Stamp(EmptyRows(BoardHeight), b);
    assert OLanded(g);
    forall row | 0 <= row < BoardHeight
      ensures !IsFull(g[row])
    {
      assert g[row][0] == 0;
    }
  }

  /** The O piece resting on the floor of an empty board locks there, no
      row is complete, and the next piece fits. */
  lemma OLocks(landed: State, r: int)
    requires 0 <= r < NumBlocks
    requires landed.grid == EmptyRows(BoardHeight) && landed.phase == Playing && landed.score == 0
    requires landed.piece == Block(Tetrominoes[OShape], OShape, SpawnX, 18)
    ensures var s := Move(landed, 0, 1, r);
            IsGrid(s.grid) && OLanded(s.grid) && s.score == 0 && s.phase == Playing &&
            s.piece == Spawned(r)
  {
    var g := Stamp(landed.grid, landed.piece);
    OStamp(landed.piece);
    NoFullRowCountsZero(g);
    NothingFullNothingCleared(g);
    assert Clear(Place(landed)).grid == g;
    SpawnFitsClearTop(g, r);
    OFitsDownTo18(19);
    assert Move(landed, 0, 1, r) == Lock(landed, r);
  }

  /** Started on an empty board with an O piece, 18 drops bring the piece
      to rows 18 and 19 and the 19th locks it there: the four cells in
      columns 3 and 4 of those rows hold the O identifier 2, every other
      cell stays empty, no line is complete so the score stays 0, and the
      next piece spawns without ending the game. */
  lemma ODropExample(st: State, r: int)
    requires 0 <= r < NumBlocks
    ensures var s := Drop(Restart(st, OShape), 19, r);
            IsGrid(s.grid) && OLanded(s.grid) &&
            s.score == 0 && s.phase == Playing && s.piece == Spawned(r)
  {
    var st0 := Restart(st, OShape);
    RestartPlays(st, OShape);
    OFalls(st0, 18, r);
    var landed := st0.(piece := st0.piece.(y := 18));
    OLocks(landed, r);
  }
}
