/** The game loop of main.c: the start and restart buttons that move between
    the menu, play and game over; the key bindings, which act only during
    play; and the frame counter that makes the piece fall by itself. The
    window, the drawing and the event source of SDL are not modelled: events
    arrive as values and the random shape of every spawn as a parameter. */
module Game {
  import opened Board
  import opened Pieces
  import opened Rules
  import opened Engine

  /** Frames between two automatic downward steps. */
  const FallInterval: int := 30

  /** The keys the loop tells apart: a or LEFT, d or RIGHT, s or DOWN, w or
      UP, and every other key. */
  datatype Key = Left | Right | Down | Up | OtherKey

  /** An event of the SDL queue. A mouse click carries whether it lies in
      the start button's rectangle and whether it lies in the restart
      button's; the two rectangles overlap, so both can hold. */
  datatype Event = Quit | Click(onStart: bool, onRestart: bool) | KeyPress(key: Key) | OtherEvent

  predicate ValidPicks(picks: seq<int>) {
    forall k :: 0 <= k < |picks| ==> 0 <= picks[k] < NumBlocks
  }

  /** The engine state when the loop starts: the zero-initialised globals in
      the menu, then initBoard and spawnBlock. */
  function Startup(r: int): (s: State)
    requires 0 <= r < NumBlocks
    ensures s.phase == Menu && s.score == 0 && s.grid == EmptyRows(BoardHeight)
    ensures s.piece == Spawned(r)
  {
    SpawnFitsEmptyBoard(r);
    Spawn(State(EmptyRows(BoardHeight), ZeroBlock, 0, Menu), r)
  }

  /** What one event does to the engine state; r is the shape a spawn
      caused by the event would draw. */
  function Dispatch(st: State, e: Event, r: int): (s: State)
    requires WellFormed(st) && 0 <= r < NumBlocks
    ensures WellFormed(s)
    ensures !((e.Click? && st.phase != Playing) || (e.KeyPress? && st.phase == Playing)) ==>
              s == st
  {
    match e
    case Click(onStart, onRestart) =>
      if st.phase == Menu then (if onStart then Restart(st, r) else st)
      else if st.phase == GameOver then (if onRestart then Restart(st, r) else st)
      else st
    case KeyPress(k) =>
      if st.phase != Playing then st
      else (
        match k
        case Left => Move(st, -1, 0, r)
        case Right => Move(st, 1, 0, r)
        case Down => Move(st, 0, 1, r)
        case Up => Rotate(st)
        case OtherKey => st)
    case Quit => st
    case OtherEvent => st
  }

  /** The update at the end of a frame: during play the counter advances,
      and when it reaches FallInterval the piece steps down and the counter
      restarts from 0. Returns the new state and counter. */
  function Tick(st: State, counter: int, r: int): (t: (State, int))
    requires WellFormed(st) && 0 <= r < NumBlocks
    ensures WellFormed(t.0)
    ensures st.phase != Playing ==> t == (st, counter)
    ensures t.1 != 0 ==> t.0 == st
  {
    if st.phase != Playing then (st, counter)
    else if counter + 1 >= FallInterval then (Move(st, 0, 1, r), 0)
    else (st, counter + 1)
  }

  /** The events of one poll that are handled: those before the first Quit. */
  function BeforeQuit(events: seq<Event>): (handled: seq<Event>)
    ensures handled <= events && Quit !in handled
    ensures |handled| < |events| ==> events[|handled|] == Quit
  {
    if events == [] || events[0] == Quit then []
    else [events[0]] + BeforeQuit(events[1..])
  }

  /** The state after dispatching the events in arrival order, event k
      with the shape pick picks[k]. */
  function Run(st: State, events: seq<Event>, picks: seq<int>): (s: State)
    requires Inv(st) && |picks| == |events| && ValidPicks(picks)
    ensures Inv(s)
    decreases |events|
  {
    if events == [] then st
    else
      var n := |events| - 1;
      var mid := Run(st, events[..n], picks[..n]);
      DispatchPreservesInv(mid, events[n], picks[n]);
      Dispatch(mid, events[n], picks[n])
  }

  // ---------------------------------------------------------------------
  // Properties of the loop

  /** At startup the game is in the menu, in a state that keeps the
      invariant: the first piece cannot collide on the empty board. */
  lemma StartupInMenu(r: int)
    requires 0 <= r < NumBlocks
    ensures Inv(Startup(r))
    ensures Startup(r).phase == Menu && Startup(r).score == 0
    ensures Startup(r).grid == EmptyRows(BoardHeight) && Startup(r).piece == Spawned(r)
  {
    RestartPlays(State(EmptyRows(BoardHeight), ZeroBlock, 0, Menu), r);
    SpawnFitsEmptyBoard(r);
  }

  /** Every event keeps the invariant. */
  lemma DispatchPreservesInv(st: State, e: Event, r: int)
    requires Inv(st) && 0 <= r < NumBlocks
    ensures Inv(Dispatch(st, e, r))
  {
    match e
    case Click(_, _) =>
      RestartPlays(st, r);
    case KeyPress(k) =>
      if st.phase == Playing {
        match k {
          case Left => MovePreservesInv(st, -1, 0, r);
          case Right => MovePreservesInv(st, 1, 0, r);
          case Down => MovePreservesInv(st, 0, 1, r);
          case Up => RotatePreservesInv(st);
          case OtherKey =>
        }
      }
    case Quit =>
    case OtherEvent =>
  }

  /** The menu is left only by a click on the start button, and that click
      starts a game on an empty board with score 0; any other event changes
      nothing. */
  lemma MenuLeftOnlyByStart(st: State, e: Event, r: int)
    requires Inv(st) && st.phase == Menu && 0 <= r < NumBlocks
    ensures var s := Dispatch(st, e, r);
            if e.Click? && e.onStart
            then s.phase == Playing && s.score == 0 && s.grid == EmptyRows(BoardHeight) &&
                 s.piece == Spawned(r)
            else s == st
  {
    RestartPlays(st, r);
  }

  /** Game over is left only by a click on the restart button, which starts
      a game as the start button does; any other event changes nothing. */
  lemma GameOverLeftOnlyByRestart(st: State, e: Event, r: int)
    requires Inv(st) && st.phase == GameOver && 0 <= r < NumBlocks
    ensures var s := Dispatch(st, e, r);
            if e.Click? && e.onRestart
            then s.phase == Playing && s.score == 0 && s.grid == EmptyRows(BoardHeight) &&
                 s.piece == Spawned(r)
            else s == st
  {
    RestartPlays(st, r);
  }

  /** During play, an event ends the game only when it is the down key, the
      step down is blocked, and the piece spawned after the lock collides
      with the cleared grid. No event leads back to the menu. */
  lemma PlayEndsOnlyBySpawnCollision(st: State, e: Event, r: int)
    requires Inv(st) && st.phase == Playing && 0 <= r < NumBlocks
    ensures var s := Dispatch(st, e, r);
            s.phase != Menu &&
            (s.phase == GameOver ==>
               e == KeyPress(Down) &&
               Collides(st.grid, st.piece.shape, st.piece.x, st.piece.y + 1) &&
               Collides(Clear(Place(st)).grid, Spawned(r).shape, SpawnX, SpawnY))
  {
    if Dispatch(st, e, r).phase == GameOver {
      match e
      case KeyPress(k) =>
        if k == Left {
          MoveEndsGameOnlyBySpawn(st, -1, 0, r);
        } else if k == Right {
          MoveEndsGameOnlyBySpawn(st, 1, 0, r);
        } else if k == Down {
          MoveEndsGameOnlyBySpawn(st, 0, 1, r);
        }
      case Click(_, _) =>
      case Quit =>
      case OtherEvent =>
    }
  }

  /** During play the score never goes down, whatever the event. */
  lemma PlayNeverLowersScore(st: State, e: Event, r: int)
    requires Inv(st) && st.phase == Playing && 0 <= r < NumBlocks
    ensures Dispatch(st, e, r).score >= st.score
  {
    match e
    case KeyPress(k) =>
      match k {
        case Left => MovePreservesInv(st, -1, 0, r);
        case Right => MovePreservesInv(st, 1, 0, r);
        case Down => MovePreservesInv(st, 0, 1, r);
        case Up =>
        case OtherKey =>
      }
    case Click(_, _) =>
    case Quit =>
    case OtherEvent =>
  }

  /** The frame update keeps the counter in [0, FallInterval): during play
      it counts frames modulo FallInterval and the piece steps down exactly
      when the count wraps to 0; outside play nothing changes. The step keeps
      the invariant, never lowers the score, and ends the game only through
      a spawn collision after a lock. */
  lemma TickProperties(st: State, counter: int, r: int)
    requires Inv(st) && 0 <= counter < FallInterval && 0 <= r < NumBlocks
    ensures var (s, c) := Tick(st, counter, r);
            0 <= c < FallInterval && Inv(s) &&
            (st.phase == Playing ==>
               c == (counter + 1) % FallInterval &&
               (s == if c == 0 then Move(st, 0, 1, r) else st) &&
               s.score >= st.score && s.phase != Menu) &&
            (st.phase != Playing ==> s == st && c == counter)
    ensures var (s, c) := Tick(st, counter, r);
            st.phase == Playing && s.phase == GameOver ==>
              Collides(st.grid, st.piece.shape, st.piece.x, st.piece.y + 1) &&
              Collides(Clear(Place(st)).grid, Spawned(r).shape, SpawnX, SpawnY)
  {
    if st.phase == Playing {
      MovePreservesInv(st, 0, 1, r);
      if Tick(st, counter, r).0.phase == GameOver {
        MoveEndsGameOnlyBySpawn(st, 0, 1, r);
      }
    }
  }

  /** The handled events are exactly the events before the first Quit. */
  lemma BeforeQuitIsPrefix(events: seq<Event>, i: int)
    requires 0 <= i <= |events| && Quit !in events[..i]
    requires i == |events| || events[i] == Quit
    ensures BeforeQuit(events) == events[..i]
  {
    var handled := BeforeQuit(events);
    assert handled == events[..|handled|];
  }

  class MainLoop {
    const engine: Tetris
    /** The static frame counter of the update step. */
    var counter: int
    var running: bool

    ghost predicate Valid()
      reads this, engine, engine.board
    {
      engine.Valid() && 0 <= counter < FallInterval
    }

    /** main's setup with r for the first random shape: initBoard and
        spawnBlock on the fresh globals, which leaves the game in the menu. */
    constructor (r: int)
      requires 0 <= r < NumBlocks
      ensures Valid() && fresh(engine) && fresh(engine.board)
      ensures engine.Model() == Startup(r) && engine.phase == Menu
      ensures counter == 0 && running
    {
      engine := new Tetris();
      counter := 0;
      running := true;
      new;
      engine.InitBoard();
      engine.SpawnBlock(r);
      StartupInMenu(r);
    }

    /** The start and the restart branch of the click handler. */
    method StartGame(r: int)
      requires engine.Sized() && 0 <= r < NumBlocks
      modifies engine, engine.board
      ensures engine.Model() == Restart(old(engine.Model()), r)
    {
      engine.phase := Playing;
      engine.InitBoard();
      engine.score := 0;
      engine.SpawnBlock(r);
    }

    /** One pass of the poll loop's body, with r for the shape of any spawn
        the event causes. */
    method HandleEvent(e: Event, r: int)
      requires Valid() && 0 <= r < NumBlocks
      modifies this, engine, engine.board
      ensures Valid()
      ensures engine.Model() == Dispatch(old(engine.Model()), e, r)
      ensures counter == old(counter)
      ensures running == (old(running) && e != Quit)
    {
      match e {
        case Quit =>
          running := false;
        case Click(onStart, onRestart) =>
          if engine.phase == Menu {
            if onStart {
              StartGame(r);
            }
          } else if engine.phase == GameOver {
            if onRestart {
              StartGame(r);
            }
          }
        case KeyPress(k) =>
          if engine.phase == Playing {
            match k {
              case Left => engine.MoveBlock(-1, 0, r);
              case Right => engine.MoveBlock(1, 0, r);
              case Down => engine.MoveBlock(0, 1, r);
              case Up => engine.RotateBlock();
              case OtherKey =>
            }
          }
        case OtherEvent =>
      }
      DispatchPreservesInv(old(engine.Model()), e, r);
    }

    /** The poll loop: events are handled in arrival order, event k with the
        shape pick picks[k], and a Quit ends the loop after clearing the
        running flag. */
    method PollEvents(events: seq<Event>, picks: seq<int>)
      requires Valid() && |picks| == |events| && ValidPicks(picks)
      modifies this, engine, engine.board
      ensures Valid()
      ensures var n := |BeforeQuit(events)|;
              engine.Model() == Run(old(engine.Model()), events[..n], picks[..n])
      ensures running == (old(running) && Quit !in events)
      ensures counter == old(counter)
    {
      var i := 0;
      while i < |events|
        invariant 0 <= i <= |events|
        invariant Valid()
        invariant Quit !in events[..i]
        invariant engine.Model() == Run(old(engine.Model()), events[..i], picks[..i])
        invariant running == old(running)
        invariant counter == old(counter)
      {
        HandleEvent(events[i], picks[i]);
        assert events[..i + 1][..i] == events[..i];
        assert picks[..i + 1][..i] == picks[..i];
        if events[i] == Quit {
          BeforeQuitIsPrefix(events, i);
          assert Quit in events;
          return;
        }
        i := i + 1;
      }
      assert events[..i] == events;
      BeforeQuitIsPrefix(events, i);
    }

    /** The frame update: during play the counter advances and, on reaching
        FallInterval, the piece steps down and the counter restarts. */
    method Frame(r: int)
      requires Valid() && 0 <= r < NumBlocks
      modifies this, engine, engine.board
      ensures Valid()
      ensures (engine.Model(), counter) == Tick(old(engine.Model()), old(counter), r)
      ensures running == old(running)
    {
      if engine.phase == Playing {
        counter := counter + 1;
        if counter >= FallInterval {
          engine.MoveBlock(0, 1, r);
          counter := 0;
        }
      }
    }

    /** One call of game_loop: the poll loop, then the frame update, which
        runs even when a Quit stopped the poll. */
    method GameLoop(events: seq<Event>, picks: seq<int>, framePick: int)
      requires Valid() && |picks| == |events| && ValidPicks(picks)
      requires 0 <= framePick < NumBlocks
      modifies this, engine, engine.board
      ensures Valid()
      ensures var n := |BeforeQuit(events)|;
              (engine.Model(), counter) ==
                Tick(Run(old(engine.Model()), events[..n], picks[..n]), old(counter), framePick)
      ensures running == (old(running) && Quit !in events)
    {
      PollEvents(events, picks);
      Frame(framePick);
    }
  }
}
