/** The game state object and the game loop that updates it in place, each
    proved to follow the functions of module Rules. */
module SnakeGame {
  import opened Grid
  import opened Input
  import opened Layout
  import opened Rules
  import opened Runs

  class GameState {
    const tickLength: int
    const gridSize: int
    var sinceLastTick: int
    var running: bool
    var gameOver: bool
    var score: int
    var direction: Coord
    var head: Coord
    var body: seq<Coord>
    var food: Coord

    /** The fields as a value of the game logic. */
    function View(): Game
      reads this
    {
      Game(sinceLastTick, running, gameOver, score, direction, head, body, food)
    }

    predicate Valid()
      reads this
    {
      tickLength == TickLength && Inv(View(), gridSize)
    }

    /** A new game on the default grid; the first food cell is drawn by the
        caller. */
    constructor (firstFood: Coord)
      requires InGrid(firstFood, DefaultGridSize)
      ensures Valid() && gridSize == DefaultGridSize
      ensures View() == Initial(firstFood)
    {
      tickLength, gridSize := TickLength, DefaultGridSize;
      sinceLastTick, running, gameOver, score := 0, true, false, 0;
      direction, head, body, food := Still, Coord(10, 10), [], firstFood;
    }

    /** A steering key press. */
    method ApplyKey(k: Key)
      requires Valid()
      modifies this`direction
      ensures Valid()
      ensures direction == Steer(old(direction), k)
    {
      if k == Up || k == KeyW {
        if direction != South { direction := North; }
      } else if k == Down || k == KeyS {
        if direction != North { direction := South; }
      } else if k == Left || k == KeyA {
        if direction != East { direction := West; }
      } else if k == Right || k == KeyD {
        if direction != West { direction := East; }
      }
      SteerKeepsDirection(old(direction), k);
    }

    /** One tick of the snake; newFood is used only if the food is eaten. */
    method Tick(newFood: Coord)
      requires Valid() && InGrid(newFood, gridSize)
      modifies this
      ensures Valid()
      ensures View() == Rules.Tick(old(View()), gridSize, newFood)
    {
      ghost var before := View();
      if head in body {
        gameOver := true;
      } else {
        body := body + [head];
        if head != food {
          body := body[1..];
        } else {
          score := score + 1;
        }
      }
      if head == food {
        food := newFood;
      }
      head := Move(head, direction, gridSize);
      TickPreservesInv(before, gridSize, newFood);
    }

    /** The tick gate followed, if it fires, by one tick. */
    method Update(newFood: Coord)
      requires Valid() && InGrid(newFood, gridSize)
      modifies this
      ensures Valid()
      ensures View() == Rules.Update(old(View()), gridSize, newFood)
    {
      if sinceLastTick >= tickLength && !gameOver {
        sinceLastTick := 0;
        Tick(newFood);
      }
    }
  }

  /** Handle one event: a quit request, a key press or a window resize. */
  method HandleEvent(state: GameState, graphics: GraphicState, e: Event)
    requires state.Valid()
    modifies state, graphics
    ensures state.Valid()
    ensures state.View() == Rules.HandleEvent(old(state.View()), e)
    ensures e.VideoResize? ==>
      graphics.windowW == e.w && graphics.windowH == e.h
      && graphics.Placed() == ComputePlacement(e.w, e.h, state.gridSize)
    ensures !e.VideoResize? ==> unchanged(graphics)
  {
    match e
    case Quit =>
      state.running := false;
    case KeyDown(k) =>
      state.ApplyKey(k);
    case VideoResize(w, h) =>
      graphics.Resize(w, h, state.gridSize);
    case OtherEvent =>
  }

  /** One pass of the game loop: the frame's events in order, the gated
      update, and then the clock's time for the frame. Drawing is left out. */
  method Frame(state: GameState, graphics: GraphicState, f: FrameInput)
    requires state.Valid() && WellFormed(f, state.gridSize)
    modifies state, graphics
    ensures state.Valid()
    ensures state.View() == FrameStep(old(state.View()), state.gridSize, f)
    ensures match LastResize(f.events)
      case NoResize => unchanged(graphics)
      case ResizedTo(w, h) =>
        graphics.windowW == w && graphics.windowH == h
        && graphics.Placed() == ComputePlacement(w, h, state.gridSize)
  {
    var es := f.events;
    for i := 0 to |es|
      invariant state.Valid()
      invariant state.View() == HandleEvents(old(state.View()), es[..i])
      invariant match LastResize(es[..i])
        case NoResize => unchanged(graphics)
        case ResizedTo(w, h) =>
          graphics.windowW == w && graphics.windowH == h
          && graphics.Placed() == ComputePlacement(w, h, state.gridSize)
    {
      assert es[..i + 1][..i] == es[..i];
      HandleEvent(state, graphics, es[i]);
    }
    assert es[..|es|] == es;
    state.Update(f.newFood);
    state.sinceLastTick := state.sinceLastTick + f.dt;
  }

  /** The game loop: frames are played while the game is running and input
      remains. Returns how many frames were played. */
  method Loop(state: GameState, graphics: GraphicState, frames: seq<FrameInput>) returns (played: nat)
    requires state.Valid() && AllWellFormed(frames, state.gridSize)
    modifies state, graphics
    ensures state.Valid()
    ensures state.View() == Run(old(state.View()), state.gridSize, frames)
    ensures played <= |frames| && (played == |frames| || !state.running)
  {
    played := 0;
    while state.running && played < |frames|
      invariant played <= |frames|
      invariant state.Valid()
      invariant Run(old(state.View()), state.gridSize, frames)
        == Run(state.View(), state.gridSize, frames[played..])
    {
      Frame(state, graphics, frames[played]);
      assert frames[played..][1..] == frames[played + 1..];
      played := played + 1;
    }
  }

  /** Game start: a new state with its first food cell, and the default
      layout. */
  method Init(firstFood: Coord) returns (state: GameState, graphics: GraphicState)
    requires InGrid(firstFood, DefaultGridSize)
    ensures fresh(state) && fresh(graphics)
    ensures state.Valid() && state.gridSize == DefaultGridSize
    ensures state.View() == Initial(firstFood)
    ensures graphics.cellSize == 30 && graphics.windowW == 600 && graphics.windowH == 600
    ensures graphics.offsetX == 0 && graphics.offsetY == 0
  {
    state := new GameState(firstFood);
    graphics := new GraphicState();
  }
}
