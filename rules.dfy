/** The game logic as functions on a snapshot of the game state: one tick of
    the snake, the tick gate, the handling of one frame's events, and one
    whole pass of the game loop. The class in module SnakeGame updates its
    fields in place and is proved to follow these functions. */
module Rules {
  import opened Grid
  import opened Input

  /** Milliseconds between ticks: 1000 / 8, which is exactly 125. */
  const TickLength := 125

  /** The grid size the game is played on. */
  const DefaultGridSize := 21

  /** What the event queue can deliver in one frame. */
  datatype Event = Quit | KeyDown(key: Key) | VideoResize(w: int, h: int) | OtherEvent

  /** All fields of the game state that change while the game runs. */
  datatype Game = Game(
    sinceLastTick: int,
    running: bool,
    gameOver: bool,
    score: int,
    direction: Coord,
    head: Coord,
    body: seq<Coord>,   // oldest segment first
    food: Coord)

  /** A new game: standing still at (10, 10), no body, nothing scored. */
  function Initial(food: Coord): Game {
    Game(0, true, false, 0, Still, Coord(10, 10), [], food)
  }

  /** What every reachable state satisfies on an n-by-n grid. */
  predicate Inv(g: Game, n: int) {
    && n > 0
    && InGrid(g.head, n)
    && InGrid(g.food, n)
    && AllInGrid(g.body, n)
    && IsDirection(g.direction)
    && |g.body| == g.score
    && g.sinceLastTick >= 0
  }

  /** One tick. The collision check looks at the head before it moves; on a
      collision nothing is appended, but the food check and the move of the
      head still happen. The new food is drawn by the caller. */
  function Tick(g: Game, n: int, newFood: Coord): Game
    requires n > 0
  {
    var collided := g.head in g.body;
    var grown := g.body + [g.head];
    var body := if collided then g.body else if g.head != g.food then grown[1..] else grown;
    var score := if !collided && g.head == g.food then g.score + 1 else g.score;
    var food := if g.head == g.food then newFood else g.food;
    g.(gameOver := g.gameOver || collided, body := body, score := score, food := food,
       head := Move(g.head, g.direction, n))
  }

  /** The tick gate: enough time has passed and the game is not over. */
  predicate Fires(g: Game) {
    g.sinceLastTick >= TickLength && !g.gameOver
  }

  /** The gated update: a firing gate resets the accumulator to zero (not by
      the tick length) and runs one tick. */
  function Update(g: Game, n: int, newFood: Coord): Game
    requires n > 0
  {
    if Fires(g) then Tick(g.(sinceLastTick := 0), n, newFood) else g
  }

  /** The part of one event that concerns the game state. */
  function HandleEvent(g: Game, e: Event): Game {
    match e
    case Quit => g.(running := false)
    case KeyDown(k) => g.(direction := Steer(g.direction, k))
    case _ => g
  }

  /** The events of one frame, handled in the order they arrived. */
  function HandleEvents(g: Game, es: seq<Event>): Game
    decreases |es|
  {
    if es == [] then g else HandleEvent(HandleEvents(g, es[..|es| - 1]), es[|es| - 1])
  }

  /** The size of the last resize event among es, if any. */
  datatype Resized = NoResize | ResizedTo(w: int, h: int)

  function LastResize(es: seq<Event>): Resized
    decreases |es|
  {
    if es == [] then NoResize
    else if es[|es| - 1].VideoResize? then ResizedTo(es[|es| - 1].w, es[|es| - 1].h)
    else LastResize(es[..|es| - 1])
  }

  /** What one pass of the loop consumes: the events, the clock's
      milliseconds for the frame, and the cell a food draw would yield. */
  datatype FrameInput = FrameInput(events: seq<Event>, dt: int, newFood: Coord)

  predicate WellFormed(f: FrameInput, n: int) {
    f.dt >= 0 && InGrid(f.newFood, n)
  }

  /** One pass of the loop: events, the gated update, then the frame time. */
  function FrameStep(g: Game, n: int, f: FrameInput): Game
    requires n > 0
  {
    var u := Update(HandleEvents(g, f.events), n, f.newFood);
    u.(sinceLastTick := u.sinceLastTick + f.dt)
  }

  // ---------------------------------------------------------------------
  // One tick

  /** A tick keeps the invariant: the head and the food stay on the grid, the
      body stays as long as the score, whether the snake grows, moves or
      collides. */
  lemma TickPreservesInv(g: Game, n: int, newFood: Coord)
    requires Inv(g, n) && InGrid(newFood, n)
    ensures Inv(Tick(g, n, newFood), n)
  {
    var grown := g.body + [g.head];
    assert AllInGrid(grown, n) by {
      forall i | 0 <= i < |grown| ensures InGrid(grown[i], n) {
        if i < |g.body| { assert grown[i] == g.body[i]; }
      }
    }
    assert AllInGrid(grown[1..], n) by {
      forall i | 0 <= i < |grown[1..]| ensures InGrid(grown[1..][i], n) {
        assert grown[1..][i] == grown[i + 1];
      }
    }
  }

  /** Growth: the head is on the food and not on the body. The body gains the
      old head at its end, the score rises by one and the food is redrawn. */
  lemma GrowthTick(g: Game, n: int, newFood: Coord)
    requires n > 0 && g.head !in g.body && g.head == g.food
    ensures Tick(g, n, newFood).body == g.body + [g.head]
    ensures Tick(g, n, newFood).score == g.score + 1
    ensures Tick(g, n, newFood).food == newFood
    ensures Tick(g, n, newFood).gameOver == g.gameOver
  {
  }

  /** Plain move: the head is neither on the body nor on the food. The old
      head is appended and the oldest segment dropped; score and food stay. */
  lemma MoveTick(g: Game, n: int, newFood: Coord)
    requires n > 0 && g.head !in g.body && g.head != g.food
    ensures |Tick(g, n, newFood).body| == |g.body|
    ensures g.body != [] ==> Tick(g, n, newFood).body == g.body[1..] + [g.head]
    ensures g.body == [] ==> Tick(g, n, newFood).body == []
    ensures Tick(g, n, newFood).score == g.score
    ensures Tick(g, n, newFood).food == g.food
    ensures Tick(g, n, newFood).gameOver == g.gameOver
  {
    if g.body != [] {
      assert (g.body + [g.head])[1..] == g.body[1..] + [g.head];
    }
  }

  /** Collision: the head is on the body. The game is over and body and score
      stay as they were, yet the head still moves on and food under the head
      is still redrawn. */
  lemma CollisionTick(g: Game, n: int, newFood: Coord)
    requires n > 0 && g.head in g.body
    ensures Tick(g, n, newFood).gameOver
    ensures Tick(g, n, newFood).body == g.body
    ensures Tick(g, n, newFood).score == g.score
    ensures Tick(g, n, newFood).head == Move(g.head, g.direction, n)
    ensures Tick(g, n, newFood).food == if g.head == g.food then newFood else g.food
  {
  }

  /** Every tick moves the head by the direction, wrapping around the grid,
      and leaves the direction, the accumulator and the running flag alone. */
  lemma TickMovesHead(g: Game, n: int, newFood: Coord)
    requires n > 0
    ensures Tick(g, n, newFood).head == Move(g.head, g.direction, n)
    ensures Tick(g, n, newFood).direction == g.direction
    ensures Tick(g, n, newFood).sinceLastTick == g.sinceLastTick
    ensures Tick(g, n, newFood).running == g.running
  {
  }

  /** Leaving the right edge of the default grid enters at the left edge. */
  lemma WrapAtRightEdge(g: Game, newFood: Coord)
    requires g.head == Coord(20, 10) && g.direction == East
    ensures Tick(g, DefaultGridSize, newFood).head == Coord(0, 10)
  {
  }

  /** A first bite on a 5-by-5 grid. */
  lemma FirstBite(newFood: Coord)
    ensures var g := Game(0, true, false, 0, East, Coord(2, 2), [], Coord(2, 2));
      Tick(g, 5, newFood) == g.(body := [Coord(2, 2)], score := 1, food := newFood, head := Coord(3, 2))
  {
  }

  /** Collision is detected one tick late. A snake that has been turned around
      by two key presses moves its head onto its own body, and the game goes
      on; only the following tick sees the head on the body. */
  lemma CollisionLagsOneTick(food: Coord)
    requires food != Coord(2, 0) && food != Coord(1, 0)
    ensures var g := Game(0, true, false, 2, West, Coord(2, 0), [Coord(0, 0), Coord(1, 0)], food);
      var t := Tick(g, 5, food);
      t.head in t.body && !t.gameOver && Tick(t, 5, food).gameOver
  {
    var g := Game(0, true, false, 2, West, Coord(2, 0), [Coord(0, 0), Coord(1, 0)], food);
    var t := Tick(g, 5, food);
    assert t.body == [Coord(1, 0), Coord(2, 0)];
    assert t.head == Coord(1, 0);
  }

  // ---------------------------------------------------------------------
  // The tick gate

  /** Once the game is over the gate stays shut: the update changes nothing. */
  lemma UpdateAfterGameOver(g: Game, n: int, newFood: Coord)
    requires n > 0 && g.gameOver
    ensures Update(g, n, newFood) == g
  {
  }

  /** A firing gate leaves the accumulator at zero, however far past the tick
      length it was, and runs exactly one tick. */
  lemma UpdateResetsAccumulator(g: Game, n: int, newFood: Coord)
    requires n > 0 && Fires(g)
    ensures Update(g, n, newFood).sinceLastTick == 0
    ensures Update(g, n, newFood) == Tick(g.(sinceLastTick := 0), n, newFood)
  {
  }

  /** The game-over flag is never cleared by an update. */
  lemma UpdateKeepsGameOver(g: Game, n: int, newFood: Coord)
    requires n > 0
    ensures g.gameOver ==> Update(g, n, newFood).gameOver
  {
  }

  // ---------------------------------------------------------------------
  // Events

  /** Events touch only the running flag and the direction: the flag drops
      exactly when a quit event arrives, and the direction stays valid. */
  lemma {:induction false} HandleEventsFrame(g: Game, es: seq<Event>)
    ensures var r := HandleEvents(g, es);
      r == g.(running := r.running, direction := r.direction)
    ensures HandleEvents(g, es).running == (g.running && Quit !in es)
    ensures IsDirection(g.direction) ==> IsDirection(HandleEvents(g, es).direction)
    decreases |es|
  {
    if es != [] {
      var init := es[..|es| - 1];
      HandleEventsFrame(g, init);
      assert es == init + [es[|es| - 1]];
      var last := es[|es| - 1];
      if last.KeyDown? && IsDirection(g.direction) {
        SteerKeepsDirection(HandleEvents(g, init).direction, last.key);
      }
    }
  }

  /** Events keep the invariant. */
  lemma HandleEventsPreservesInv(g: Game, es: seq<Event>, n: int)
    requires Inv(g, n)
    ensures Inv(HandleEvents(g, es), n)
  {
    HandleEventsFrame(g, es);
  }

  /** Two key presses in one frame, Up then Left, turn a snake that moves
      right around before the next tick. */
  lemma FrameCanReverse(g: Game)
    requires g.direction == East
    ensures HandleEvents(g, [KeyDown(Up), KeyDown(Left)]).direction == West
  {
    assert [KeyDown(Up), KeyDown(Left)][..1] == [KeyDown(Up)];
    assert [KeyDown(Up)][..0] == [];
  }

  // ---------------------------------------------------------------------
  // One frame

  /** A frame keeps the invariant. */
  lemma FrameStepPreservesInv(g: Game, n: int, f: FrameInput)
    requires Inv(g, n) && WellFormed(f, n)
    ensures Inv(FrameStep(g, n, f), n)
  {
    var h := HandleEvents(g, f.events);
    HandleEventsPreservesInv(g, f.events, n);
    if Fires(h) {
      TickPreservesInv(h.(sinceLastTick := 0), n, f.newFood);
    }
  }

  /** After a frame in which the tick fired, the accumulator holds exactly
      that frame's time; after any other frame it has grown by it. */
  lemma FrameAccumulator(g: Game, n: int, f: FrameInput)
    requires n > 0
    ensures var h := HandleEvents(g, f.events);
      FrameStep(g, n, f).sinceLastTick
        == if Fires(h) then f.dt else g.sinceLastTick + f.dt
  {
    HandleEventsFrame(g, f.events);
  }

  /** The gate decides the whole frame. A shut gate leaves everything but the
      running flag, the direction and the accumulator as it was; an open one
      runs exactly one tick, after which the accumulator holds the frame's
      time. */
  lemma FrameGate(g: Game, n: int, f: FrameInput)
    requires n > 0
    ensures var h := HandleEvents(g, f.events);
      !Fires(h) ==> (FrameStep(g, n, f)
        == g.(running := h.running, direction := h.direction, sinceLastTick := g.sinceLastTick + f.dt))
    ensures var h := HandleEvents(g, f.events);
      Fires(h) ==> FrameStep(g, n, f) == Tick(h, n, f.newFood).(sinceLastTick := f.dt)
  {
    HandleEventsFrame(g, f.events);
  }

  /** Once the game is over a frame leaves the snake, the food, the score
      and the flag as they were. */
  lemma FrameAfterGameOver(g: Game, n: int, f: FrameInput)
    requires n > 0 && g.gameOver
    ensures var r := FrameStep(g, n, f);
      r.gameOver && r.head == g.head && r.body == g.body && r.food == g.food && r.score == g.score
  {
    HandleEventsFrame(g, f.events);
  }

  /** A frame never clears the game-over flag. */
  lemma FrameKeepsGameOver(g: Game, n: int, f: FrameInput)
    requires n > 0
    ensures g.gameOver ==> FrameStep(g, n, f).gameOver
  {
    HandleEventsFrame(g, f.events);
  }
}
